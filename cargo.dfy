/**
  The parsed (semantic) view of a Cargo manifest, as the linter reads it from the
  manifest-parsing library. Only the fields the linter consults are kept.
*/
module Cargo {
  import opened Util

  /** The three dependency tables of a package. */
  datatype Kind = Normal | Dev | Build

  /** The key under which a dependency table of this kind sits in the document. */
  function TableName(k: Kind): string
  {
    match k
    case Normal => "dependencies"
    case Dev => "dev-dependencies"
    case Build => "build-dependencies"
  }

  /**
    A dependency declaration: a bare version string, an entry inheriting from the
    workspace (`foo = { workspace = true, features = [...] }`), or a full table.
  */
  datatype Dependency =
    | Simple(version: string)
    | Inherited(workspace: bool, features: seq<string>)
    | Detailed(version: string, features: seq<string>)

  /** The features the declaration itself asks for (`Dependency::req_features`). */
  function ReqFeatures(d: Dependency): seq<string>
  {
    match d
    case Simple(_) => []
    case Inherited(_, features) => features
    case Detailed(_, features) => features
  }

  type DepsSet = map<string, Dependency>

  datatype WorkspaceDep = WorkspaceDep(name: string, dep: Dependency)

  ghost predicate DistinctNames(deps: seq<WorkspaceDep>)
  {
    forall i, j :: 0 <= i < j < |deps| ==> deps[i].name != deps[j].name
  }

  /** `[workspace.dependencies]` in iteration order; names are keys of a map, hence distinct. */
  type WorkspaceDeps = deps: seq<WorkspaceDep> | DistinctNames(deps) witness []

  datatype Workspace = Workspace(dependencies: WorkspaceDeps)

  /** The dependency tables of one `[target.<cfg>]` section. */
  datatype Target = Target(dependencies: DepsSet, devDependencies: DepsSet, buildDependencies: DepsSet)

  datatype Manifest = Manifest(
    workspace: Option<Workspace>,
    dependencies: DepsSet,
    devDependencies: DepsSet,
    buildDependencies: DepsSet,
    target: map<string, Target>)
  {
    /** The top-level dependency table of kind `k`. */
    function Deps(k: Kind): DepsSet
    {
      match k
      case Normal => dependencies
      case Dev => devDependencies
      case Build => buildDependencies
    }

    /** The root's workspace dependencies, empty when it has no `[workspace]`. */
    function WorkspaceDependencies(): WorkspaceDeps
    {
      match workspace
      case None => []
      case Some(w) => w.dependencies
    }
  }
}
