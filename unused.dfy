/**
  The unused-workspace-dependency analysis (`unused_workspace_deps`): the names of
  `[workspace.dependencies]` that no member declares.
*/
module Unused {
  import opened Util
  import opened Cargo

  /** Member `m` declares `name` in one of its top-level dependency tables. */
  predicate DeclaresTopLevel(m: Manifest, name: string)
  {
    name in m.dependencies || name in m.devDependencies || name in m.buildDependencies
  }

  /** Member `m` declares `name` in some `[target.<cfg>]` dependency table. */
  predicate DeclaresForTarget(m: Manifest, name: string)
  {
    exists cfg :: cfg in m.target && (
      name in m.target[cfg].dependencies
      || name in m.target[cfg].devDependencies
      || name in m.target[cfg].buildDependencies)
  }

  /** Cargo resolves `name` for `m` from either kind of table. */
  predicate Declares(m: Manifest, name: string)
  {
    DeclaresTopLevel(m, name) || DeclaresForTarget(m, name)
  }

  function Names(deps: seq<WorkspaceDep>): (r: seq<string>)
    ensures |r| == |deps| && forall i :: 0 <= i < |deps| ==> r[i] == deps[i].name
  {
    if deps == [] then [] else [deps[0].name] + Names(deps[1..])
  }

  /** The filter as written: a name counts as used only through a top-level table. */
  function UnusedTopLevel(deps: seq<WorkspaceDep>, members: seq<Manifest>): (r: seq<string>)
    ensures SubsequenceOf(r, Names(deps))
    ensures forall n :: n in r <==>
      n in Names(deps) && forall m :: m in members ==> !DeclaresTopLevel(m, n)
  {
    if deps == [] then []
    else
      var rest := UnusedTopLevel(deps[1..], members);
      assert Names(deps) == [deps[0].name] + Names(deps[1..]);
      if exists m :: m in members && DeclaresTopLevel(m, deps[0].name) then rest
      else [deps[0].name] + rest
  }

  /**
    `unused_workspace_deps` as the source writes it: the root's workspace dependency
    names, in declaration order, that no member has as a key of its `dependencies`,
    `dev-dependencies` or `build-dependencies`; nothing when the root has no workspace.
  */
  function UnusedWorkspaceDepsAsWritten(root: Manifest, members: seq<Manifest>): (r: seq<string>)
    ensures root.workspace.None? ==> r == []
    ensures SubsequenceOf(r, Names(root.WorkspaceDependencies()))
    ensures forall n :: n in r <==>
      n in Names(root.WorkspaceDependencies()) && forall m :: m in members ==> !DeclaresTopLevel(m, n)
  {
    UnusedTopLevel(root.WorkspaceDependencies(), members)
  }

  /** The corrected filter: a name declared in any table, target-specific ones included, is used. */
  function UnusedAnywhere(deps: seq<WorkspaceDep>, members: seq<Manifest>): (r: seq<string>)
    ensures SubsequenceOf(r, Names(deps))
    ensures forall n :: n in r <==>
      n in Names(deps) && forall m :: m in members ==> !Declares(m, n)
  {
    if deps == [] then []
    else
      var rest := UnusedAnywhere(deps[1..], members);
      assert Names(deps) == [deps[0].name] + Names(deps[1..]);
      if exists m :: m in members && Declares(m, deps[0].name) then rest
      else [deps[0].name] + rest
  }

  /**
    The unused workspace dependencies: the root's workspace dependency names, in
    declaration order, that no member declares in any of its dependency tables.
  */
  function UnusedWorkspaceDeps(root: Manifest, members: seq<Manifest>): (r: seq<string>)
    ensures root.workspace.None? ==> r == []
    ensures SubsequenceOf(r, Names(root.WorkspaceDependencies()))
    ensures forall n :: n in r <==>
      n in Names(root.WorkspaceDependencies()) && forall m :: m in members ==> !Declares(m, n)
  {
    UnusedAnywhere(root.WorkspaceDependencies(), members)
  }

  /**
    The workspace dependencies are map keys, so both filters, as written and
    corrected, report each name at most once.
  */
  lemma {:induction false} DistinctUnused(deps: WorkspaceDeps, members: seq<Manifest>)
    ensures Distinct(UnusedTopLevel(deps, members))
    ensures Distinct(UnusedAnywhere(deps, members))
  {
    if deps != [] {
      var tail: WorkspaceDeps := deps[1..];
      DistinctUnused(tail, members);
      assert deps[0].name !in Names(tail);
      assert deps[0].name !in UnusedTopLevel(tail, members);
      assert deps[0].name !in UnusedAnywhere(tail, members);
    }
  }

  /**
    The filter as written reports a dependency that a member inherits only in a
    target-specific table (`[target.'cfg(unix)'.dependencies] bar = { workspace = true }`);
    the `--fix` pass would then delete a dependency the member still uses.
  */
  lemma TargetOnlyUseReportedUnused()
    ensures
      var root := Manifest(Some(Workspace([WorkspaceDep("bar", Simple("1"))])), map[], map[], map[], map[]);
      var unix := Target(map["bar" := Inherited(true, [])], map[], map[]);
      var member := Manifest(None, map[], map[], map[], map["cfg(unix)" := unix]);
      && Declares(member, "bar")
      && UnusedWorkspaceDepsAsWritten(root, [member]) == ["bar"]
      && UnusedWorkspaceDeps(root, [member]) == []
  {
    var root := Manifest(Some(Workspace([WorkspaceDep("bar", Simple("1"))])), map[], map[], map[], map[]);
    var unix := Target(map["bar" := Inherited(true, [])], map[], map[]);
    var member := Manifest(None, map[], map[], map[], map["cfg(unix)" := unix]);
    assert Declares(member, "bar") by {
      assert "cfg(unix)" in member.target;
    }
    assert Names(root.WorkspaceDependencies()) == ["bar"];
    var asWritten := UnusedWorkspaceDepsAsWritten(root, [member]);
    assert "bar" in asWritten;
    assert |asWritten| <= 1 by { SubsequenceLength(asWritten, ["bar"]); }
    var fixed := UnusedWorkspaceDeps(root, [member]);
    assert |fixed| <= 1 by { SubsequenceLength(fixed, ["bar"]); }
    assert "bar" !in fixed;
    if fixed != [] {
      assert false;
    }
  }

  lemma {:induction false} SubsequenceLength<T>(a: seq<T>, b: seq<T>)
    requires SubsequenceOf(a, b)
    ensures |a| <= |b|
    decreases |b|
  {
    if b != [] {
      if a != [] && a[0] == b[0] && SubsequenceOf(a[1..], b[1..]) {
        SubsequenceLength(a[1..], b[1..]);
      } else {
        SubsequenceLength(a, b[1..]);
      }
    }
  }
}
