/**
  `lint_manifest`: both rules applied to every member dependency that inherits a
  workspace dependency, in the `dependencies` and `dev-dependencies` tables.
*/
module Lint {
  import opened Util
  import opened Toml
  import opened Cargo
  import opened Features
  import opened DefaultFeatures

  /**
    What the linter does about workspace dependency `wd` in the member's table of
    kind `k`: when the member inherits it with `workspace = true`, the features
    the member restates; otherwise nothing.
  */
  function Plan(member: Manifest, k: Kind, wd: WorkspaceDep): Option<seq<string>>
  {
    var deps := member.Deps(k);
    if wd.name in deps && deps[wd.name].Inherited? && deps[wd.name].workspace
    then Some(RedundantFeatures(deps[wd.name].features, ReqFeatures(wd.dep)))
    else None
  }

  /** Applying the plan to `doc[table][name]` panics. */
  predicate PanicsAt(root: map<string, Value>, table: string, name: string, plan: Option<seq<string>>)
  {
    plan.Some? && (!Indexable(root, table) || (plan.value != [] && !HasFeaturesArray(root, table, name)))
  }

  /** Applying the plan to `doc[table][name]` reports a fix. */
  predicate FindingAt(root: map<string, Value>, table: string, name: string, plan: Option<seq<string>>)
  {
    plan.Some? && (plan.value != [] || DefaultFeaturesSet(root, table, name))
  }

  /** An inherited entry's keys after both rules. */
  function FixedEntry(fields: map<string, Value>, redundant: seq<string>): map<string, Value>
    requires redundant != [] ==> "features" in fields && fields["features"].Array?
  {
    WithoutDefaultFeatures(if redundant == [] then fields else WithoutRedundantFeatures(fields, redundant))
  }

  /**
    The document after both rules ran on `doc[table][name]`. A run that panics has
    no later state; the function then leaves the document as it was.
  */
  function FixedAt(root: map<string, Value>, table: string, name: string, plan: Option<seq<string>>): map<string, Value>
  {
    if plan.None? || PanicsAt(root, table, name, plan) || EntryFields(root, table, name).None? then root
    else SetEntryFields(root, table, name, FixedEntry(EntryFields(root, table, name).value, plan.value))
  }

  /** Running both rules on one entry touches no other entry and no other table. */
  lemma FixedAtFrame(root: map<string, Value>, table: string, name: string, plan: Option<seq<string>>)
    ensures var r := FixedAt(root, table, name, plan);
      && r.Keys == root.Keys
      && (forall t :: t in root && t != table ==> r[t] == root[t])
      && (forall t :: Indexable(r, t) == Indexable(root, t))
      && (forall t, n :: Entry(r, t, n).Some? == Entry(root, t, n).Some?)
      && (forall t, n :: t != table || n != name ==> Entry(r, t, n) == Entry(root, t, n))
  {
    if !(plan.None? || PanicsAt(root, table, name, plan) || EntryFields(root, table, name).None?) {
      SetEntryFieldsFrame(root, table, name, FixedEntry(EntryFields(root, table, name).value, plan.value));
    }
  }

  /** What the rules see of an entry depends on that entry and on its table alone. */
  lemma SameEntrySameVerdict(r1: map<string, Value>, r2: map<string, Value>, table: string, name: string, plan: Option<seq<string>>)
    requires Entry(r1, table, name) == Entry(r2, table, name)
    requires Indexable(r1, table) == Indexable(r2, table)
    ensures EntryFields(r1, table, name) == EntryFields(r2, table, name)
    ensures PanicsAt(r1, table, name, plan) == PanicsAt(r2, table, name, plan)
    ensures FindingAt(r1, table, name, plan) == FindingAt(r2, table, name, plan)
  {
  }

  /**
    Both rules for one member table: the features rule, then the default-features
    rule, each run whenever the member inherits `wd` there.
  */
  method LintTable(doc: Document, k: Kind, member: Manifest, wd: WorkspaceDep) returns (outcome: Outcome)
    modifies doc
    ensures outcome.Panicked? <==> PanicsAt(old(doc.root), TableName(k), wd.name, Plan(member, k, wd))
    ensures outcome.Done? ==> outcome.fixes == FindingAt(old(doc.root), TableName(k), wd.name, Plan(member, k, wd))
    ensures outcome.Done? ==> doc.root == FixedAt(old(doc.root), TableName(k), wd.name, Plan(member, k, wd))
  {
    var deps := member.Deps(k);
    if !(wd.name in deps && deps[wd.name].Inherited? && deps[wd.name].workspace) {
      return Done(false);
    }
    var table := TableName(k);
    ghost var root0 := doc.root;
    ghost var redundant := RedundantFeatures(deps[wd.name].features, ReqFeatures(wd.dep));
    var featuresFixed := RemoveRedundantFeatures(doc, table, wd.name, wd.dep, deps[wd.name].features);
    if featuresFixed.Panicked? {
      return Panicked;
    }
    ghost var root1 := doc.root;
    ghost var entry0 := EntryFields(root0, table, wd.name);
    if entry0.Some? && redundant != [] {
      SetEntryFieldsFrame(root0, table, wd.name, WithoutRedundantFeatures(entry0.value, redundant));
    }
    var flagFixed := RemoveDefaultFeatures(doc, table, wd.name);
    if flagFixed.Panicked? {
      return Panicked;
    }
    outcome := Done(featuresFixed.fixes || flagFixed.fixes);
    if entry0.Some? {
      var f1 := if redundant == [] then entry0.value else WithoutRedundantFeatures(entry0.value, redundant);
      assert EntryFields(root1, table, wd.name) == Some(f1);
      if flagFixed.fixes {
        if redundant != [] {
          SetEntryFieldsTwice(root0, table, wd.name, f1, WithoutDefaultFeatures(f1));
        }
      } else {
        assert WithoutDefaultFeatures(f1) == f1;
        if redundant == [] {
          SetEntryFieldsSame(root0, table, wd.name);
        }
      }
    }
  }

  /** The document after the loop has handled the first `i` workspace dependencies. */
  function LintedUpTo(deps: WorkspaceDeps, member: Manifest, doc0: map<string, Value>, i: nat): map<string, Value>
    requires i <= |deps|
  {
    if i == 0 then doc0
    else
      var before := LintedUpTo(deps, member, doc0, i - 1);
      var wd := deps[i - 1];
      var normal := FixedAt(before, TableName(Normal), wd.name, Plan(member, Normal, wd));
      FixedAt(normal, TableName(Dev), wd.name, Plan(member, Dev, wd))
  }

  /** Handling `wd` panics in one of the two tables. */
  predicate PanicsFor(doc0: map<string, Value>, member: Manifest, wd: WorkspaceDep)
  {
    PanicsAt(doc0, TableName(Normal), wd.name, Plan(member, Normal, wd))
    || PanicsAt(doc0, TableName(Dev), wd.name, Plan(member, Dev, wd))
  }

  /** Handling `wd` reports a fix in one of the two tables. */
  predicate FindingFor(doc0: map<string, Value>, member: Manifest, wd: WorkspaceDep)
  {
    FindingAt(doc0, TableName(Normal), wd.name, Plan(member, Normal, wd))
    || FindingAt(doc0, TableName(Dev), wd.name, Plan(member, Dev, wd))
  }

  /** Some of the first `i` workspace dependencies has a finding, step by step. */
  predicate FindingBefore(doc0: map<string, Value>, member: Manifest, deps: WorkspaceDeps, i: nat)
    requires i <= |deps|
  {
    i > 0 && (FindingBefore(doc0, member, deps, i - 1) || FindingFor(doc0, member, deps[i - 1]))
  }

  lemma {:induction false} FindingBeforeExists(doc0: map<string, Value>, member: Manifest, deps: WorkspaceDeps, i: nat)
    requires i <= |deps|
    ensures FindingBefore(doc0, member, deps, i) <==> exists j :: 0 <= j < i && FindingFor(doc0, member, deps[j])
  {
    if i > 0 {
      FindingBeforeExists(doc0, member, deps, i - 1);
    }
  }

  /**
    `lint_manifest`: the result is the OR of every rule's report, each judged on the
    document as it was before the pass; the run panics iff some rule would; and
    the new document is the fold of both rules over the workspace dependencies.
  */
  method LintManifest(root: Manifest, member: Manifest, doc: Document) returns (outcome: Outcome)
    modifies doc
    ensures var deps := root.WorkspaceDependencies();
      outcome.Panicked? <==> exists j :: 0 <= j < |deps| && PanicsFor(old(doc.root), member, deps[j])
    ensures var deps := root.WorkspaceDependencies();
      outcome.Done? ==> outcome.fixes == exists j :: 0 <= j < |deps| && FindingFor(old(doc.root), member, deps[j])
    ensures outcome.Done? ==> outcome.fixes == FindingBefore(old(doc.root), member, root.WorkspaceDependencies(), |root.WorkspaceDependencies()|)
    ensures outcome.Done? ==> doc.root == LintedUpTo(root.WorkspaceDependencies(), member, old(doc.root), |root.WorkspaceDependencies()|)
  {
    var deps := root.WorkspaceDependencies();
    ghost var doc0 := doc.root;
    var hasFixes := false;
    var i := 0;
    while i < |deps|
      invariant 0 <= i <= |deps|
      invariant doc.root == LintedUpTo(deps, member, doc0, i)
      invariant forall j :: 0 <= j < i ==> !PanicsFor(doc0, member, deps[j])
      invariant hasFixes == FindingBefore(doc0, member, deps, i)
    {
      var wd := deps[i];
      StepVerdicts(deps, member, doc0, i);
      var normal := LintTable(doc, Normal, member, wd);
      if normal.Panicked? {
        assert PanicsFor(doc0, member, deps[i]);
        return Panicked;
      }
      var dev := LintTable(doc, Dev, member, wd);
      if dev.Panicked? {
        assert PanicsFor(doc0, member, deps[i]);
        return Panicked;
      }
      hasFixes := hasFixes || normal.fixes || dev.fixes;
      i := i + 1;
    }
    FindingBeforeExists(doc0, member, deps, i);
    outcome := Done(hasFixes);
  }

  /**
    The rules for the `i`-th workspace dependency judge its entries as they were in
    the original document: earlier steps touched only other names, and the step on
    `dependencies` leaves `dev-dependencies` alone.
  */
  lemma StepVerdicts(deps: WorkspaceDeps, member: Manifest, doc0: map<string, Value>, i: nat)
    requires i < |deps|
    ensures var before, wd := LintedUpTo(deps, member, doc0, i), deps[i];
      var normal := FixedAt(before, TableName(Normal), wd.name, Plan(member, Normal, wd));
      && PanicsAt(before, TableName(Normal), wd.name, Plan(member, Normal, wd)) == PanicsAt(doc0, TableName(Normal), wd.name, Plan(member, Normal, wd))
      && FindingAt(before, TableName(Normal), wd.name, Plan(member, Normal, wd)) == FindingAt(doc0, TableName(Normal), wd.name, Plan(member, Normal, wd))
      && PanicsAt(normal, TableName(Dev), wd.name, Plan(member, Dev, wd)) == PanicsAt(doc0, TableName(Dev), wd.name, Plan(member, Dev, wd))
      && FindingAt(normal, TableName(Dev), wd.name, Plan(member, Dev, wd)) == FindingAt(doc0, TableName(Dev), wd.name, Plan(member, Dev, wd))
  {
    var before, wd := LintedUpTo(deps, member, doc0, i), deps[i];
    LintedUpToFrame(deps, member, doc0, i);
    assert forall j :: 0 <= j < i ==> deps[j].name != wd.name;
    SameEntrySameVerdict(before, doc0, TableName(Normal), wd.name, Plan(member, Normal, wd));
    SameEntrySameVerdict(before, doc0, TableName(Dev), wd.name, Plan(member, Dev, wd));
    FixedAtFrame(before, TableName(Normal), wd.name, Plan(member, Normal, wd));
    var normal := FixedAt(before, TableName(Normal), wd.name, Plan(member, Normal, wd));
    SameEntrySameVerdict(normal, before, TableName(Dev), wd.name, Plan(member, Dev, wd));
  }

  /**
    What the loop leaves alone: the set of top-level keys, every table other than
    `dependencies` and `dev-dependencies` (so `build-dependencies` too), which
    tables can be indexed, and every entry whose name is not yet handled.
  */
  lemma {:induction false} LintedUpToFrame(deps: WorkspaceDeps, member: Manifest, doc0: map<string, Value>, i: nat)
    requires i <= |deps|
    ensures var r := LintedUpTo(deps, member, doc0, i);
      && r.Keys == doc0.Keys
      && (forall t :: t in doc0 && t != TableName(Normal) && t != TableName(Dev) ==> r[t] == doc0[t])
      && (forall t :: Indexable(r, t) == Indexable(doc0, t))
      && (forall t, n :: Entry(r, t, n).Some? == Entry(doc0, t, n).Some?)
      && (forall t, n :: (forall j :: 0 <= j < i ==> deps[j].name != n) ==> Entry(r, t, n) == Entry(doc0, t, n))
  {
    if i > 0 {
      LintedUpToFrame(deps, member, doc0, i - 1);
      var before := LintedUpTo(deps, member, doc0, i - 1);
      var wd := deps[i - 1];
      FixedAtFrame(before, TableName(Normal), wd.name, Plan(member, Normal, wd));
      FixedAtFrame(FixedAt(before, TableName(Normal), wd.name, Plan(member, Normal, wd)), TableName(Dev), wd.name, Plan(member, Dev, wd));
    }
  }

  /**
    What the loop does to a handled entry: an inherited entry of `dependencies` or
    `dev-dependencies` that is table-like ends up with both fixes applied to its
    original keys; any other entry under that name is left as it was. (A run
    that does not panic meets the requires for every handled entry.)
  */
  lemma {:induction false} LintedUpToFixes(deps: WorkspaceDeps, member: Manifest, doc0: map<string, Value>, i: nat, j: nat, k: Kind)
    requires j < i <= |deps| && k != Build
    requires !PanicsAt(doc0, TableName(k), deps[j].name, Plan(member, k, deps[j]))
    ensures var t, n, plan := TableName(k), deps[j].name, Plan(member, k, deps[j]);
      Entry(LintedUpTo(deps, member, doc0, i), t, n) ==
        if plan.Some? && EntryFields(doc0, t, n).Some?
        then Some(Table(FixedEntry(EntryFields(doc0, t, n).value, plan.value)))
        else Entry(doc0, t, n)
  {
    var before := LintedUpTo(deps, member, doc0, i - 1);
    var wd := deps[i - 1];
    var normal := FixedAt(before, TableName(Normal), wd.name, Plan(member, Normal, wd));
    FixedAtFrame(before, TableName(Normal), wd.name, Plan(member, Normal, wd));
    FixedAtFrame(normal, TableName(Dev), wd.name, Plan(member, Dev, wd));
    if j < i - 1 {
      LintedUpToFixes(deps, member, doc0, i - 1, j, k);
      assert deps[j].name != wd.name;
    } else {
      LintedUpToFrame(deps, member, doc0, i - 1);
      assert forall m :: 0 <= m < i - 1 ==> deps[m].name != wd.name;
      SameEntrySameVerdict(before, doc0, TableName(k), wd.name, Plan(member, k, wd));
      if k == Dev {
        SameEntrySameVerdict(normal, before, TableName(Dev), wd.name, Plan(member, Dev, wd));
      }
    }
  }
}
