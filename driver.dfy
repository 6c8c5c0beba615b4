/**
  What `main` decides once I/O is taken away: which members are linted, the
  member documents a `--fix` run rewrites, which workspace dependencies are
  unused, the edit to the root document, and the exit status. Reading and
  writing files, printing the warnings and the diff, and serialising the
  documents are not modelled: each member arrives with its parsed manifest and
  document, and the root with its own.
*/
module Driver {
  import opened Util
  import opened Toml
  import opened Cargo
  import opened Unused
  import opened Lint
  import opened Text

  /** A workspace member: its package id, its parsed manifest and its parsed document. */
  datatype Member = Member(id: string, manifest: Manifest, doc: map<string, Value>)

  /** A member document that `--fix` writes back, with the id of its package. */
  datatype Rewrite = Rewrite(id: string, doc: map<string, Value>)

  /**
    How a run ends: with an exit status, the unused dependencies it reported and
    the documents `--fix` rewrites; or by a panic, after the member documents
    rewritten before it.
  */
  datatype RunResult =
    | Exit(code: int, unused: seq<string>, rewrites: seq<Rewrite>, rootRewrite: Option<map<string, Value>>)
    | Aborted(rewrites: seq<Rewrite>)

  /** The manifests of the members whose package id yields a manifest path, in order. */
  function LintedManifests(members: seq<Member>): (r: seq<Manifest>)
    ensures forall m :: m in r <==> exists j :: 0 <= j < |members| && HasManifestPath(members[j].id) && members[j].manifest == m
  {
    if members == [] then []
    else
      var init, last := members[..|members| - 1], members[|members| - 1];
      var rest := LintedManifests(init);
      assert forall j :: 0 <= j < |init| ==> init[j] == members[j];
      if HasManifestPath(last.id) then rest + [last.manifest] else rest
  }

  /** Member `m` had something to fix in its parsed document. */
  ghost predicate MemberHasFindings(root: Manifest, m: Member)
  {
    FindingBefore(m.doc, m.manifest, root.WorkspaceDependencies(), |root.WorkspaceDependencies()|)
  }

  /** Member `m`'s document after `lint_manifest` has run over every workspace dependency. */
  ghost function Linted(root: Manifest, m: Member): map<string, Value>
  {
    LintedUpTo(root.WorkspaceDependencies(), m.manifest, m.doc, |root.WorkspaceDependencies()|)
  }

  /** `lint_manifest` panics on member `m`'s document: the rule for some workspace dependency would. */
  ghost predicate MemberPanics(root: Manifest, m: Member)
  {
    exists j :: 0 <= j < |root.WorkspaceDependencies()| && PanicsFor(m.doc, m.manifest, root.WorkspaceDependencies()[j])
  }

  /** Member `m` is linted and its lint panics, which ends the run. */
  ghost predicate Aborts(root: Manifest, m: Member)
  {
    HasManifestPath(m.id) && MemberPanics(root, m)
  }

  /** Member `m` is linted and has something to fix. */
  ghost predicate Flagged(root: Manifest, m: Member)
  {
    HasManifestPath(m.id) && MemberHasFindings(root, m)
  }

  /** Some member is flagged. */
  ghost predicate AnyFlagged(root: Manifest, members: seq<Member>)
  {
    members != [] && (AnyFlagged(root, members[..|members| - 1]) || Flagged(root, members[|members| - 1]))
  }

  /** `AnyFlagged` holds iff some member is flagged. */
  lemma {:induction false} AnyFlaggedExists(root: Manifest, members: seq<Member>)
    ensures AnyFlagged(root, members) <==> exists i :: 0 <= i < |members| && Flagged(root, members[i])
  {
    if members != [] {
      var init := members[..|members| - 1];
      AnyFlaggedExists(root, init);
      if i :| 0 <= i < |init| && Flagged(root, init[i]) {
        assert members[i] == init[i];
      }
      if i :| 0 <= i < |members| - 1 && Flagged(root, members[i]) {
        assert init[i] == members[i];
      }
    }
  }

  /** The rewrites of a `--fix` run: every flagged member's linted document, in member order. */
  ghost function Rewrites(root: Manifest, members: seq<Member>): seq<Rewrite>
  {
    if members == [] then []
    else
      var last := members[|members| - 1];
      Rewrites(root, members[..|members| - 1]) + if Flagged(root, last) then [Rewrite(last.id, Linted(root, last))] else []
  }

  /**
    One turn of the member loop: a member without a manifest path is skipped;
    otherwise its document is parsed into an editable document and linted.
  */
  method LintMember(root: Manifest, m: Member) returns (skipped: bool, panicked: bool, hasFixes: bool, fixed: map<string, Value>)
    ensures skipped <==> !HasManifestPath(m.id)
    ensures skipped ==> !panicked && !hasFixes
    ensures panicked <==> !skipped && MemberPanics(root, m)
    ensures !skipped && !panicked ==> fixed == Linted(root, m) && hasFixes == MemberHasFindings(root, m)
  {
    if ManifestPath(m.id).None? {
      return true, false, false, m.doc;
    }
    var doc := new Document(m.doc);
    var outcome := LintManifest(root, m.manifest, doc);
    if outcome.Panicked? {
      return false, true, false, doc.root;
    }
    return false, false, outcome.fixes, doc.root;
  }

  /**
    The member loop: each member whose package id yields a manifest path is
    linted, in order, and under `--fix` its document is rewritten when something
    was fixed; the first panic ends the run.
  */
  method LintMembers(fix: bool, root: Manifest, members: seq<Member>)
    returns (panicked: bool, somethingToFix: bool, linted: seq<Manifest>, rewrites: seq<Rewrite>)
    ensures !panicked ==> linted == LintedManifests(members)
    ensures !panicked ==> somethingToFix == AnyFlagged(root, members)
    ensures !panicked ==> rewrites == if fix then Rewrites(root, members) else []
    ensures !panicked ==> forall i :: 0 <= i < |members| ==> !Aborts(root, members[i])
    ensures panicked ==> exists i :: (
      && 0 <= i < |members| && Aborts(root, members[i])
      && (forall k :: 0 <= k < i ==> !Aborts(root, members[k]))
      && rewrites == if fix then Rewrites(root, members[..i]) else [])
  {
    somethingToFix := false;
    linted := [];
    rewrites := [];
    var i := 0;
    while i < |members|
      invariant 0 <= i <= |members|
      invariant linted == LintedManifests(members[..i])
      invariant somethingToFix == AnyFlagged(root, members[..i])
      invariant rewrites == if fix then Rewrites(root, members[..i]) else []
      invariant forall k :: 0 <= k < i ==> !Aborts(root, members[k])
    {
      var m := members[i];
      var skipped, memberPanicked, hasFixes, fixed := LintMember(root, m);
      if memberPanicked {
        assert Aborts(root, members[i]);
        return true, somethingToFix, linted, rewrites;
      }
      assert members[..i + 1][..i] == members[..i];
      if !skipped {
        linted := linted + [m.manifest];
      }
      if fix && hasFixes {
        rewrites := rewrites + [Rewrite(m.id, fixed)];
      }
      somethingToFix := somethingToFix || hasFixes;
      i := i + 1;
    }
    assert members[..i] == members;
    panicked := false;
  }

  const WorkspaceKey: string := "workspace"
  const DependenciesKey: string := "dependencies"

  /** The names listed in `s`, as a set. */
  function NameSet(s: seq<string>): (r: set<string>)
    ensures forall n :: n in r <==> n in s
  {
    set n | n in s
  }

  /**
    The `--fix` edit of the root document: every unused name is removed from
    `[workspace.dependencies]`, one `remove` at a time. It panics (the `unwrap`)
    when that table is not there.
  */
  method RemoveUnusedFromRoot(rootDoc: Document, unused: seq<string>) returns (panicked: bool)
    modifies rootDoc
    ensures panicked <==> EntryFields(old(rootDoc.root), WorkspaceKey, DependenciesKey).None?
    ensures !panicked ==> rootDoc.root == SetEntryFields(old(rootDoc.root), WorkspaceKey, DependenciesKey,
      EntryFields(old(rootDoc.root), WorkspaceKey, DependenciesKey).value - NameSet(unused))
    ensures panicked ==> rootDoc.root == old(rootDoc.root)
  {
    var entry := EntryFields(rootDoc.root, WorkspaceKey, DependenciesKey);
    if entry.None? {
      return true;
    }
    ghost var root0 := rootDoc.root;
    SetEntryFieldsSame(root0, WorkspaceKey, DependenciesKey);
    assert entry.value - NameSet(unused[..0]) == entry.value;
    var k := 0;
    while k < |unused|
      invariant 0 <= k <= |unused|
      invariant rootDoc.root == SetEntryFields(root0, WorkspaceKey, DependenciesKey, entry.value - NameSet(unused[..k]))
    {
      var deps := EntryFields(rootDoc.root, WorkspaceKey, DependenciesKey).value;
      SetEntryFieldsTwice(root0, WorkspaceKey, DependenciesKey,
        entry.value - NameSet(unused[..k]), deps - {unused[k]});
      assert NameSet(unused[..k + 1]) == NameSet(unused[..k]) + {unused[k]} by {
        assert unused[..k + 1] == unused[..k] + [unused[k]];
      }
      assert deps - {unused[k]} == entry.value - NameSet(unused[..k + 1]);
      rootDoc.root := SetEntryFields(rootDoc.root, WorkspaceKey, DependenciesKey, deps - {unused[k]});
      k := k + 1;
    }
    assert unused[..k] == unused;
    panicked := false;
  }

  /**
    The run: the members are linted; the unused workspace dependencies are
    computed over the linted members and, under `--fix`, removed from the root
    document; the exit status is 1 iff `--fix` was not given and something was found.
  */
  method CheckWorkspace(fix: bool, root: Manifest, rootToml: map<string, Value>, members: seq<Member>) returns (result: RunResult)
    ensures result.Exit? ==> result.unused == UnusedWorkspaceDeps(root, LintedManifests(members))
    ensures result.Exit? ==> result.rewrites == if fix then Rewrites(root, members) else []
    ensures result.Exit? ==> (result.code == 1 <==> !fix && (result.unused != [] || AnyFlagged(root, members)))
    ensures result.Exit? ==> result.code == 0 || result.code == 1
    ensures result.Exit? && fix && result.unused != [] ==>
      && EntryFields(rootToml, WorkspaceKey, DependenciesKey).Some?
      && result.rootRewrite == Some(SetEntryFields(rootToml, WorkspaceKey, DependenciesKey,
           EntryFields(rootToml, WorkspaceKey, DependenciesKey).value - NameSet(result.unused)))
    ensures result.Exit? && !(fix && result.unused != []) ==> result.rootRewrite == None
    ensures result.Aborted? <==>
      || (exists i :: 0 <= i < |members| && Aborts(root, members[i]))
      || (fix && UnusedWorkspaceDeps(root, LintedManifests(members)) != []
          && EntryFields(rootToml, WorkspaceKey, DependenciesKey).None?)
    ensures result.Aborted? ==> exists i :: (
      && 0 <= i <= |members|
      && (forall k :: 0 <= k < i ==> !Aborts(root, members[k]))
      && (i < |members| ==> Aborts(root, members[i]))
      && result.rewrites == if fix then Rewrites(root, members[..i]) else [])
  {
    var panicked, somethingToFix, linted, rewrites := LintMembers(fix, root, members);
    if panicked {
      return Aborted(rewrites);
    }
    var unused := UnusedWorkspaceDeps(root, linted);
    var rootRewrite := None;
    if unused != [] {
      somethingToFix := true;
      if fix {
        var rootDoc := new Document(rootToml);
        panicked := RemoveUnusedFromRoot(rootDoc, unused);
        if panicked {
          assert members[..|members|] == members;
          return Aborted(rewrites);
        }
        rootRewrite := Some(rootDoc.root);
      }
    }
    result := Exit(if !fix && somethingToFix then 1 else 0, unused, rewrites, rootRewrite);
  }
}
