/**
  The two string helpers of the linter: the text patch applied to a fixed member
  manifest before it is written back, and `PackageIdExt::manifest_path`, which
  finds a workspace member's manifest from its package id. Strings are sequences
  of characters; Rust's byte offsets into UTF-8 text are character positions here.
*/
module Text {
  import opened Util

  /** `pat` occurs in `s` starting at position `i`. */
  predicate OccursAt(s: string, pat: string, i: nat)
  {
    i + |pat| <= |s| && s[i..i + |pat|] == pat
  }

  ghost predicate Contains(s: string, pat: string)
  {
    exists i: nat :: OccursAt(s, pat, i)
  }

  /** `i` is where `pat` first occurs in `s`. */
  ghost predicate FirstOccurrence(s: string, pat: string, i: nat)
  {
    OccursAt(s, pat, i) && forall j: nat :: j < i ==> !OccursAt(s, pat, j)
  }

  /** The first occurrence of `pat` in `s` at or after `from` (`str::find`). */
  function FindFrom(s: string, pat: string, from: nat): (r: Option<nat>)
    requires from <= |s|
    ensures r.Some? ==> from <= r.value && OccursAt(s, pat, r.value)
    decreases |s| - from
  {
    if OccursAt(s, pat, from) then Some(from)
    else if from == |s| then None
    else FindFrom(s, pat, from + 1)
  }

  /** The search finds the first occurrence at or after `from`, or reports that there is none. */
  lemma {:induction false} FindFromSpec(s: string, pat: string, from: nat)
    requires from <= |s|
    ensures var r := FindFrom(s, pat, from);
      && (r.Some? ==> OccursAt(s, pat, r.value) && forall j: nat :: from <= j < r.value ==> !OccursAt(s, pat, j))
      && (r.None? ==> forall j: nat :: from <= j ==> !OccursAt(s, pat, j))
    decreases |s| - from
  {
    if !OccursAt(s, pat, from) && from < |s| {
      FindFromSpec(s, pat, from + 1);
    }
  }

  /** `str::find`: the first occurrence of `pat` in `s`. */
  function Find(s: string, pat: string): (r: Option<nat>)
    ensures r.Some? ==> OccursAt(s, pat, r.value)
  {
    FindFrom(s, pat, 0)
  }

  /** `str::find`: none iff the pattern does not occur; otherwise its first occurrence. */
  lemma FindSpec(s: string, pat: string)
    ensures Find(s, pat).None? <==> !Contains(s, pat)
    ensures Find(s, pat).Some? ==> FirstOccurrence(s, pat, Find(s, pat).value)
  {
    FindFromSpec(s, pat, 0);
  }

  // ---------------------------------------------------------------- manifest_path

  const Marker: string := "path+file://"
  const ManifestFile: string := "Cargo.toml"

  /**
    `Utf8PathBuf::join` with a relative file name: a separator is inserted unless
    the directory is empty or already ends with one.
  */
  function JoinPath(dir: string, name: string): (r: string)
    ensures |r| == if dir == [] || dir[|dir| - 1] == '/' then |dir| + |name| else |dir| + 1 + |name|
    ensures r[..|dir|] == dir && r[|r| - |name|..] == name
    ensures dir != [] ==> r[|r| - |name| - 1] == '/'
  {
    if dir == [] || dir[|dir| - 1] == '/' then dir + name else dir + "/" + name
  }

  /** `rest` cut at its first `#`, or the whole of `rest` when it has none. */
  ghost predicate UpToHash(rest: string, dir: string)
  {
    |dir| <= |rest| && rest[..|dir|] == dir && '#' !in dir && (|dir| == |rest| || rest[|dir|] == '#')
  }

  /** `dir` is the package directory written in the package id `repr`. */
  ghost predicate DirectoryOf(repr: string, dir: string)
  {
    exists i: nat :: FirstOccurrence(repr, Marker, i) && UpToHash(repr[i + |Marker|..], dir)
  }

  /** The package id `repr` contains `path+file://`, so that it yields a manifest path. */
  predicate HasManifestPath(repr: string)
  {
    Find(repr, Marker).Some?
  }

  /**
    The manifest path of a workspace member: none when the package id has no
    `path+file://`; otherwise the text after its first occurrence, up to the
    first `#`, joined with `Cargo.toml`.
  */
  function ManifestPath(repr: string): (r: Option<string>)
    ensures r.Some? <==> HasManifestPath(repr)
    ensures r.Some? ==> |ManifestFile| <= |r.value| && r.value[|r.value| - |ManifestFile|..] == ManifestFile
  {
    match Find(repr, Marker)
    case None => None
    case Some(fidx) =>
      var path := repr[fidx + |Marker|..];
      var dir := match Find(path, "#") case Some(idx) => path[..idx] case None => path;
      Some(JoinPath(dir, ManifestFile))
  }

  /**
    What `manifest_path` promises: no path iff the id has no `path+file://`;
    otherwise the package directory the id names, joined with `Cargo.toml`.
  */
  lemma ManifestPathSpec(repr: string)
    ensures ManifestPath(repr).None? <==> !Contains(repr, Marker)
    ensures ManifestPath(repr).Some? ==> exists dir :: DirectoryOf(repr, dir) && ManifestPath(repr).value == JoinPath(dir, ManifestFile)
  {
    FindSpec(repr, Marker);
    if Find(repr, Marker).Some? {
      var fidx := Find(repr, Marker).value;
      var path := repr[fidx + |Marker|..];
      var dir := match Find(path, "#") case Some(idx) => path[..idx] case None => path;
      assert UpToHash(path, dir) by {
        FindSpec(path, "#");
        if Find(path, "#").Some? {
          var idx := Find(path, "#").value;
          forall c | 0 <= c < idx ensures path[c] != '#' {
            assert !OccursAt(path, "#", c);
          }
          assert OccursAt(path, "#", idx);
        } else {
          forall c | 0 <= c < |path| ensures path[c] != '#' {
            assert !OccursAt(path, "#", c);
          }
        }
      }
      assert DirectoryOf(repr, dir);
    }
  }

  /** The package directory is determined by the package id: at most one `dir` fits. */
  lemma DirectoryOfUnique(repr: string, d1: string, d2: string)
    requires DirectoryOf(repr, d1) && DirectoryOf(repr, d2)
    ensures d1 == d2
  {
    var i1: nat :| FirstOccurrence(repr, Marker, i1) && UpToHash(repr[i1 + |Marker|..], d1);
    var i2: nat :| FirstOccurrence(repr, Marker, i2) && UpToHash(repr[i2 + |Marker|..], d2);
    assert i1 == i2;
    var rest := repr[i1 + |Marker|..];
    assert forall k :: 0 <= k < |d1| ==> rest[k] == d1[k] != '#';
    assert forall k :: 0 <= k < |d2| ==> rest[k] == d2[k] != '#';
    assert |d1| < |rest| ==> rest[|d1|] == '#';
    assert |d2| < |rest| ==> rest[|d2|] == '#';
    assert |d1| == |d2|;
  }

  /**
    The directory written in the package id `path+file:///ws/app#0.1.0` is `/ws/app`.
    The id is a parameter pinned by `requires` so that the solver does not unroll the literal.
  */
  lemma PathIdDirectory(repr: string)
    requires repr == "path+file:///ws/app#0.1.0"
    ensures Contains(repr, Marker) && DirectoryOf(repr, "/ws/app")
  {
    var rest := "/ws/app" + "#0.1.0";
    assert repr == Marker + rest;
    assert repr[..|Marker|] == Marker && repr[|Marker|..] == rest;
    assert FirstOccurrence(repr, Marker, 0);
    assert UpToHash(repr[0 + |Marker|..], "/ws/app") by {
      assert rest[..7] == "/ws/app";
    }
  }

  /**
    A package id in the `path+file://<dir>#<version>` form names `<dir>/Cargo.toml`
    (the id is pinned by `requires`, as in `PathIdDirectory`).
  */
  lemma ManifestPathOfPathId(repr: string)
    requires repr == "path+file:///ws/app#0.1.0"
    ensures ManifestPath(repr) == Some("/ws/app/Cargo.toml")
  {
    PathIdDirectory(repr);
    ManifestPathOfDirectory(repr, "/ws/app");
    JoinAppDirectory("/ws/app");
  }

  /** `/ws/app` joined with `Cargo.toml` (the directory is pinned by `requires`, as above). */
  lemma JoinAppDirectory(dir: string)
    requires dir == "/ws/app"
    ensures JoinPath(dir, ManifestFile) == "/ws/app/Cargo.toml"
  {
    assert dir[|dir| - 1] == 'p';
    assert dir + "/" + ManifestFile == "/ws/app/Cargo.toml";
  }

  /** The manifest path of an id that names directory `dir` is `dir` joined with `Cargo.toml`. */
  lemma ManifestPathOfDirectory(repr: string, dir: string)
    requires Contains(repr, Marker) && DirectoryOf(repr, dir)
    ensures ManifestPath(repr) == Some(JoinPath(dir, ManifestFile))
  {
    ManifestPathSpec(repr);
    var r := ManifestPath(repr);
    var d :| DirectoryOf(repr, d) && r.value == JoinPath(d, ManifestFile);
    DirectoryOfUnique(repr, d, dir);
  }

  // ------------------------------------------------------------------- text patch

  /** `str::replace`: every non-overlapping occurrence of `from`, left to right, becomes `to`. */
  function Replace(s: string, from: string, to: string): (r: string)
    requires from != []
    ensures |from| <= |to| ==> |s| <= |r|
    ensures |to| <= |from| ==> |r| <= |s|
    decreases |s|
  {
    if |s| < |from| then s
    else if s[..|from|] == from then to + Replace(s[|from|..], from, to)
    else [s[0]] + Replace(s[1..], from, to)
  }

  const Collapsed: string := "workspace = true}"
  const Spaced: string := "workspace = true }"
  const InlineInherit: string := " = { workspace = true }"
  const DottedInherit: string := ".workspace = true"

  /**
    The patch applied to the serialised member document: put back the space the
    editor drops before a closing brace, then write a table that only inherits as
    a dotted key (`foo = { workspace = true }` becomes `foo.workspace = true`).
  */
  function PatchFixedText(serialized: string): (r: string)
    ensures !Contains(serialized, Collapsed) && !Contains(serialized, InlineInherit) ==> r == serialized
  {
    ReplaceAbsent(serialized, Collapsed, Spaced);
    ReplaceAbsent(serialized, InlineInherit, DottedInherit);
    Replace(Replace(serialized, Collapsed, Spaced), InlineInherit, DottedInherit)
  }

  /** Text without an occurrence of `from` is left unchanged. */
  lemma {:induction false} ReplaceAbsent(s: string, from: string, to: string)
    requires from != []
    ensures !Contains(s, from) ==> Replace(s, from, to) == s
  {
    if |s| >= |from| && !Contains(s, from) {
      assert !OccursAt(s, from, 0);
      assert !Contains(s[1..], from) by {
        forall i: nat ensures !OccursAt(s[1..], from, i) {
          OccursShift(s, from, i);
        }
      }
      ReplaceAbsent(s[1..], from, to);
      assert s == [s[0]] + s[1..];
    }
  }

  /** The first occurrence, after a prefix that holds none, is the first one replaced. */
  lemma {:induction false} ReplaceFirst(p: string, from: string, q: string, to: string)
    requires from != []
    requires forall j: nat :: j < |p| ==> !OccursAt(p + from + q, from, j)
    ensures Replace(p + from + q, from, to) == p + to + Replace(q, from, to)
  {
    var s := p + from + q;
    if p == [] {
      assert s[..|from|] == from;
      assert s[|from|..] == q;
    } else {
      assert Replace(s, from, to) == [s[0]] + Replace(s[1..], from, to) by {
        assert !OccursAt(s, from, 0);
      }
      assert s[1..] == p[1..] + from + q;
      assert forall j: nat :: j < |p[1..]| ==> !OccursAt(p[1..] + from + q, from, j) by {
        forall j: nat | j < |p[1..]|
          ensures !OccursAt(p[1..] + from + q, from, j)
        {
          OccursShift(s, from, j);
        }
      }
      ReplaceFirst(p[1..], from, q, to);
      assert p == [p[0]] + p[1..];
    }
  }

  lemma OccursShift(s: string, pat: string, j: nat)
    requires |s| > 0
    ensures OccursAt(s[1..], pat, j) == OccursAt(s, pat, j + 1)
  {
    if j + 1 + |pat| <= |s| {
      assert s[1..][j..j + |pat|] == s[j + 1..j + 1 + |pat|];
    }
  }

  /** One mismatching character rules an occurrence out. */
  lemma NotAt(s: string, pat: string, j: nat, m: nat)
    requires m < |pat| && (j + m < |s| ==> s[j + m] != pat[m])
    ensures !OccursAt(s, pat, j)
  {
    if j + |pat| <= |s| {
      assert s[j..j + |pat|][m] == s[j + m];
    }
  }

  /** A key without spaces cannot hold, or start, an occurrence of the collapsed pattern. */
  lemma NoCollapsedInKey(key: string, tail: string, j: nat)
    requires ' ' !in key && j < |key| && |tail| > 3 && tail[0] == ' ' && tail[3] == '{'
    ensures !OccursAt(key + tail, Collapsed, j)
  {
    var s := key + tail;
    if j + 9 < |key| {
      assert s[j + 9] == key[j + 9];
      NotAt(s, Collapsed, j, 9);
    } else if j + 9 == |key| {
      assert s[j + 12] == tail[3];
      NotAt(s, Collapsed, j, 12);
    } else {
      assert s[|key|] == tail[0];
      NotAt(s, Collapsed, j, |key| - j);
    }
  }

  /** The second replacement turns `<key> = { workspace = true }` into `<key>.workspace = true`. */
  lemma InlineInheritToDotted(key: string)
    requires ' ' !in key
    ensures Replace(key + InlineInherit, InlineInherit, DottedInherit) == key + DottedInherit
  {
    var s := key + InlineInherit + "";
    assert s == key + InlineInherit;
    forall j: nat | j < |key|
      ensures !OccursAt(s, InlineInherit, j)
    {
      assert s[j] == key[j];
      NotAt(s, InlineInherit, j, 0);
    }
    ReplaceFirst(key, InlineInherit, "", DottedInherit);
    assert key + DottedInherit + Replace("", InlineInherit, DottedInherit) == key + DottedInherit;
  }

  /** No occurrence of the collapsed pattern starts before the `workspace` of `<key> = { workspace = true}`. */
  lemma NoCollapsedBefore(key: string, j: nat)
    requires ' ' !in key && j < |key| + 5
    ensures !OccursAt(key + " = { workspace = true}", Collapsed, j)
  {
    var tail := " = { workspace = true}";
    if j < |key| {
      NoCollapsedInKey(key, tail, j);
    } else {
      assert (key + tail)[j] == tail[j - |key|];
      NotAt(key + tail, Collapsed, j, 0);
    }
  }

  /** The first replacement puts back the space in `<key> = { workspace = true}`. */
  lemma CollapsedToSpaced(key: string)
    requires ' ' !in key
    ensures Replace(key + " = { workspace = true}", Collapsed, Spaced) == key + InlineInherit
  {
    var lead, tail := " = { ", " = { workspace = true}";
    SplitLiterals(lead, tail);
    CollapsedAfterLead(key, lead, tail);
    assert key + lead + Spaced == key + (lead + Spaced);
  }

  /**
    How the inline-table literals split around the two patterns; `lead` and `tail`
    are pinned by `requires` so that the solver does not unroll the literals.
  */
  lemma SplitLiterals(lead: string, tail: string)
    requires lead == " = { " && tail == " = { workspace = true}"
    ensures tail == lead + Collapsed && lead + Spaced == InlineInherit
  {
    assert tail == lead + Collapsed;
  }

  /** The first replacement rewrites the collapsed pattern after `<key> = { ` (`lead`, `tail` pinned as in `SplitLiterals`). */
  lemma CollapsedAfterLead(key: string, lead: string, tail: string)
    requires ' ' !in key && lead == " = { " && tail == " = { workspace = true}" && tail == lead + Collapsed
    ensures Replace(key + tail, Collapsed, Spaced) == key + lead + Spaced
  {
    var p := key + lead;
    forall j: nat | j < |p|
      ensures !OccursAt(key + tail, Collapsed, j)
    {
      NoCollapsedBefore(key, j);
    }
    assert key + tail == p + Collapsed;
    ReplaceOnce(key + tail, p, Collapsed, Spaced);
  }

  /** `s` holds `from` once, at its end: `replace` rewrites that occurrence alone. */
  lemma ReplaceOnce(s: string, p: string, from: string, to: string)
    requires from != [] && s == p + from
    requires forall j: nat :: j < |p| ==> !OccursAt(s, from, j)
    ensures Replace(s, from, to) == p + to
  {
    assert s == p + from + [];
    ReplaceFirst(p, from, [], to);
    assert p + to + [] == p + to;
  }

  /**
    An inline table that the default-features fix reduced to `workspace = true`, and
    that the editor wrote as `foo = { workspace = true}`, comes out as the dotted key
    `foo.workspace = true`.
  */
  lemma PatchShortensInheritOnlyTable(key: string)
    requires ' ' !in key
    ensures PatchFixedText(key + " = { workspace = true}") == key + DottedInherit
  {
    CollapsedToSpaced(key);
    InlineInheritToDotted(key);
  }

  /**
    The patch also rewrites an inherit-only inline table that no fix touched: the
    line `foo = { workspace = true }` on its own becomes `foo.workspace = true`.
  */
  lemma PatchRewritesUntouchedTable(key: string)
    requires ' ' !in key
    ensures PatchFixedText(key + InlineInherit) == key + DottedInherit
  {
    var s := key + InlineInherit;
    assert !Contains(s, Collapsed) by {
      forall j: nat
        ensures !OccursAt(s, Collapsed, j)
      {
        if j < |key| {
          NoCollapsedInKey(key, InlineInherit, j);
        } else if j < |key| + 5 || j == |key| + 6 {
          NotAt(s, Collapsed, j, 0);
        } else if j == |key| + 5 {
          NotAt(s, Collapsed, j, 16);
        } else {
          assert j + |Collapsed| > |s|;
        }
      }
    }
    ReplaceAbsent(s, Collapsed, Spaced);
    InlineInheritToDotted(key);
  }

  /**
    The same rewrite with the line inside a larger manifest: when the text holds no
    `workspace = true}`, and the line's ` = { workspace = true }` is the first one
    in the text and the last, the line becomes `<key>.workspace = true` and the
    text around it is written back unchanged.
  */
  lemma PatchRewritesUntouchedLine(p: string, key: string, q: string)
    requires !Contains(p + key + InlineInherit + q, Collapsed)
    requires forall j: nat :: j < |p + key| ==> !OccursAt(p + key + InlineInherit + q, InlineInherit, j)
    requires !Contains(q, InlineInherit)
    ensures PatchFixedText(p + key + InlineInherit + q) == p + key + DottedInherit + q
  {
    var s := p + key + InlineInherit + q;
    ReplaceAbsent(s, Collapsed, Spaced);
    assert s == (p + key) + InlineInherit + q;
    ReplaceFirst(p + key, InlineInherit, q, DottedInherit);
    ReplaceAbsent(q, InlineInherit, DottedInherit);
  }
}
