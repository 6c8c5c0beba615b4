/**
  The redundant-features rule (`dependency_with_redundant_workspace_features`): an
  inherited dependency need not list a feature that the workspace entry already
  enables. The rule reports such features and deletes them from the `features`
  array of the member document, dropping the key when the array ends up empty.
*/
module Features {
  import opened Util
  import opened Toml
  import opened Cargo

  /**
    The member's inherited features that the workspace dependency already requires,
    in the member's order and with the member's repetitions.
  */
  function RedundantFeatures(features: seq<string>, required: seq<string>): (r: seq<string>)
    ensures SubsequenceOf(r, features)
    ensures forall f :: f in r <==> f in features && f in required
  {
    if features == [] then []
    else
      var rest := RedundantFeatures(features[1..], required);
      if features[0] in required then
        var r := [features[0]] + rest;
        assert r[1..] == rest;
        r
      else rest
  }

  /** Each feature is reported exactly as often as the member lists it, if it is required at all. */
  lemma {:induction false} RedundantFeaturesCount(features: seq<string>, required: seq<string>, f: string)
    ensures multiset(RedundantFeatures(features, required))[f] == if f in required then multiset(features)[f] else 0
  {
    if features != [] {
      RedundantFeaturesCount(features[1..], required, f);
      assert features == [features[0]] + features[1..];
    }
  }

  /** A member that lists no required feature gets no finding. */
  lemma {:induction false} NoneRequiredNoneRedundant(features: seq<string>, required: seq<string>)
    requires forall f :: f in features ==> f !in required
    ensures RedundantFeatures(features, required) == []
  {
    if features != [] {
      NoneRequiredNoneRedundant(features[1..], required);
    }
  }

  /** An array item the fix deletes: a string equal to one of the redundant features. */
  predicate IsRedundantItem(v: Value, redundant: seq<string>)
  {
    v.Str? && v.s in redundant
  }

  /**
    The `features` array after the fix: every redundant string deleted, every other
    item (non-string items included) kept, in its original relative order.
  */
  function KeptItems(items: seq<Value>, redundant: seq<string>): seq<Value>
  {
    if items == [] then []
    else if IsRedundantItem(items[0], redundant) then KeptItems(items[1..], redundant)
    else [items[0]] + KeptItems(items[1..], redundant)
  }

  /** The kept items are a subsequence of the array: nothing is reordered. */
  lemma {:induction false} KeptItemsSubsequence(items: seq<Value>, redundant: seq<string>)
    ensures SubsequenceOf(KeptItems(items, redundant), items)
  {
    if items != [] {
      KeptItemsSubsequence(items[1..], redundant);
      var r := KeptItems(items, redundant);
      if !IsRedundantItem(items[0], redundant) {
        assert r[1..] == KeptItems(items[1..], redundant);
      }
    }
  }

  /** An item survives iff it is in the array and is not a redundant string. */
  lemma {:induction false} KeptItemsMembers(items: seq<Value>, redundant: seq<string>)
    ensures forall v :: v in KeptItems(items, redundant) <==> v in items && !IsRedundantItem(v, redundant)
  {
    if items != [] {
      KeptItemsMembers(items[1..], redundant);
      assert items == [items[0]] + items[1..];
    }
  }

  /** Every item that is kept is kept as many times as it occurs. */
  lemma {:induction false} KeptItemsCount(items: seq<Value>, redundant: seq<string>, v: Value)
    ensures multiset(KeptItems(items, redundant))[v] == if IsRedundantItem(v, redundant) then 0 else multiset(items)[v]
  {
    if items != [] {
      KeptItemsCount(items[1..], redundant, v);
      assert items == [items[0]] + items[1..];
    }
  }

  lemma {:induction false} KeptItemsAppend(a: seq<Value>, b: seq<Value>, redundant: seq<string>)
    ensures KeptItems(a + b, redundant) == KeptItems(a, redundant) + KeptItems(b, redundant)
  {
    if a != [] {
      KeptItemsAppend(a[1..], b, redundant);
      assert (a + b)[0] == a[0];
      assert (a + b)[1..] == a[1..] + b;
      if !IsRedundantItem(a[0], redundant) {
        var x, y := KeptItems(a[1..], redundant), KeptItems(b, redundant);
        assert [a[0]] + (x + y) == ([a[0]] + x) + y;
      }
    } else {
      assert a + b == b;
    }
  }

  lemma {:induction false} KeptItemsNoneRedundant(a: seq<Value>, redundant: seq<string>)
    requires forall k :: 0 <= k < |a| ==> !IsRedundantItem(a[k], redundant)
    ensures KeptItems(a, redundant) == a
  {
    if a != [] {
      KeptItemsNoneRedundant(a[1..], redundant);
    }
  }

  /** The indices of the redundant items (`rm_idx`), increasing. */
  function RedundantIndices(items: seq<Value>, redundant: seq<string>): (idx: seq<nat>)
    ensures StrictlyIncreasing(idx)
    ensures forall j :: 0 <= j < |idx| ==> idx[j] < |items|
    ensures forall k :: 0 <= k < |items| ==> (k in idx <==> IsRedundantItem(items[k], redundant))
  {
    if items == [] then []
    else
      var n := |items| - 1;
      var front := RedundantIndices(items[..n], redundant);
      assert forall k :: 0 <= k < n ==> items[..n][k] == items[k];
      front + (if IsRedundantItem(items[n], redundant) then [n] else [])
  }

  /** Where the part of the array still untouched by the loop ends. */
  function Bound(items: seq<Value>, idx: seq<nat>, j: nat): nat
    requires j <= |idx|
  {
    if j == |idx| then |items| else idx[j]
  }

  /**
    The removal loop: the redundant indices are collected, then removed one at a
    time from the highest down, so that each removal leaves the indices still to
    be removed pointing at the same items.
  */
  method RemoveRedundantItems(items: seq<Value>, redundant: seq<string>) returns (r: seq<Value>)
    ensures r == KeptItems(items, redundant)
  {
    var rmIdx := RedundantIndices(items, redundant);
    r := items;
    var j := |rmIdx|;
    while j > 0
      invariant 0 <= j <= |rmIdx|
      invariant Bound(items, rmIdx, j) <= |items|
      invariant r == items[..Bound(items, rmIdx, j)] + KeptItems(items[Bound(items, rmIdx, j)..], redundant)
    {
      var b := Bound(items, rmIdx, j);
      j := j - 1;
      var i := rmIdx[j];
      NoneRedundantBetween(items, redundant, rmIdx, j);
      RemoveOneMore(items, i, b, redundant);
      r := r[..i] + r[i + 1..];
    }
    NoneRedundantBefore(items, redundant, rmIdx);
    RemoveNoneLeft(items, Bound(items, rmIdx, 0), redundant);
  }

  /** No redundant item lies strictly between two consecutive collected indices. */
  lemma NoneRedundantBetween(items: seq<Value>, redundant: seq<string>, idx: seq<nat>, j: nat)
    requires idx == RedundantIndices(items, redundant) && j < |idx|
    ensures Bound(items, idx, j + 1) <= |items|
    ensures forall k :: idx[j] < k < Bound(items, idx, j + 1) ==> !IsRedundantItem(items[k], redundant)
  {
    forall k | idx[j] < k < Bound(items, idx, j + 1)
      ensures !IsRedundantItem(items[k], redundant)
    {
      assert k !in idx;
    }
  }

  /** No redundant item lies before the first collected index. */
  lemma NoneRedundantBefore(items: seq<Value>, redundant: seq<string>, idx: seq<nat>)
    requires idx == RedundantIndices(items, redundant)
    ensures Bound(items, idx, 0) <= |items|
    ensures forall k :: 0 <= k < Bound(items, idx, 0) ==> !IsRedundantItem(items[k], redundant)
  {
    forall k | 0 <= k < Bound(items, idx, 0)
      ensures !IsRedundantItem(items[k], redundant)
    {
      assert k !in idx;
    }
  }

  /** One turn of the loop: removing redundant item `i` extends the fixed suffix down to `i`. */
  lemma RemoveOneMore(items: seq<Value>, i: nat, b: nat, redundant: seq<string>)
    requires i < b <= |items| && IsRedundantItem(items[i], redundant)
    requires forall k :: i < k < b ==> !IsRedundantItem(items[k], redundant)
    ensures var r := items[..b] + KeptItems(items[b..], redundant);
      r[..i] + r[i + 1..] == items[..i] + KeptItems(items[i..], redundant)
  {
    var mid, tail := items[i + 1..b], items[b..];
    assert forall k :: 0 <= k < |mid| ==> mid[k] == items[i + 1 + k];
    KeptSkipsMiddle(mid, tail, redundant);
    assert items[i..] == [items[i]] + (mid + tail);
    KeptDropsHead(items[i], mid + tail, redundant);
    var r := items[..b] + KeptItems(tail, redundant);
    assert r[..i] == items[..i];
    assert r[i + 1..] == mid + KeptItems(tail, redundant);
  }

  /** A run of items with no redundant string passes the edit unchanged. */
  lemma KeptSkipsMiddle(mid: seq<Value>, tail: seq<Value>, redundant: seq<string>)
    requires forall k :: 0 <= k < |mid| ==> !IsRedundantItem(mid[k], redundant)
    ensures KeptItems(mid + tail, redundant) == mid + KeptItems(tail, redundant)
  {
    KeptItemsNoneRedundant(mid, redundant);
    KeptItemsAppend(mid, tail, redundant);
  }

  /** A redundant string at the front is dropped. */
  lemma KeptDropsHead(x: Value, rest: seq<Value>, redundant: seq<string>)
    requires IsRedundantItem(x, redundant)
    ensures KeptItems([x] + rest, redundant) == KeptItems(rest, redundant)
  {
    assert ([x] + rest)[1..] == rest;
  }

  /** After the loop: no redundant item lies before the last one removed. */
  lemma RemoveNoneLeft(items: seq<Value>, b: nat, redundant: seq<string>)
    requires b <= |items|
    requires forall k :: 0 <= k < b ==> !IsRedundantItem(items[k], redundant)
    ensures items[..b] + KeptItems(items[b..], redundant) == KeptItems(items, redundant)
  {
    var front := items[..b];
    assert forall k :: 0 <= k < |front| ==> front[k] == items[k];
    KeptItemsNoneRedundant(front, redundant);
    KeptItemsAppend(front, items[b..], redundant);
    assert front + items[b..] == items;
  }

  /** The array a manifest's feature list is written as. */
  function AsItems(features: seq<string>): (items: seq<Value>)
    ensures |items| == |features| && forall i :: 0 <= i < |items| ==> items[i] == Str(features[i])
  {
    if features == [] then [] else [Str(features[0])] + AsItems(features[1..])
  }

  /** The feature list a manifest reads back from an array: its string items. */
  function StringsOf(items: seq<Value>): seq<string>
  {
    if items == [] then []
    else if items[0].Str? then [items[0].s] + StringsOf(items[1..])
    else StringsOf(items[1..])
  }

  lemma {:induction false} StringsOfMembers(items: seq<Value>)
    ensures forall f :: f in StringsOf(items) <==> Str(f) in items
  {
    if items != [] {
      StringsOfMembers(items[1..]);
      assert items == [items[0]] + items[1..];
    }
  }

  /**
    The fix is idempotent: when the document's array holds the member's features,
    the features read back after the fix contain nothing the workspace dependency
    requires, so a second run reports no redundant feature.
  */
  lemma FixedFeaturesHaveNoneRedundant(features: seq<string>, required: seq<string>)
    ensures var redundant := RedundantFeatures(features, required);
      RedundantFeatures(StringsOf(KeptItems(AsItems(features), redundant)), required) == []
  {
    var redundant := RedundantFeatures(features, required);
    var kept := KeptItems(AsItems(features), redundant);
    var after := StringsOf(kept);
    KeptItemsMembers(AsItems(features), redundant);
    StringsOfMembers(kept);
    forall f | f in after
      ensures f !in required
    {
      assert Str(f) in AsItems(features);
      assert !IsRedundantItem(Str(f), redundant);
      var i :| 0 <= i < |features| && AsItems(features)[i] == Str(f);
      assert f in features;
    }
    NoneRequiredNoneRedundant(after, required);
  }

  /**
    The entry's keys after the fix: the `features` array without its redundant
    items, and no `features` key at all when nothing is left.
  */
  function WithoutRedundantFeatures(fields: map<string, Value>, redundant: seq<string>): (r: map<string, Value>)
    requires "features" in fields && fields["features"].Array?
    ensures "features" in r <==> KeptItems(fields["features"].items, redundant) != []
    ensures "features" in r ==> r["features"] == Array(KeptItems(fields["features"].items, redundant))
    ensures forall k :: k != "features" ==> (k in r <==> k in fields) && (k in r ==> r[k] == fields[k])
  {
    var kept := KeptItems(fields["features"].items, redundant);
    if kept == [] then fields - {"features"} else fields["features" := Array(kept)]
  }

  /**
    The rule applied to `doc[table][name]`, the member's inherited entry whose
    manifest features are `features`, against the workspace dependency `wsDep`.
    It reports a fix iff some inherited feature is already required by the
    workspace entry; it panics when it must edit an entry that has no `features`
    array; and it rewrites that one entry and nothing else.
  */
  method RemoveRedundantFeatures(doc: Document, table: string, name: string, wsDep: Dependency, features: seq<string>)
    returns (outcome: Outcome)
    modifies doc
    ensures var redundant := RedundantFeatures(features, ReqFeatures(wsDep));
      && (outcome.Panicked? <==> redundant != [] && !HasFeaturesArray(old(doc.root), table, name))
      && (outcome.Done? ==> outcome.fixes == (redundant != []))
      && doc.root == (if outcome.Done? && redundant != []
                      then SetEntryFields(old(doc.root), table, name,
                             WithoutRedundantFeatures(EntryFields(old(doc.root), table, name).value, redundant))
                      else old(doc.root))
  {
    var redundant := RedundantFeatures(features, ReqFeatures(wsDep));
    if redundant == [] {
      return Done(false);
    }
    if !HasFeaturesArray(doc.root, table, name) {
      return Panicked;
    }
    var fields := EntryFields(doc.root, table, name).value;
    var kept := RemoveRedundantItems(fields["features"].items, redundant);
    if kept == [] {
      fields := fields - {"features"};
    } else {
      fields := fields["features" := Array(kept)];
    }
    doc.root := SetEntryFields(doc.root, table, name, fields);
    outcome := Done(true);
  }
}
