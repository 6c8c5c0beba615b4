/**
  The redundant default-features rule (`workspace_dependency_with_default_features_set`):
  an inherited dependency's `default-features` (or `default_features`) key has no
  effect, so the rule reports it and deletes it from the member document.
*/
module DefaultFeatures {
  import opened Util
  import opened Toml

  const Hyphen: string := "default-features"
  const Underscore: string := "default_features"

  /**
    The entry's keys after `remove("default-features").is_some() || remove("default_features").is_some()`:
    the hyphenated key goes if present, and only when it is absent is the
    underscored one removed. Every other key is left as it was.
  */
  function WithoutDefaultFeatures(fields: map<string, Value>): (r: map<string, Value>)
    ensures Hyphen !in r
    ensures Underscore in r <==> Underscore in fields && Hyphen in fields
    ensures Underscore in r ==> r[Underscore] == fields[Underscore]
    ensures forall k :: k != Hyphen && k != Underscore ==> (k in r <==> k in fields) && (k in r ==> r[k] == fields[k])
    ensures r == fields <==> Hyphen !in fields && Underscore !in fields
  {
    if Hyphen in fields then fields - {Hyphen} else fields - {Underscore}
  }

  /** `doc[table][name]` is table-like and sets the flag under either spelling. */
  predicate DefaultFeaturesSet(root: map<string, Value>, table: string, name: string)
  {
    var e := EntryFields(root, table, name);
    e.Some? && (Hyphen in e.value || Underscore in e.value)
  }

  /**
    The rule applied to `doc[table][name]`. It panics only when `doc[table]` is a
    value that cannot be indexed by key; it leaves an entry that is not table-like
    alone and reports nothing; otherwise it reports a fix iff the flag was set under
    either spelling, and removes one spelling from that entry and nothing else.
  */
  method RemoveDefaultFeatures(doc: Document, table: string, name: string) returns (outcome: Outcome)
    modifies doc
    ensures outcome.Panicked? <==> !Indexable(old(doc.root), table)
    ensures outcome.Done? ==> outcome.fixes == DefaultFeaturesSet(old(doc.root), table, name)
    ensures doc.root == if outcome == Done(true)
      then SetEntryFields(old(doc.root), table, name, WithoutDefaultFeatures(EntryFields(old(doc.root), table, name).value))
      else old(doc.root)
  {
    if !Indexable(doc.root, table) {
      return Panicked;
    }
    var entry := EntryFields(doc.root, table, name);
    if entry.None? {
      return Done(false);
    }
    var fields := entry.value;
    var fixes := false;
    if Hyphen in fields {
      fields, fixes := fields - {Hyphen}, true;
    } else if Underscore in fields {
      fields, fixes := fields - {Underscore}, true;
    }
    if fixes {
      doc.root := SetEntryFields(doc.root, table, name, fields);
    }
    outcome := Done(fixes);
  }
}
