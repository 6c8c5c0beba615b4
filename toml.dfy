/**
  An abstract view of the format-preserving TOML document that the linter edits.
  Only the shape the rules look at is kept: tables, arrays and scalar values.
  A standard table (`[dependencies.foo]`) and an inline table (`foo = { ... }`)
  are both `Table`, because the rules only reach them through `IndexMut` and
  `as_table_like_mut`, which treat the two alike. Comments, whitespace and key order are not modelled.
*/
module Toml {
  import opened Util

  datatype Value =
    | Str(s: string)
    | Boolean(b: bool)
    | Integer(i: int)
    | Other(repr: string)            // floats and date-times: never inspected
    | Array(items: seq<Value>)
    | Table(fields: map<string, Value>)

  /**
    The result of a rule that edits the document: whether it found something to fix,
    or the panic of an `unwrap` or of `IndexMut` on a value that is not a table.
  */
  datatype Outcome = Done(fixes: bool) | Panicked

  /** `doc[table]` can be indexed by key: it is absent (an empty placeholder) or a table. */
  predicate Indexable(root: map<string, Value>, table: string)
  {
    table !in root || root[table].Table?
  }

  /** The value of `doc[table][name]`, when `doc[table]` is a table holding `name`. */
  function Entry(root: map<string, Value>, table: string, name: string): Option<Value>
  {
    if table in root && root[table].Table? && name in root[table].fields
    then Some(root[table].fields[name])
    else None
  }

  /** The keys of `doc[table][name]` when that entry is table-like. */
  function EntryFields(root: map<string, Value>, table: string, name: string): Option<map<string, Value>>
  {
    if table in root && root[table].Table? && name in root[table].fields && root[table].fields[name].Table?
    then Some(root[table].fields[name].fields)
    else None
  }

  /** `doc[table][name]["features"]` is an array, so `as_array_mut().unwrap()` succeeds. */
  predicate HasFeaturesArray(root: map<string, Value>, table: string, name: string)
  {
    var e := EntryFields(root, table, name);
    e.Some? && "features" in e.value && e.value["features"].Array?
  }

  /** The document with the table-like entry `doc[table][name]` given the keys `fields`. */
  function SetEntryFields(root: map<string, Value>, table: string, name: string, fields: map<string, Value>): (r: map<string, Value>)
    requires EntryFields(root, table, name).Some?
    ensures r.Keys == root.Keys && r[table].Table? && r[table].fields.Keys == root[table].fields.Keys
    ensures EntryFields(r, table, name) == Some(fields)
  {
    root[table := Table(root[table].fields[name := Table(fields)])]
  }

  /** Rewriting an entry twice leaves only the second rewrite. */
  lemma SetEntryFieldsTwice(root: map<string, Value>, table: string, name: string, f1: map<string, Value>, f2: map<string, Value>)
    requires EntryFields(root, table, name).Some?
    ensures SetEntryFields(SetEntryFields(root, table, name, f1), table, name, f2) == SetEntryFields(root, table, name, f2)
  {
    var once := SetEntryFields(root, table, name, f1);
    assert once[table].fields[name := Table(f2)] == root[table].fields[name := Table(f2)];
  }

  /** Rewriting an entry with its own keys changes nothing. */
  lemma SetEntryFieldsSame(root: map<string, Value>, table: string, name: string)
    requires EntryFields(root, table, name).Some?
    ensures SetEntryFields(root, table, name, EntryFields(root, table, name).value) == root
  {
    assert root[table].fields[name := Table(EntryFields(root, table, name).value)] == root[table].fields;
  }

  /** Rewriting `doc[table][name]` touches no other entry and no other table. */
  lemma SetEntryFieldsFrame(root: map<string, Value>, table: string, name: string, fields: map<string, Value>)
    requires EntryFields(root, table, name).Some?
    ensures var r := SetEntryFields(root, table, name, fields);
      && r.Keys == root.Keys
      && (forall t :: t in root && t != table ==> r[t] == root[t])
      && (forall t :: Indexable(r, t) == Indexable(root, t))
      && (forall t, n :: Entry(r, t, n).Some? == Entry(root, t, n).Some?)
      && (forall t, n :: t != table || n != name ==> Entry(r, t, n) == Entry(root, t, n))
  {
  }

  /** The editable document: its root table, updated in place by the fixes. */
  class Document {
    var root: map<string, Value>

    constructor (root: map<string, Value>)
      ensures this.root == root
    {
      this.root := root;
    }
  }
}
