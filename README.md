# cargo-ab-lint, modelled in Dafny

`cargo ab-lint` checks a Cargo workspace for three kinds of redundancy and can
fix them in place:

- a workspace dependency that no member uses;
- a member dependency inherited with `workspace = true` that restates features
  the workspace entry already enables;
- a member dependency inherited with `workspace = true` that sets
  `default-features` (or `default_features`), which has no effect there.

This project models the linter's core on values and on an editable document:

- **Cargo model** (`cargo.dfy`): the parsed manifests.
  - Dependencies are simple, inherited or detailed.
  - The three dependency kinds are an enumeration.
  - Workspace dependencies are a list with distinct names, in the iteration order
    of the workspace's dependency map.
- **Document** (`toml.dfy`): the format-preserving TOML document becomes a class
  `Document` with one field, `root`, a map from top-level keys to values.
  - Standard and inline tables are both `Table`.
  - The rules reach entries through `IndexMut` and `as_table_like_mut`, which
    treat standard and inline tables alike.
  - The document's panics become the outcome `Panicked`: `unwrap` on a missing
    `features` array, and indexing a value that is not a table.
- **Unused workspace dependencies** (`unused.dfy`): `unused_workspace_deps`,
  both as written and corrected (see Findings).
- **Redundant features** (`features.dfy`): the redundant features are computed
  from the manifests. The array edit deletes the matching indices from the back.
  The model proves that edit against a plain specification: keep every item
  that is not a redundant string.
- **Redundant default features** (`default_features.dfy`): the short-circuit
  removal of `default-features`, then of `default_features`.
- **`lint_manifest`** (`lint.dfy`):
  - a loop over the workspace dependencies that edits the member's
    `dependencies` and `dev-dependencies` tables;
  - specified by a fold over the dependencies;
  - with closed-form lemmas for what it changes and what it leaves alone.
- **Package ids and the text patch** (`text.dfy`):
  - `manifest_path`, which extracts the member's directory from its package id;
  - the text patch applied to a fixed member document before it is written.
- **The run** (`driver.dfy`):
  - the member loop of `main`, on member documents given as values;
  - the documents `--fix` would write: each fixed member document, and the
    root document with the unused entries removed;
  - the exit status.

Three behaviours of the code that a user may not expect:

- The text patch in `main` (src/main.rs:52-55) runs over the whole serialised
  member file. So it also rewrites an untouched `foo = { workspace = true }`
  line into `foo.workspace = true` (`Text.PatchRewritesUntouchedTable`,
  `Text.PatchRewritesUntouchedLine`).
- The redundancy rules read only the top-level `dependencies` and
  `dev-dependencies` (src/main.rs:140, :155); `build-dependencies` and entries
  under `[target.<cfg>.*dependencies]` are never checked or fixed, and the model
  does the same (`Lint.LintedUpToFrame`). The unused filter reads those two
  tables and `build-dependencies` (see Findings for the target tables).
- An entry that sets both `default-features` and `default_features` loses only
  `default-features` (the short-circuit at src/main.rs:185-186). A second run
  then reports `default_features`, so one fix pass does not clear that entry
  (`DefaultFeatures.WithoutDefaultFeatures`, second clause).

## Model

| member | source | states |
|---|---|---|
| Unused.UnusedTopLevel | src/main.rs:125-131 | a workspace dependency is kept iff no member declares it in `dependencies`, `dev-dependencies` or `build-dependencies`; the result keeps the workspace order |
| Unused.UnusedWorkspaceDepsAsWritten | src/main.rs:121-134 | no workspace means nothing is unused; otherwise the result lists, in the order of the workspace's dependency list, exactly the workspace dependencies that no member declares in its three top-level tables |
| Unused.UnusedAnywhere | src/main.rs:125-131 | a workspace dependency is kept iff no member declares it anywhere, target-specific tables included; the result keeps the workspace order |
| Unused.UnusedWorkspaceDeps | src/main.rs:121-134 | corrected filter: no workspace means nothing is unused; otherwise exactly the workspace dependencies no member declares in any table, in the order of the workspace's dependency list |
| Unused.DistinctUnused | src/main.rs:122-131 | since the workspace dependencies are map keys, neither the filter as written nor the corrected one reports a name twice |
| Unused.TargetOnlyUseReportedUnused | src/main.rs:125-131 | a dependency that a member inherits only under `[target.'cfg(unix)'.dependencies]` is reported unused as written, and not by the corrected filter |
| Features.RedundantFeatures | src/main.rs:213-218 | the redundant features are the member's inherited features that the workspace entry requires, in the member's order |
| Features.RedundantFeaturesCount | src/main.rs:213-218 | each required feature keeps all its repetitions; every other feature is dropped |
| Features.NoneRequiredNoneRedundant | src/main.rs:220 | when no inherited feature is required by the workspace entry, nothing is reported |
| Features.KeptItemsSubsequence | src/main.rs:233-241 | the edited features array is a subsequence of the original: order is kept |
| Features.KeptItemsMembers | src/main.rs:233-241 | an item survives iff it is not a string naming a redundant feature (non-string items always survive) |
| Features.KeptItemsCount | src/main.rs:233-241 | a surviving item keeps its multiplicity; a redundant string loses all its copies |
| Features.KeptItemsAppend | src/main.rs:233-241 | the edit acts item by item: editing a concatenation edits each part |
| Features.KeptItemsNoneRedundant | src/main.rs:233-241 | an array with no redundant string is left as it is |
| Features.RedundantIndices | src/main.rs:233-238 | the collected indices increase strictly, are in bounds, and are exactly the positions of redundant strings |
| Features.RemoveRedundantItems | src/main.rs:233-241 | removing the collected indices from the back leaves exactly the specified array (the non-redundant items, in order) |
| Features.RemoveOneMore | src/main.rs:239-240 | one removal from the back keeps the loop's invariant: prefix untouched, specified suffix |
| Features.RemoveNoneLeft | src/main.rs:239-241 | once all indices are removed, the array is the specified one |
| Features.FixedFeaturesHaveNoneRedundant | src/main.rs:213-248 | idempotence: after the fix, a second run finds no redundant feature in what is left |
| Features.WithoutRedundantFeatures | src/main.rs:232-248 | the entry keeps `features` iff some item survives, holding exactly the surviving items; every other key is unchanged |
| Features.RemoveRedundantFeatures | src/main.rs:204-252 | reports a fix iff some feature is redundant; panics iff it must edit an entry without a `features` array; rewrites only that entry |
| DefaultFeatures.WithoutDefaultFeatures | src/main.rs:185-186 | `default-features` is always gone; `default_features` is removed only when `default-features` was absent; other keys unchanged; unchanged iff neither was set |
| DefaultFeatures.RemoveDefaultFeatures | src/main.rs:179-201 | panics iff the table cannot be indexed; reports a fix iff the entry is table-like and sets either key; the new document is the old one with that entry edited |
| Lint.FixedAtFrame | src/main.rs:142-171 | handling one entry keeps the top-level keys, every other table, indexability and which entries exist |
| Lint.LintTable | src/main.rs:140-171 | for one table kind: panics iff a rule would; reports a fix iff the dependency is inherited and has redundant features or sets default features; the new document is the fixed entry |
| Lint.FindingBeforeExists | src/main.rs:136-176 | the flag accumulated over the first dependencies is set iff some rule found something for one of them |
| Lint.StepVerdicts | src/main.rs:139-173 | the verdicts for a dependency are the same on the partly fixed document as on the original: earlier steps never touch its entries |
| Lint.LintManifest | src/main.rs:136-176 | panics iff the rule for some workspace dependency would; returns whether any rule found something in the original document; the new document is the fold of both rules over the workspace dependencies |
| Lint.LintedUpToFrame | src/main.rs:139-173 | the pass never touches `build-dependencies` or any table other than `dependencies`/`dev-dependencies`, adds or removes no entry, and leaves unhandled names alone |
| Lint.LintedUpToFixes | src/main.rs:139-173 | after the pass, each handled inherited entry of `dependencies`/`dev-dependencies` holds both fixes applied to its original keys; other entries are as they were |
| Text.FindFrom | src/main.rs:259 | a position returned lies at or after the start and the pattern occurs there |
| Text.Find | src/main.rs:259-261 | a position returned is an occurrence of the pattern |
| Text.FindFromSpec | src/main.rs:259 | the search returns the first occurrence at or after the start, or none when there is none |
| Text.FindSpec | src/main.rs:259 | `str::find`: none iff the pattern does not occur; otherwise its first occurrence |
| Text.JoinPath | src/main.rs:265 | the path starts with the directory and ends with the file name, with one `/` between them when the directory is not empty, adding at most one character |
| Text.ManifestPath | src/main.rs:258-266 | a path exists iff the id contains `path+file://`; every path ends in `Cargo.toml` |
| Text.ManifestPathSpec | src/main.rs:258-266 | no path iff the id has no `path+file://`; otherwise `Cargo.toml` joined to the text after its first occurrence, cut at the first `#` |
| Text.ManifestPathOfDirectory | src/main.rs:258-266 | an id that holds the marker and names a directory yields exactly that directory joined with `Cargo.toml` |
| Text.DirectoryOfUnique | src/main.rs:259-263 | the directory read from a package id is determined by the id |
| Text.ManifestPathOfPathId | src/main.rs:258-266 | `path+file:///ws/app#0.1.0` gives `/ws/app/Cargo.toml` |
| Text.Replace | src/main.rs:54-55 | `str::replace` never shortens the text when the replacement is at least as long as the pattern, and never lengthens it when the replacement is at most as long |
| Text.ReplaceAbsent | src/main.rs:54-55 | `replace` leaves text without the pattern unchanged |
| Text.PatchFixedText | src/main.rs:52-55 | a serialised document that contains neither pattern is written back byte for byte |
| Text.ReplaceFirst | src/main.rs:54-55 | `replace` rewrites the first occurrence and carries on after it |
| Text.CollapsedToSpaced | src/main.rs:54 | the first replacement puts back the space before the closing brace of an inline table |
| Text.InlineInheritToDotted | src/main.rs:55 | the second replacement turns an inherit-only inline table into a dotted key |
| Text.PatchShortensInheritOnlyTable | src/main.rs:52-55 | an entry whose edit left only `workspace = true` (serialised without the space) ends up as `key.workspace = true` |
| Text.PatchRewritesUntouchedTable | src/main.rs:52-55 | an untouched `key = { workspace = true }` line on its own is rewritten to `key.workspace = true` as well |
| Text.PatchRewritesUntouchedLine | src/main.rs:52-55 | the same line inside a larger text, with no other occurrence of either pattern, becomes `key.workspace = true` while the text around it is kept |
| Driver.LintedManifests | src/main.rs:33-36 | the manifests collected for the unused check are exactly those of the members whose id yields a manifest path |
| Driver.RemoveUnusedFromRoot | src/main.rs:86-92 | panics iff `[workspace.dependencies]` is not table-like; otherwise removes exactly the unused names from it and nothing else |
| Driver.AnyFlaggedExists | src/main.rs:33-68 | the accumulated `something_to_fix` of the member loop holds iff some member with a manifest path had a finding |
| Driver.LintMember | src/main.rs:34-48 | a member without a manifest path is skipped and reports nothing; otherwise it panics iff `lint_manifest` panics on its document, and when it does not, its document is the full lint pass and it reports whether any rule found something |
| Driver.LintMembers | src/main.rs:33-68 | the run panics iff some member with a manifest path panics; then the rewrites are those of the members before the first such one; otherwise the manifests of exactly the members with a manifest path are collected, something to fix iff some such member had a finding, and under `--fix` the rewritten documents are exactly those of the members with a finding, in member order |
| Driver.CheckWorkspace | src/main.rs:28-114 | aborts iff a member's lint panics or `--fix` must remove unused names from a `[workspace.dependencies]` that is not table-like, keeping the member rewrites made before; otherwise reports the unused dependencies of the linted members; under `--fix` with something unused, the root document loses exactly those entries; exits with 1 iff `--fix` was not given and something was found |

## Left out

- Argument parsing, `--help` and `--dry-run` (src/main.rs:9-15) are left out: they are plain flag tests. `--fix` is a parameter of `Driver.CheckWorkspace`.
- `cargo metadata`, reading files and parsing manifests and documents are left out: they are external services. Members arrive already parsed, and a read or parse error, which ends the run, is not modelled.
- Printing the warnings, the diffs and the hints is left out: it is output only, and the diff engine is an external crate.
- Serialising a document and writing it to disk are left out. `Text.PatchFixedText` models the patch on the serialised text, but it is not composed with a serialiser.
- The placeholder entries that `toml_edit` indexing inserts for missing keys are not modelled: a missing key inside an existing table serialises to nothing.
- Lint.LintManifest: a member document with no `dependencies` or `dev-dependencies` key at all is left unchanged in the model. In the source, indexing the missing table (src/main.rs:142, :157) and then an entry in it (:184, :232) can leave an empty inline table that is written out as `dev-dependencies = {}` when the file is rewritten.
- Key order, comments and whitespace inside the document are not modelled: the document is a map of values.
- Text.JoinPath: models `Utf8PathBuf::join` only for a relative file name and `/` separators. `Utf8PathBuf::from_str` cannot fail, so that branch of `manifest_path` has no model.
- Text.Replace: requires a non-empty pattern. The source calls it only with the four non-empty constants.
- Lint.LintedUpToFixes: requires that the entry's own rule does not panic. That is weaker than a closed form for runs that panic, which have no later document.
- Driver.CheckWorkspace: returns the member rewrites and the root rewrite as values, without file paths or write order. When the root package is itself a member, its file is parsed twice (src/main.rs:21-24 and :44-46); under `--fix` the root write (:102), built from the first parse, replaces the member fixes written to the same file at :64. The model does not capture that overwrite.
- The iteration order of the workspace dependency map is taken as given, since the manifest parser that fixes it is not part of this model: `Cargo.WorkspaceDeps` only requires distinct names.
- `--dry-run` only suppresses writing, which is not modelled; the documents a run would write are returned either way.
- Driver.CheckWorkspace: uses the corrected unused-dependency filter. The as-written filter is `Unused.UnusedWorkspaceDepsAsWritten`.

## Findings

| source | as written | input that shows it | evidently intended | confidence | as-written member | corrected member |
|---|---|---|---|---|---|---|
| src/main.rs:125-131 | a workspace dependency counts as used only when a member declares it in its top-level `dependencies`, `dev-dependencies` or `build-dependencies` | a workspace dependency `bar` that a member inherits only under `[target.'cfg(unix)'.dependencies]`: it is reported unused, and `--fix` deletes it from `[workspace.dependencies]`, breaking that member | a dependency declared in any of the member's tables, target-specific ones included, is used | medium, not executed | Unused.UnusedWorkspaceDepsAsWritten, Unused.TargetOnlyUseReportedUnused | Unused.UnusedWorkspaceDeps |
