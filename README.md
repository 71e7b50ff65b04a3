# cargo-edit manifest engine, modelled in Dafny

This project models the part of cargo-edit that edits a parsed `Cargo.toml`:

- **Merging** a newly computed dependency entry into an existing one
  (`merge_dependencies`). A bare version, or a single-key table, is
  replaced wholesale. Any other table, including an empty one, loses its old source keys (`version`,
  `path`, `git`) and takes the new fields.
- **Descending** a path of table names, creating each missing table on the
  way (`descend`). It fails with `NonExistentTable` on the first segment
  that holds something other than a table.
- **Editing dependency tables**:
  - `insert_into_table` merges into an existing entry or inserts a new one.
  - `update_table_entry` merges only into an existing entry.
  - `remove_from_table` deletes an entry and drops the table once it is empty.
  - `add_deps` inserts a list in order and stops at the first error.
- **The header choice** of `write_to_file`: `package`, else `project`, else
  `MissingManifest`.
- **The display text** of `ManifestError`, including the one-based
  `line:col[-line:col]` span of a parse error.
- **`get_all_deps`** of the newer parser-backed manifest (`manifest_new.rs`).
  It lists every dependency entry of the three section kinds: at the root
  and under `target.<t>.`.

## How the model is built

- A TOML document is a `map<string, Value>` (`Toml.TomlTable`). A `Value`
  is a string, a table, or an opaque other value.
- `Descent.Descend` returns the table the walk reaches.
  `Descent.Store` writes a new version of that table back, creating the
  missing tables. Together they stand for the mutable reference that
  `descend` hands out.
- Each edit has two parts:
  - A specification function (`Manifest.Insert`, `Update`, `Remove`,
    `InsertAll`) returns the outcome and the new document, as an `Edit`.
  - A method of the class `Manifest.Manifest` updates its `data` field in
    place, as the Rust methods do. Each method's postcondition ties it to
    its specification function.
- The properties are proved as lemmas about the specification functions.
- `get_all_deps` is a method with loops, proved equal to the flat
  reference `ManifestNew.AllDeps`. That reference holds the entries of the
  visited sections, in visiting order.

## Model

| member | source | states |
|---|---|---|
| Merge.NewFields | src/manifest.rs:106-112 | The fields a new dependency adds to a table entry say what its serialized value says: a plain version becomes `{version = v}`, which reads back as `v`. |
| Merge.MergeDependencies | src/manifest.rs:94-118 | The result is again a string or a table. A bare-string or single-key old entry becomes exactly the new serialized value. Otherwise the result is a table whose keys are the old keys minus `version`/`path`/`git`, plus the new fields. |
| Merge.MergeNewFieldsWin | src/manifest.rs:106-112 | On a table entry that does not have exactly one key (an empty table included) every field the new dependency carries ends up with the new value; a plain version lands under `version`. |
| Merge.MergeKeepsAncillaryFields | src/manifest.rs:100-108 | On a table entry that does not have exactly one key (an empty table included) every old field that is neither a source key nor set by the new dependency survives unchanged. |
| Merge.MergeDropsOldSource | src/manifest.rs:101-104 | On a table entry that does not have exactly one key (an empty table included) a source key is present afterwards iff the new dependency sets it. |
| Merge.MergeIdempotent | src/manifest.rs:94-118 | For a new value that is a string or a non-empty table, merging twice equals merging once, up to reading `{version = v}` as `v`. It is exactly equal when the new value is a non-empty table. An empty new table is excluded because the law fails there: `{version = "1.0", features = []}` merged with `{}` once gives `{features = []}`, and a second time gives `{}`. |
| Merge.LoneAncillaryKeyIsReplaced | src/manifest.rs:97-99 | The single-key test does not look at the key: `{optional = true}` merged with a plain version becomes that version, and the flag is lost. |
| Merge.VersionBumpKeepsFeatures | src/manifest.rs:100-112 | `{version = "1.0", features = [...]}` merged with version "2.0" keeps its features and carries the new version. |
| Merge.TrivialOldIsReplaced | src/manifest.rs:97-99 | A bare old version is replaced by the full new table. |
| Descent.Descend | src/manifest.rs:121-137 | With an empty path it returns the root table. A failure is `NonExistentTable` naming a segment of the path. Together with `Descent.BlockedFails` and `Descent.DescendFailure`: the descent fails exactly when the walk reaches an existing non-table segment, and the error names that segment. |
| Descent.BlockedFails | src/manifest.rs:126-130 | If every segment before position `i` exists as a table and segment `i` exists but is not a table, the descent fails with `NonExistentTable` of that segment. |
| Descent.Store | src/manifest.rs:125-133 | After the write-back, descending the same path yields exactly the stored table. Every segment then exists as a table. The top level gains at most the first segment, and every other top-level key is unchanged. |
| Descent.StoreDescended | src/manifest.rs:125-133 | When every segment already exists, writing back the descended table gives the document back unchanged. |
| Descent.StoreStore | src/manifest.rs:125-133 | Two write-backs along one path keep only the second. |
| Descent.DescendMissing | src/manifest.rs:126-128 | Below a missing segment the descent reaches an empty table. The write-back creates one nested table per remaining segment. |
| Descent.DescendPrefix | src/manifest.rs:125-133 | A successful descent succeeds on every prefix of its path. |
| Descent.StoreBesidePath | src/manifest.rs:126-133 | At every level of the walk, every key beside the path is unchanged by the write-back. |
| Descent.DescendFailure | src/manifest.rs:125-131 | A failed descent stops at a segment that exists and is not a table. Every earlier segment already existed, so the failed walk creates nothing. |
| Manifest.Insert | src/manifest.rs:210-229 | Fails iff the descent fails, with the descent's error and the document unchanged. On success the target table is the old one with the entry merged, or with the fresh serialized value added, and every segment of the path exists as a table. |
| Manifest.Update | src/manifest.rs:232-245 | Fails iff the descent fails, with the document unchanged. On success the target table has the entry merged if it existed and is otherwise the same, and every segment of the path exists as a table: missing tables are still created. |
| Manifest.UpdateBesidePath | src/manifest.rs:237-242 | An update touches nothing beside the table path, at any level. |
| Manifest.Remove | src/manifest.rs:266-287 | A missing or non-table section gives `NonExistentTable` and no change. A section that is a table gives success iff the name was there, else `NonExistentDependency`. The entry is removed, and the section is deleted exactly when it ends up empty. No other top-level key changes. |
| Manifest.InsertAll | src/manifest.rs:290-296 | The fold of inserts that stands for `add_deps`. A failure happens only when the table path fails; it carries the descent's error and leaves the document unchanged. |
| Manifest.InsertAllOutcome | src/manifest.rs:290-296 | A batch insert fails iff the list is non-empty and the table path fails, leaving the document unchanged. Otherwise the target table's keys are the old keys plus every name, and entries of other names are untouched. `Manifest.InsertAllValue` gives the value each name ends up with, and `Manifest.InsertAllBesidePath` says nothing beside the path changes. |
| Manifest.InsertAllValue | src/manifest.rs:290-296 | A name that occurs once in the batch ends up holding exactly what inserting that dependency alone gives: the merge with the old entry, or the fresh value. |
| Manifest.InsertAllBesidePath | src/manifest.rs:290-296 | A batch insert touches nothing beside the table path, at any level. |
| Manifest.UpdateAbsentIsNoOp | src/manifest.rs:239-242 | With the path present, updating a name the table does not hold changes nothing. |
| Manifest.UpdateNeverAdds | src/manifest.rs:239-242 | An update leaves the target table's key set as it was. |
| Manifest.InsertBesidePath | src/manifest.rs:215-228 | An insert touches nothing beside the table path, at any level. |
| Manifest.InsertRemoveRoundTrip | src/manifest.rs:320-331 | Inserting a new name into a top-level table and then removing it restores the document. The table must be absent or non-empty. |
| Manifest.EmptyTableInsertRemove | src/manifest.rs:281-283 | The case the round trip excludes: with `dependencies` present but empty, insert then remove deletes the table, leaving an empty document. |
| Manifest.EmptyManifestAddRemove | src/manifest.rs:258-263 | On an empty manifest, insert then remove gives the empty manifest again, and a second removal fails with `NonExistentTable`. |
| Manifest.SplitHeader | src/manifest.rs:190-193 | `MissingManifest` iff neither `package` nor `project` is present. `package` wins when present. The header and the remainder reassemble the document. |
| Manifest.Manifest.InsertIntoTable | src/manifest.rs:210-229 | The new `data` and the result are those of `Manifest.Insert` on the old `data`. |
| Manifest.Manifest.UpdateTableEntry | src/manifest.rs:232-245 | The new `data` and the result are those of `Manifest.Update` on the old `data`. |
| Manifest.Manifest.RemoveFromTable | src/manifest.rs:266-287 | The new `data` and the result are those of `Manifest.Remove` on the old `data`. |
| Manifest.Manifest.AddDeps | src/manifest.rs:290-296 | The loop of inserts leaves `data` and the result as `Manifest.InsertAll` on the old `data`. |
| ManifestErrors.ParseErrorDisplayRoundTrip | src/manifest.rs:30-40 | A parse error's text reads back to its zero-based span and its message, whether or not the `-line:col` end part is printed. |
| ManifestErrors.ParseErrorEndShown | src/manifest.rs:33-39 | The span part of a parse error's text contains a `-` (that is, the `-line:col` end part is printed) exactly when the span's start and end differ in line or column. |
| ManifestErrors.Display | src/manifest.rs:15-41 | The fixed missing-manifest text. A table error is the fixed head, the table name, then the fixed tail. A dependency error is the fixed head, the dependency name, then a tail that names the table, so both names can be read back by position. A parse error's text starts with a digit, so the four kinds are told apart by their text. The parse-error case is read back in full by `ManifestErrors.ParseErrorDisplayRoundTrip`, and `ManifestErrors.ParseErrorEndShown` states when the end part is printed. |
| ManifestErrors.ShowNat | src/manifest.rs:32-36 | A printed number is non-empty, all decimal digits, and has no leading zero. `ManifestErrors.ReadShowNat` states its value. |
| ManifestErrors.ReadShowNat | src/manifest.rs:32-36 | Reading the printed digits back gives the number printed. |
| ManifestNew.GetAllDeps | src/manifest_new.rs:32-68 | The returned list is `AllDeps`: the entries of every visited section, section by section, keys in order. |
| ManifestNew.PushEntries | src/manifest_new.rs:38-43 | Appends one entry per key, named by the key and located at the section path joined with it. |
| ManifestNew.PushSection | src/manifest_new.rs:37-45 | Appends the section's entries; nothing when the key is absent or has no key children. |
| ManifestNew.PushTargets | src/manifest_new.rs:48-64 | Appends the entries of `target.<t>.<kind>` for each target, in target order. |
| ManifestNew.VisitedSections | src/manifest_new.rs:35-63 | Visiting order: dev-, build-, then normal dependencies. Each kind's root section comes before its target sections, in target order. There are 3·(n+1) sections. |
| ManifestNew.EntriesOfMembers | src/manifest_new.rs:35-63 | An entry is listed iff some visited section has its name as a key and its path is that section's path joined with the name. |
| ManifestNew.EntriesOfLength | src/manifest_new.rs:38-61 | The list has exactly one entry per key of the visited sections. |
| ManifestNew.SectionSlice | src/manifest_new.rs:35-63 | A section's entries sit between those of the sections before it and those after it. |
| ManifestNew.AbsentSectionAddsNothing | src/manifest_new.rs:44-62 | A section that is absent or has no key children contributes nothing. |
| ManifestNew.TargetDependencyFound | src/manifest_new.rs:47-62 | A key of `target.<t>.dependencies`, for any target `t` listed under `target`, is listed at its full dotted path. |
| ManifestNew.KeysOf | src/manifest_new.rs:37-38 | When the lookup returns `Keys(c)` the keys iterated are exactly `c`. A key that is absent or has no `Keys` children yields none. |

## Left out

- Merge.MergeDependencies: the two `unreachable!` panics become preconditions. The old entry must be a string or a table. The new value must be a string or a table (`Merge.Serializable`). The panicking paths are not modelled.
- Manifest.Insert: the same panic appears as the precondition `Manifest.EntryMergeable`. It only requires the existing entry named `dep.name` in the target table to be a string or a table. An entry of that name holding anything else is the `unreachable!` case, which is not modelled. Other entries of the table are unconstrained.
- Manifest.Update: carries the same precondition `Manifest.EntryMergeable`, for the same `unreachable!` case.
- Manifest.InsertAll: requires `Manifest.EntryMergeable` for the name of every dependency in the list, for the same `unreachable!` case.
- `Dependency::to_toml`: how a dependency serializes is not modelled (`dependency.rs` is not part of this model). A dependency is its name and its serialized value. The model assumes the returned entry name equals `dep.name`, which is what `insert_into_table` relies on.
- `find`, `search`, `find_file`, `find_lock_file`, `open` and `open_lock_file`: these are filesystem lookups and I/O.
- `CargoFile::name`: a pure two-case function that only names the file (`Cargo.toml` or `Cargo.lock`) those lookups search for, so it has no role without them.
- `write_to_file`: only the header choice is modelled. TOML formatting, truncating the file and writing to it are I/O.
- `FromStr for Manifest`: TOML text parsing is not modelled. The model starts from the parsed table.
- `ManifestErrors.Display`: line and column are unbounded naturals. The `usize` overflow of `+ 1` at the maximum value is not modelled.
- `toml::value::Table` is a `BTreeMap`. Its sorted key order only affects printing, so the model uses an unordered `map`.
- Non-string, non-table TOML values (integers, booleans, arrays, datetimes) are one opaque `Other` case. The engine never looks inside them.
- ManifestNew.CombineKeys: `Children::combine_keys` belongs to the TOML parser library, which is not part of this model. It is modelled as a plain dot join, with no quoting of keys that contain dots.
- The parser of `manifest_new.rs` is modelled only by its child lookup, as a map from dotted key to children. `Manifest::open` (parsing) and `set_dep_version` (writing a value) are not modelled. The tests `open_manifest` and `try_getting_deps` read a file from disk.
- The command-line front ends (`src/bin/...`) and `lib.rs` re-exports are outside the engine.
