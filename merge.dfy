/** Folding a newly computed dependency entry into an existing one. */
module Merge {
  import opened Toml

  /** A dependency as the engine uses it: its name and the value
      `Dependency::to_toml` serializes it to. How that value is computed from
      the dependency's fields is not part of this model. */
  datatype Dependency = Dependency(name: string, serialized: Value)

  /** `Dependency::to_toml`: the entry name and the serialized value. */
  function ToToml(d: Dependency): (string, Value) {
    (d.name, d.serialized)
  }

  /** What the engine assumes of a serialized dependency: a plain version is
      a string, everything else a table. */
  predicate Serializable(d: Dependency) {
    d.serialized.Str? || d.serialized.Table?
  }

  /** The shapes an existing entry may have for the merge to be defined. */
  predicate Mergeable(v: Value) {
    v.Str? || v.Table?
  }

  /** The keys that say where a dependency comes from. */
  const SourceKeys: set<string> := {"version", "path", "git"}

  /** An old entry that is only a version, path or git source: a bare string
      or a table with exactly one key. */
  predicate Replaceable(oldDep: Value) {
    oldDep.Str? || (oldDep.Table? && |oldDep.t| == 1)
  }

  /** The fields a new dependency contributes to a table entry: its table,
      or its plain version under `version`. Read as an entry, they say what
      the serialized value says. */
  function NewFields(d: Dependency): (f: TomlTable)
    requires Serializable(d)
    ensures Normalize(Table(f)) == Normalize(d.serialized)
  {
    if d.serialized.Str? then map["version" := d.serialized] else d.serialized.t
  }

  /** `merge_dependencies`: the new value of an existing entry once `new`
      has been folded into it. */
  function MergeDependencies(oldDep: Value, newDep: Dependency): (r: Value)
    requires Mergeable(oldDep) && Serializable(newDep)
    ensures Mergeable(r)
    ensures Replaceable(oldDep) ==> r == newDep.serialized
    ensures !Replaceable(oldDep) ==> r.Table?
    ensures !Replaceable(oldDep) ==> r.t.Keys == (oldDep.t.Keys - SourceKeys) + NewFields(newDep).Keys
  {
    if Replaceable(oldDep) then
      newDep.serialized
    else
      var stripped := oldDep.t - SourceKeys;
      match newDep.serialized
      case Table(n) => Table(stripped + n)
      case Str(_) => Table(stripped["version" := newDep.serialized])
  }

  /** On a table entry without exactly one key (an empty one included) every field the new dependency carries wins. */
  lemma MergeNewFieldsWin(oldDep: Value, newDep: Dependency, k: string)
    requires Mergeable(oldDep) && Serializable(newDep) && !Replaceable(oldDep)
    requires k in NewFields(newDep)
    ensures MergeDependencies(oldDep, newDep).t[k] == NewFields(newDep)[k]
  {
  }

  /** On a table entry without exactly one key (an empty one included) every field that is neither a source key nor
      carried by the new dependency survives unchanged (`features`,
      `optional`, `default-features`, ...). */
  lemma MergeKeepsAncillaryFields(oldDep: Value, newDep: Dependency, k: string)
    requires Mergeable(oldDep) && Serializable(newDep) && !Replaceable(oldDep)
    requires k in oldDep.t && k !in SourceKeys && k !in NewFields(newDep)
    ensures k in MergeDependencies(oldDep, newDep).t
    ensures MergeDependencies(oldDep, newDep).t[k] == oldDep.t[k]
  {
  }

  /** On a table entry without exactly one key (an empty one included) a source key of the old entry never survives
      unless the new dependency sets it again. */
  lemma MergeDropsOldSource(oldDep: Value, newDep: Dependency, k: string)
    requires Mergeable(oldDep) && Serializable(newDep) && !Replaceable(oldDep)
    requires k in SourceKeys
    ensures k in MergeDependencies(oldDep, newDep).t <==> k in NewFields(newDep)
  {
  }

  /** Reads a table holding nothing but a string `version` as that bare
      string: the two shapes say the same thing. */
  function Normalize(v: Value): (r: Value)
    ensures r == v || (v.Table? && v.t.Keys == {"version"} && r == v.t["version"])
  {
    if v.Table? && v.t.Keys == {"version"} && v.t["version"].Str? then v.t["version"] else v
  }

  /** A table of exactly one entry has exactly that entry's key. */
  lemma SingleKey(m: TomlTable, k: string)
    requires |m| == 1 && k in m
    ensures m.Keys == {k}
  {
    var rest := m.Keys - {k};
    assert |rest| == 0;
  }

  /** Overlaying the same fields a second time, after stripping the source
      keys again, changes nothing. */
  lemma OverlayTwice(stripped: TomlTable, f: TomlTable)
    requires stripped.Keys !! SourceKeys
    ensures ((stripped + f) - SourceKeys) + f == stripped + f
  {
  }

  /** What a merge into a table entry without exactly one key produces: the stripped old fields
      overlaid with the new ones. */
  lemma MergeIsOverlay(oldDep: Value, newDep: Dependency)
    requires Mergeable(oldDep) && Serializable(newDep) && !Replaceable(oldDep)
    ensures MergeDependencies(oldDep, newDep) == Table((oldDep.t - SourceKeys) + NewFields(newDep))
  {
    var stripped := oldDep.t - SourceKeys;
    if newDep.serialized.Str? {
      assert stripped["version" := newDep.serialized] == stripped + NewFields(newDep);
    }
  }

  /** Merging the same dependency twice gives what merging it once gave, up
      to the `{version = v}` / `v` equivalence; exactly so when the new
      dependency serializes as a non-empty table. */
  lemma {:induction false} MergeIdempotent(oldDep: Value, newDep: Dependency)
    requires Mergeable(oldDep) && Serializable(newDep)
    requires newDep.serialized.Table? ==> newDep.serialized.t != map[]
    ensures var once := MergeDependencies(oldDep, newDep);
            Normalize(MergeDependencies(once, newDep)) == Normalize(once)
    ensures newDep.serialized.Table? ==>
              MergeDependencies(MergeDependencies(oldDep, newDep), newDep) == MergeDependencies(oldDep, newDep)
  {
    var once := MergeDependencies(oldDep, newDep);
    var f := NewFields(newDep);
    if !Replaceable(once) {
      MergeIsOverlay(once, newDep);
      if Replaceable(oldDep) {
        assert once.t == f;
        OverlayTwice(map[], f);
        assert (map[] + f) == f;
      } else {
        MergeIsOverlay(oldDep, newDep);
        OverlayTwice(oldDep.t - SourceKeys, f);
      }
    } else if !Replaceable(oldDep) {
      MergeIsOverlay(oldDep, newDep);
      assert once.t == (oldDep.t - SourceKeys) + f;
      var k :| k in f;
      SingleKey(once.t, k);
      assert f.Keys == {k};
      if newDep.serialized.Table? {
        assert once.t == f;
      } else {
        assert once.t == map["version" := newDep.serialized];
      }
    }
  }

  /** A table with one key that is not a source key is still replaced
      wholesale: merging a plain version into `{optional = true}` drops the
      `optional` flag. */
  lemma LoneAncillaryKeyIsReplaced()
    ensures var oldDep := Table(map["optional" := Other("true")]);
            var r := MergeDependencies(oldDep, Dependency("serde", Str("1.0")));
            r == Str("1.0")
  {
    var oldDep := Table(map["optional" := Other("true")]);
    assert oldDep.t.Keys == {"optional"};
  }

  /** A version bump keeps the feature list: `{version = "1.0",
      features = ["a"]}` merged with the plain version "2.0" is
      `{version = "2.0", features = ["a"]}`. */
  lemma VersionBumpKeepsFeatures()
    ensures var oldDep := Table(map["version" := Str("1.0"), "features" := Other("[\"a\"]")]);
            MergeDependencies(oldDep, Dependency("x", Str("2.0")))
              == Table(map["version" := Str("2.0"), "features" := Other("[\"a\"]")])
  {
    var oldDep := Table(map["version" := Str("1.0"), "features" := Other("[\"a\"]")]);
    assert "version" != "features";
    assert oldDep.t.Keys == {"version", "features"};
    assert |oldDep.t.Keys| == 2;
    var r := MergeDependencies(oldDep, Dependency("x", Str("2.0")));
    assert r.t == map["version" := Str("2.0"), "features" := Other("[\"a\"]")];
  }

  /** A bare old version is replaced by the full new table: `"1.0"` merged
      with `{version = "2.0", features = ["a"]}` is that table. */
  lemma TrivialOldIsReplaced()
    ensures var newDep := Table(map["version" := Str("2.0"), "features" := Other("[\"a\"]")]);
            MergeDependencies(Str("1.0"), Dependency("x", newDep)) == newDep
  {
  }
}
