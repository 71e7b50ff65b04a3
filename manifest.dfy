/** The manifest document and the edits made to its dependency tables. */
module Manifest {
  import opened Toml
  import opened ManifestErrors
  import opened Merge
  import opened Descent

  /** The outcome of an edit together with the document it leaves behind. */
  datatype Edit = Edit(outcome: Outcome<ManifestError>, data: TomlTable)

  /** An existing entry called `name` at the end of `path`, if there is one,
      is a string or a table (the merge treats anything else as a bug). */
  predicate EntryMergeable(data: TomlTable, path: seq<string>, name: string) {
    match Descend(data, path)
    case Ok(t) => name in t ==> Mergeable(t[name])
    case Err(_) => true
  }

  /** The value the entry called `dep.name` holds after `dep` is added to
      table `t`: the merge when an entry exists, else the fresh value. */
  function Added(t: TomlTable, dep: Dependency): (v: Value)
    requires Serializable(dep) && (dep.name in t ==> Mergeable(t[dep.name]))
    ensures Mergeable(v)
    ensures dep.name !in t ==> v == ToToml(dep).1
  {
    if dep.name in t then MergeDependencies(t[dep.name], dep) else ToToml(dep).1
  }

  /** `insert_into_table`. */
  function Insert(data: TomlTable, path: seq<string>, dep: Dependency): (r: Edit)
    requires Serializable(dep) && EntryMergeable(data, path, dep.name)
    ensures r.outcome.Fail? <==> Descend(data, path).Err?
    ensures r.outcome.Fail? ==> r.outcome.error == Descend(data, path).error && r.data == data
    ensures r.outcome.Pass? ==>
              var t := Descend(data, path).value;
              Descend(r.data, path) == Ok(t[dep.name := Added(t, dep)])
    ensures r.outcome.Pass? ==> PathExists(r.data, path)
  {
    match Descend(data, path)
    case Err(e) => Edit(Fail(e), data)
    case Ok(t) => Edit(Pass, Store(data, path, t[dep.name := Added(t, dep)]))
  }

  /** `update_table_entry`. */
  function Update(data: TomlTable, path: seq<string>, dep: Dependency): (r: Edit)
    requires Serializable(dep) && EntryMergeable(data, path, dep.name)
    ensures r.outcome.Fail? <==> Descend(data, path).Err?
    ensures r.outcome.Fail? ==> r.outcome.error == Descend(data, path).error && r.data == data
    ensures r.outcome.Pass? ==>
              var t := Descend(data, path).value;
              Descend(r.data, path) == Ok(if dep.name in t then t[dep.name := Added(t, dep)] else t)
    ensures r.outcome.Pass? ==> PathExists(r.data, path)
  {
    match Descend(data, path)
    case Err(e) => Edit(Fail(e), data)
    case Ok(t) =>
      var t' := if dep.name in t then t[dep.name := MergeDependencies(t[dep.name], dep)] else t;
      Edit(Pass, Store(data, path, t'))
  }

  /** `remove_from_table`. */
  function Remove(data: TomlTable, table: string, name: string): (r: Edit)
    ensures table !in data || !data[table].Table? ==> r == Edit(Fail(NonExistentTable(table)), data)
    ensures table in data && data[table].Table? ==>
              var deps := data[table].t;
              && r.outcome == (if name in deps then Pass else Fail(NonExistentDependency(name, table)))
              && (table in r.data <==> deps.Keys - {name} != {})
              && (table in r.data ==> r.data[table] == Table(deps - {name}))
    ensures forall k :: k != table ==> Get(r.data, k) == Get(data, k)
  {
    if table !in data then Edit(Fail(NonExistentTable(table)), data)
    else match data[table]
      case Table(deps) =>
        var result := if name in deps then Pass else Fail(NonExistentDependency(name, table));
        var left := deps - {name};
        if left == map[] then Edit(result, data - {table}) else Edit(result, data[table := Table(left)])
      case _ => Edit(Fail(NonExistentTable(table)), data)
  }

  /** An insert keeps every existing entry mergeable. */
  lemma InsertKeepsMergeable(data: TomlTable, path: seq<string>, dep: Dependency, rest: seq<Dependency>)
    requires Serializable(dep) && EntryMergeable(data, path, dep.name)
    requires forall d :: d in rest ==> EntryMergeable(data, path, d.name)
    ensures forall d :: d in rest ==> EntryMergeable(Insert(data, path, dep).data, path, d.name)
  {
  }

  /** `add_deps`: insert each dependency in turn, stopping at the first
      failure and keeping the inserts made before it. */
  function InsertAll(data: TomlTable, path: seq<string>, deps: seq<Dependency>): (r: Edit)
    requires forall d :: d in deps ==> Serializable(d) && EntryMergeable(data, path, d.name)
    ensures r.outcome.Fail? ==> Descend(data, path).Err? && r == Edit(Fail(Descend(data, path).error), data)
    decreases |deps|
  {
    if deps == [] then Edit(Pass, data)
    else
      var step := Insert(data, path, deps[0]);
      if step.outcome.Fail? then step
      else
        InsertKeepsMergeable(data, path, deps[0], deps[1..]);
        InsertAll(step.data, path, deps[1..])
  }

  /** The names of a list of dependencies. */
  function Names(deps: seq<Dependency>): (s: set<string>)
    ensures forall d :: d in deps ==> d.name in s
  {
    set d | d in deps :: d.name
  }

  /** `add_deps` can only fail on the table path, and then on its very first
      insert, leaving the document as it was; otherwise every name ends up in
      the target table and every other entry there is untouched. */
  lemma {:induction false} InsertAllOutcome(data: TomlTable, path: seq<string>, deps: seq<Dependency>)
    requires forall d :: d in deps ==> Serializable(d) && EntryMergeable(data, path, d.name)
    ensures var r := InsertAll(data, path, deps);
            r.outcome.Fail? <==> deps != [] && Descend(data, path).Err?
    ensures var r := InsertAll(data, path, deps);
            r.outcome.Fail? ==> r.data == data && r.outcome.error == Descend(data, path).error
    ensures var r := InsertAll(data, path, deps);
            Descend(data, path).Ok? ==>
              && Descend(r.data, path).Ok?
              && var before, after := Descend(data, path).value, Descend(r.data, path).value;
                 && after.Keys == before.Keys + Names(deps)
                 && forall k :: k in before && k !in Names(deps) ==> after[k] == before[k]
    decreases |deps|
  {
    if deps != [] {
      var step := Insert(data, path, deps[0]);
      if step.outcome.Pass? {
        InsertKeepsMergeable(data, path, deps[0], deps[1..]);
        InsertAllOutcome(step.data, path, deps[1..]);
        NamesCons(deps);
      }
    }
  }

  /** A batch insert leaves every key beside the table path untouched, at
      every level of the walk. */
  lemma {:induction false} InsertAllBesidePath(data: TomlTable, path: seq<string>, deps: seq<Dependency>, i: nat, k: string)
    requires forall d :: d in deps ==> Serializable(d) && EntryMergeable(data, path, d.name)
    requires Descend(data, path).Ok?
    requires i < |path| && k != path[i]
    ensures var r := InsertAll(data, path, deps).data;
            Descend(r, path[..i]).Ok? && Descend(data, path[..i]).Ok?
            && Get(Descend(r, path[..i]).value, k) == Get(Descend(data, path[..i]).value, k)
    decreases |deps|
  {
    DescendPrefix(data, path, i);
    if deps != [] {
      InsertBesidePath(data, path, deps[0], i, k);
      InsertKeepsMergeable(data, path, deps[0], deps[1..]);
      InsertAllBesidePath(Insert(data, path, deps[0]).data, path, deps[1..], i, k);
    }
  }

  /** A name that occurs once in the batch ends up holding what inserting
      that dependency alone into the original table gives: the merge with
      the old entry, or the fresh value. */
  lemma {:induction false} InsertAllValue(data: TomlTable, path: seq<string>, deps: seq<Dependency>, j: nat)
    requires forall d :: d in deps ==> Serializable(d) && EntryMergeable(data, path, d.name)
    requires Descend(data, path).Ok?
    requires j < |deps| && UniqueAt(deps, j)
    ensures Descend(InsertAll(data, path, deps).data, path).Ok?
    ensures var t := Descend(data, path).value;
            var after := Descend(InsertAll(data, path, deps).data, path).value;
            deps[j].name in after && after[deps[j].name] == Added(t, deps[j])
    decreases |deps|
  {
    var t := Descend(data, path).value;
    var step := Insert(data, path, deps[0]);
    InsertKeepsMergeable(data, path, deps[0], deps[1..]);
    InsertAllOutcome(step.data, path, deps[1..]);
    if j == 0 {
      UniqueHead(deps);
    } else {
      UniqueTail(deps, j);
      InsertAllValue(step.data, path, deps[1..], j - 1);
    }
  }

  /** `deps[j].name` occurs nowhere else in `deps`. */
  predicate UniqueAt(deps: seq<Dependency>, j: nat)
    requires j < |deps|
  {
    forall m :: 0 <= m < |deps| && m != j ==> deps[m].name != deps[j].name
  }

  lemma UniqueHead(deps: seq<Dependency>)
    requires deps != [] && UniqueAt(deps, 0)
    ensures deps[0].name !in Names(deps[1..])
  {
    forall d | d in deps[1..] ensures d.name != deps[0].name {
      var m :| 0 <= m < |deps[1..]| && deps[1..][m] == d;
      assert deps[m + 1] == d;
    }
  }

  lemma UniqueTail(deps: seq<Dependency>, j: nat)
    requires 0 < j < |deps| && UniqueAt(deps, j)
    ensures deps[1..][j - 1] == deps[j] && deps[0].name != deps[j].name
    ensures UniqueAt(deps[1..], j - 1)
  {
    forall m | 0 <= m < |deps[1..]| && m != j - 1 ensures deps[1..][m].name != deps[1..][j - 1].name {
      assert deps[1..][m] == deps[m + 1];
    }
  }

  lemma NamesCons(deps: seq<Dependency>)
    requires deps != []
    ensures Names(deps) == {deps[0].name} + Names(deps[1..])
  {
    assert forall d :: d in deps <==> d == deps[0] || d in deps[1..];
  }

  /** With every segment of the path present, updating a name the target
      table does not hold leaves the document exactly as it was. */
  lemma UpdateAbsentIsNoOp(data: TomlTable, path: seq<string>, dep: Dependency)
    requires Serializable(dep) && PathExists(data, path)
    requires dep.name !in Descend(data, path).value
    ensures Update(data, path, dep) == Edit(Pass, data)
  {
    StoreDescended(data, path);
  }

  /** An update never adds an entry: the name is in the target table
      afterwards exactly when it was before. */
  lemma UpdateNeverAdds(data: TomlTable, path: seq<string>, dep: Dependency)
    requires Serializable(dep) && EntryMergeable(data, path, dep.name)
    requires Descend(data, path).Ok?
    ensures var after := Descend(Update(data, path, dep).data, path).value;
            after.Keys == Descend(data, path).value.Keys
  {
  }

  /** A successful insert leaves every key beside the table path untouched,
      at every level of the walk. */
  lemma InsertBesidePath(data: TomlTable, path: seq<string>, dep: Dependency, i: nat, k: string)
    requires Serializable(dep) && EntryMergeable(data, path, dep.name)
    requires Descend(data, path).Ok?
    requires i < |path| && k != path[i]
    ensures var r := Insert(data, path, dep).data;
            Descend(r, path[..i]).Ok? && Descend(data, path[..i]).Ok?
            && Get(Descend(r, path[..i]).value, k) == Get(Descend(data, path[..i]).value, k)
  {
    var t := Descend(data, path).value;
    StoreBesidePath(data, path, t[dep.name := Added(t, dep)], i, k);
  }

  /** A successful update leaves every key beside the table path
      untouched, at every level of the walk. */
  lemma UpdateBesidePath(data: TomlTable, path: seq<string>, dep: Dependency, i: nat, k: string)
    requires Serializable(dep) && EntryMergeable(data, path, dep.name)
    requires Descend(data, path).Ok?
    requires i < |path| && k != path[i]
    ensures var r := Update(data, path, dep).data;
            Descend(r, path[..i]).Ok? && Descend(data, path[..i]).Ok?
            && Get(Descend(r, path[..i]).value, k) == Get(Descend(data, path[..i]).value, k)
  {
    var t := Descend(data, path).value;
    StoreBesidePath(data, path, if dep.name in t then t[dep.name := Added(t, dep)] else t, i, k);
  }

  /** Removing a dependency just inserted into a top-level table gives the
      document back, unless that table was present but empty (the removal
      then deletes it). */
  lemma InsertRemoveRoundTrip(data: TomlTable, table: string, dep: Dependency)
    requires Serializable(dep)
    requires table in data ==> data[table].Table? && dep.name !in data[table].t && data[table].t != map[]
    ensures Insert(data, [table], dep).outcome == Pass
    ensures Remove(Insert(data, [table], dep).data, table, dep.name) == Edit(Pass, data)
  {
    var inserted := Insert(data, [table], dep).data;
    var deps := Child(data, table);
    assert Descend(data, [table]) == Ok(deps);
    assert inserted[table] == Table(deps[dep.name := ToToml(dep).1]);
    assert deps[dep.name := ToToml(dep).1] - {dep.name} == deps;
    var r := Remove(inserted, table, dep.name);
    if table in data {
      assert r.data == data;
    } else {
      assert inserted == data[table := Table(map[dep.name := ToToml(dep).1])];
      assert r.data == data;
    }
  }

  /** The case the round trip excludes: a dependency table that is present
      but empty is deleted by the removal, so the document does not come
      back. */
  lemma EmptyTableInsertRemove(dep: Dependency)
    requires Serializable(dep)
    ensures var data := map["dependencies" := Table(map[])];
            Remove(Insert(data, ["dependencies"], dep).data, "dependencies", dep.name) == Edit(Pass, map[])
  {
    var data := map["dependencies" := Table(map[])];
    assert Descend(data, ["dependencies"]) == Ok(map[]);
    var inserted := Insert(data, ["dependencies"], dep).data;
    assert inserted == map["dependencies" := Table(map[dep.name := ToToml(dep).1])];
    assert map[dep.name := ToToml(dep).1] - {dep.name} == map[];
  }

  /** On an empty manifest: insert a fresh dependency into `dependencies`,
      remove it, and the manifest is empty again; a second removal fails. */
  lemma EmptyManifestAddRemove(dep: Dependency)
    requires Serializable(dep)
    ensures var added := Insert(map[], ["dependencies"], dep);
            var removed := Remove(added.data, "dependencies", dep.name);
            && added.outcome.Pass?
            && removed == Edit(Pass, map[])
            && Remove(removed.data, "dependencies", dep.name).outcome
               == Fail(NonExistentTable("dependencies"))
  {
    InsertRemoveRoundTrip(map[], "dependencies", dep);
  }

  /** The header table `write_to_file` puts first, and the document without it. */
  datatype Header = Header(name: string, body: Value, rest: TomlTable)

  /** The header choice of `write_to_file`: `package`, else `project`, else
      the manifest is missing. */
  function SplitHeader(data: TomlTable): (r: Result<Header, ManifestError>)
    ensures r.Err? <==> "package" !in data && "project" !in data
    ensures r.Err? ==> r.error == MissingManifest
    ensures r.Ok? ==> (r.value.name == "package" <==> "package" in data)
    ensures r.Ok? ==> r.value.name == "package" || r.value.name == "project"
    ensures r.Ok? ==> r.value.name !in r.value.rest && r.value.rest[r.value.name := r.value.body] == data
  {
    if "package" in data then Ok(Header("package", data["package"], data - {"package"}))
    else if "project" in data then Ok(Header("project", data["project"], data - {"project"}))
    else Err(MissingManifest)
  }

  /** A Cargo manifest: the parsed document, edited in place. */
  class Manifest {
    var data: TomlTable

    constructor (data: TomlTable)
      ensures this.data == data
    {
      this.data := data;
    }

    /** Add an entry: merge into an existing one, or insert it fresh. */
    method InsertIntoTable(tablePath: seq<string>, dep: Dependency) returns (res: Outcome<ManifestError>)
      requires Serializable(dep) && EntryMergeable(data, tablePath, dep.name)
      modifies this
      ensures Edit(res, data) == Insert(old(data), tablePath, dep)
    {
      var found := Descend(data, tablePath);
      if found.Err? {
        return Fail(found.error);
      }
      var table := found.value;
      if dep.name in table {
        table := table[dep.name := MergeDependencies(table[dep.name], dep)];
      } else {
        var (name, value) := ToToml(dep);
        table := table[name := value];
      }
      data := Store(data, tablePath, table);
      res := Pass;
    }

    /** Merge into an entry if, and only if, it exists. */
    method UpdateTableEntry(tablePath: seq<string>, dep: Dependency) returns (res: Outcome<ManifestError>)
      requires Serializable(dep) && EntryMergeable(data, tablePath, dep.name)
      modifies this
      ensures Edit(res, data) == Update(old(data), tablePath, dep)
    {
      var found := Descend(data, tablePath);
      if found.Err? {
        return Fail(found.error);
      }
      var table := found.value;
      if dep.name in table {
        table := table[dep.name := MergeDependencies(table[dep.name], dep)];
      }
      data := Store(data, tablePath, table);
      res := Pass;
    }

    /** Remove an entry from a top-level table, deleting the table once it
      is empty. */
    method RemoveFromTable(table: string, name: string) returns (res: Outcome<ManifestError>)
      modifies this
      ensures Edit(res, data) == Remove(old(data), table, name)
    {
      if table !in data {
        return Fail(NonExistentTable(table));
      }
      var section := data[table];
      match section {
        case Table(deps) =>
          if name in deps {
            res := Pass;
          } else {
            res := Fail(NonExistentDependency(name, table));
          }
          section := Table(deps - {name});
          data := data[table := section];
        case _ =>
          res := Fail(NonExistentTable(table));
      }
      if section.Table? && section.t == map[] {
        data := data - {table};
      }
    }

    /** Insert several dependencies in order, stopping at the first error. */
    method AddDeps(table: seq<string>, deps: seq<Dependency>) returns (res: Outcome<ManifestError>)
      requires forall d :: d in deps ==> Serializable(d) && EntryMergeable(data, table, d.name)
      modifies this
      ensures Edit(res, data) == InsertAll(old(data), table, deps)
    {
      var i := 0;
      while i < |deps|
        invariant 0 <= i <= |deps|
        invariant forall d :: d in deps[i..] ==> Serializable(d) && EntryMergeable(data, table, d.name)
        invariant InsertAll(old(data), table, deps) == InsertAll(data, table, deps[i..])
      {
        assert deps[i..][0] == deps[i] && deps[i..][1..] == deps[i + 1..];
        InsertKeepsMergeable(data, table, deps[i], deps[i + 1..]);
        res := InsertIntoTable(table, deps[i]);
        if res.Fail? {
          return;
        }
        i := i + 1;
      }
      res := Pass;
    }
  }
}
