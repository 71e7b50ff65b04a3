/** Table-path descent. The source walks a path of table names through the
    document, creating each missing table on the way, and hands back a
    mutable reference to the table at the end. Here the walk is split into
    the table it reaches (`Descend`) and the document with a new version of
    that table written back (`Store`); writing back the table `Descend`
    returned is the document as the walk leaves it. */
module Descent {
  import opened Toml
  import opened ManifestErrors

  /** `descend`: the table at the end of `path`, a missing segment reading
      as an empty table; fails on the first segment that holds something
      other than a table. */
  function Descend(input: TomlTable, path: seq<string>): (r: Result<TomlTable, ManifestError>)
    ensures path == [] ==> r == Ok(input)
    ensures r.Err? ==> r.error.NonExistentTable? && r.error.table in path
    decreases |path|
  {
    if path == [] then Ok(input)
    else
      var segment := path[0];
      match if segment in input then input[segment] else Table(map[])
      case Table(t) => Descend(t, path[1..])
      case _ => Err(NonExistentTable(segment))
  }

  /** Every segment of `path` is present, and is a table. */
  predicate PathExists(input: TomlTable, path: seq<string>)
    ensures PathExists(input, path) ==> Descend(input, path).Ok?
    decreases |path|
  {
    path == [] || (path[0] in input && input[path[0]].Table? && PathExists(input[path[0]].t, path[1..]))
  }

  /** The table a successful descent passes through at `segment`. */
  function Child(input: TomlTable, segment: string): TomlTable
    requires segment in input ==> input[segment].Table?
  {
    if segment in input then input[segment].t else map[]
  }

  /** `input` with the table at the end of `path` replaced by `t`, every
      missing table on the way created. */
  function Store(input: TomlTable, path: seq<string>, t: TomlTable): (r: TomlTable)
    requires Descend(input, path).Ok?
    ensures Descend(r, path) == Ok(t)
    ensures PathExists(r, path)
    ensures path != [] ==> r.Keys == input.Keys + {path[0]}
    ensures path != [] ==> forall k :: k in input && k != path[0] ==> r[k] == input[k]
    decreases |path|
  {
    if path == [] then t
    else
      var segment := path[0];
      input[segment := Table(Store(Child(input, segment), path[1..], t))]
  }

  /** Where every segment already exists, writing back the table the descent
      returned gives the document back unchanged. */
  lemma {:induction false} StoreDescended(input: TomlTable, path: seq<string>)
    requires PathExists(input, path)
    ensures Descend(input, path).Ok?
    ensures Store(input, path, Descend(input, path).value) == input
    decreases |path|
  {
    if path != [] {
      StoreDescended(input[path[0]].t, path[1..]);
    }
  }

  /** Writing back twice keeps only the second write. */
  lemma {:induction false} StoreStore(input: TomlTable, path: seq<string>, t1: TomlTable, t2: TomlTable)
    requires Descend(input, path).Ok?
    ensures Store(Store(input, path, t1), path, t2) == Store(input, path, t2)
    decreases |path|
  {
    if path != [] {
      var segment := path[0];
      StoreStore(Child(input, segment), path[1..], t1, t2);
    }
  }

  /** A chain of fresh tables, one per segment, with `t` at the end. */
  function Nest(path: seq<string>, t: TomlTable): TomlTable
    decreases |path|
  {
    if path == [] then t else map[path[0] := Table(Nest(path[1..], t))]
  }

  /** Below a missing segment the descent finds only empty tables and
      creates one table per remaining segment. */
  lemma {:induction false} DescendMissing(input: TomlTable, path: seq<string>, t: TomlTable)
    requires path != [] && path[0] !in input
    ensures Descend(input, path) == Ok(map[])
    ensures Store(input, path, t) == input[path[0] := Table(Nest(path[1..], t))]
  {
    FromEmpty(path[1..], t);
  }

  lemma {:induction false} FromEmpty(path: seq<string>, t: TomlTable)
    ensures Descend(map[], path) == Ok(map[])
    ensures Store(map[], path, t) == Nest(path, t)
    decreases |path|
  {
    if path != [] {
      FromEmpty(path[1..], t);
    }
  }

  /** The descent along a path passes successfully through each of its
      prefixes. */
  lemma {:induction false} DescendPrefix(input: TomlTable, path: seq<string>, i: nat)
    requires Descend(input, path).Ok? && i <= |path|
    ensures Descend(input, path[..i]).Ok?
    decreases |path|
  {
    if i > 0 {
      var segment := path[0];
      assert path[..i][1..] == path[1..][..i - 1];
      DescendPrefix(Child(input, segment), path[1..], i - 1);
    }
  }

  /** Writing back at the end of a path leaves every key beside the path
      untouched, at every level of the walk. */
  lemma {:induction false} StoreBesidePath(input: TomlTable, path: seq<string>, t: TomlTable, i: nat, k: string)
    requires Descend(input, path).Ok?
    requires i < |path| && k != path[i]
    ensures Descend(input, path[..i]).Ok?
    ensures Descend(Store(input, path, t), path[..i]).Ok?
    ensures Get(Descend(Store(input, path, t), path[..i]).value, k)
         == Get(Descend(input, path[..i]).value, k)
    decreases |path|
  {
    DescendPrefix(input, path, i);
    var r := Store(input, path, t);
    DescendPrefix(r, path, i);
    if i > 0 {
      var segment := path[0];
      assert path[..i][1..] == path[1..][..i - 1];
      StoreBesidePath(Child(input, segment), path[1..], t, i - 1, k);
    }
  }

  /** The converse: reaching a segment that exists and holds something other
      than a table makes the descent fail, naming that segment. */
  lemma {:induction false} BlockedFails(input: TomlTable, path: seq<string>, i: nat)
    requires i < |path| && PathExists(input, path[..i])
    requires var t := Descend(input, path[..i]).value;
             path[i] in t && !t[path[i]].Table?
    ensures Descend(input, path) == Err(NonExistentTable(path[i]))
    decreases i
  {
    if i > 0 {
      assert path[..i][1..] == path[1..][..i - 1];
      assert path[..i][0] == path[0];
      BlockedFails(input[path[0]].t, path[1..], i - 1);
    }
  }

  /** A failed descent stops at a segment that exists and holds something
      other than a table, and every segment before it already existed: the
      walk created nothing before it failed. */
  lemma {:induction false} DescendFailure(input: TomlTable, path: seq<string>) returns (i: nat)
    requires Descend(input, path).Err?
    ensures i < |path|
    ensures PathExists(input, path[..i])
    ensures Descend(input, path[..i]).Ok?
    ensures var t := Descend(input, path[..i]).value;
            path[i] in t && !t[path[i]].Table?
    ensures Descend(input, path).error == NonExistentTable(path[i])
    decreases |path|
  {
    var segment := path[0];
    if segment in input && input[segment].Table? {
      var j := DescendFailure(input[segment].t, path[1..]);
      i := j + 1;
      assert path[..i][1..] == path[1..][..j];
      assert path[..i][0] == segment;
    } else if segment in input {
      i := 0;
    } else {
      FromEmpty(path[1..], map[]);
      assert false;
    }
  }
}
