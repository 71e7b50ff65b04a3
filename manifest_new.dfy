/** The enumeration of every dependency entry of a manifest, over the key
    tree a TOML parser exposes: for each dotted key path, its children. */
module ManifestNew {
  import opened Toml

  /** The children of a key: a count (for an array) or the names of the
      keys below it, in document order. */
  datatype Children = Count(count: nat) | Keys(keys: seq<string>)

  /** The parsed document, seen through its child lookup. */
  type Parser = map<string, Children>

  /** One dependency entry: its name and the full dotted key path to it. */
  datatype Dependency = Dependency(name: string, path: string)

  /** The section kinds, in the order they are visited. */
  const DependencyTypes: seq<string> := ["dev-dependencies", "build-dependencies", "dependencies"]

  /** Joins a key path and a key with a dot. */
  function CombineKeys(prefix: string, key: string): string {
    prefix + "." + key
  }

  function GetChildren(parser: Parser, key: string): Option<Children> {
    if key in parser then Some(parser[key]) else None
  }

  /** The keys below `key`; none when it is absent or has no key children. */
  function KeysOf(parser: Parser, key: string): (ks: seq<string>)
    ensures ks != [] ==> GetChildren(parser, key) == Some(Keys(ks))
    ensures HasKeys(parser, key) ==> ks == parser[key].keys
    ensures !HasKeys(parser, key) ==> ks == []
  {
    match GetChildren(parser, key)
    case Some(Keys(ks)) => ks
    case _ => []
  }

  /** The lookup of `key` returns a list of key children. */
  predicate HasKeys(parser: Parser, key: string) {
    key in parser && parser[key].Keys?
  }

  /** `target.<target>.<kind>`. */
  function TargetSection(target: string, kind: string): string {
    CombineKeys(CombineKeys("target", target), kind)
  }

  function TargetSections(targets: seq<string>, kind: string): (r: seq<string>)
    ensures |r| == |targets|
    ensures forall j :: 0 <= j < |targets| ==> r[j] == TargetSection(targets[j], kind)
  {
    seq(|targets|, j requires 0 <= j < |targets| => TargetSection(targets[j], kind))
  }

  /** The sections visited for one kind: the root one, then one per target. */
  function KindSections(parser: Parser, kind: string): seq<string> {
    [kind] + TargetSections(KeysOf(parser, "target"), kind)
  }

  function SectionsOf(parser: Parser, kinds: seq<string>): seq<string>
    decreases |kinds|
  {
    if kinds == [] then []
    else SectionsOf(parser, kinds[..|kinds| - 1]) + KindSections(parser, kinds[|kinds| - 1])
  }

  /** Every section the enumeration visits, in visiting order: the three
      kinds in turn, and for each the root section before the target ones,
      targets in the order `target` lists them. */
  function VisitedSections(parser: Parser): (r: seq<string>)
    ensures var ts := KeysOf(parser, "target");
            var n := |ts|;
            && |r| == 3 * (n + 1)
            && r[0] == "dev-dependencies"
            && r[n + 1] == "build-dependencies"
            && r[2 * (n + 1)] == "dependencies"
            && forall j :: 0 <= j < n ==>
                 && r[1 + j] == TargetSection(ts[j], "dev-dependencies")
                 && r[n + 2 + j] == TargetSection(ts[j], "build-dependencies")
                 && r[2 * n + 3 + j] == TargetSection(ts[j], "dependencies")
  {
    var ts := KeysOf(parser, "target");
    var dev := KindSections(parser, "dev-dependencies");
    var build := KindSections(parser, "build-dependencies");
    var normal := KindSections(parser, "dependencies");
    KindSectionsAt(parser, "dev-dependencies");
    KindSectionsAt(parser, "build-dependencies");
    KindSectionsAt(parser, "dependencies");
    ThreeParts(dev, build, normal, |ts| + 1);
    dev + build + normal
  }

  /** The sections of one kind: the root one, then one per target. */
  lemma KindSectionsAt(parser: Parser, kind: string)
    ensures var ts := KeysOf(parser, "target");
            var r := KindSections(parser, kind);
            && |r| == |ts| + 1 && r[0] == kind
            && forall j :: 0 <= j < |ts| ==> r[1 + j] == TargetSection(ts[j], kind)
  {
  }

  /** Indexing into three concatenated sequences of length `m` each. */
  lemma ThreeParts<T>(a: seq<T>, b: seq<T>, c: seq<T>, m: nat)
    requires |a| == |b| == |c| == m
    ensures |a + b + c| == 3 * m
    ensures forall i :: 0 <= i < m ==> (a + b + c)[i] == a[i] && (a + b + c)[m + i] == b[i] && (a + b + c)[2 * m + i] == c[i]
  {
  }

  lemma SectionsOfSnoc(parser: Parser, kinds: seq<string>, i: nat)
    requires i < |kinds|
    ensures SectionsOf(parser, kinds[..i + 1]) == SectionsOf(parser, kinds[..i]) + KindSections(parser, kinds[i])
  {
    assert kinds[..i + 1][..i] == kinds[..i];
  }

  /** Folding `KindSections` over the three kinds, as the loop does, gives
      the visited sections. */
  lemma ThreeKinds(parser: Parser)
    ensures SectionsOf(parser, DependencyTypes)
         == KindSections(parser, "dev-dependencies")
          + KindSections(parser, "build-dependencies")
          + KindSections(parser, "dependencies")
  {
    var d := DependencyTypes;
    assert d[0] == "dev-dependencies" && d[1] == "build-dependencies" && d[2] == "dependencies";
    SectionsOfThree(parser, d);
  }

  lemma SectionsOfThree(parser: Parser, kinds: seq<string>)
    requires |kinds| == 3
    ensures SectionsOf(parser, kinds)
         == KindSections(parser, kinds[0]) + KindSections(parser, kinds[1]) + KindSections(parser, kinds[2])
  {
    var a, b, c := KindSections(parser, kinds[0]), KindSections(parser, kinds[1]), KindSections(parser, kinds[2]);
    assert SectionsOf(parser, kinds[..0]) == [] by { assert kinds[..0] == []; }
    SectionsOfSnoc(parser, kinds, 0);
    assert SectionsOf(parser, kinds[..1]) == a;
    SectionsOfSnoc(parser, kinds, 1);
    assert SectionsOf(parser, kinds[..2]) == a + b;
    SectionsOfSnoc(parser, kinds, 2);
    assert kinds[..3] == kinds;
  }

  /** The entries of one section, in key order. */
  function Entries(section: string, keys: seq<string>): (r: seq<Dependency>)
    ensures |r| == |keys|
    ensures forall i :: 0 <= i < |keys| ==> r[i] == Dependency(keys[i], CombineKeys(section, keys[i]))
  {
    seq(|keys|, i requires 0 <= i < |keys| => Dependency(keys[i], CombineKeys(section, keys[i])))
  }

  function SectionEntries(parser: Parser, section: string): seq<Dependency> {
    Entries(section, KeysOf(parser, section))
  }

  /** The entries of a list of sections, section after section. */
  function EntriesOf(parser: Parser, sections: seq<string>): seq<Dependency>
    decreases |sections|
  {
    if sections == [] then []
    else EntriesOf(parser, sections[..|sections| - 1]) + SectionEntries(parser, sections[|sections| - 1])
  }

  /** What `get_all_deps` returns. */
  function AllDeps(parser: Parser): seq<Dependency> {
    EntriesOf(parser, VisitedSections(parser))
  }

  /** The number of keys over a list of sections. */
  function KeyCount(parser: Parser, sections: seq<string>): nat
    decreases |sections|
  {
    if sections == [] then 0
    else KeyCount(parser, sections[..|sections| - 1]) + |KeysOf(parser, sections[|sections| - 1])|
  }

  lemma EntriesOfSnoc(parser: Parser, sections: seq<string>, s: string)
    ensures EntriesOf(parser, sections + [s]) == EntriesOf(parser, sections) + SectionEntries(parser, s)
  {
    assert (sections + [s])[..|sections|] == sections;
  }

  /** The entries of two lists of sections are those of the first followed
      by those of the second. */
  lemma {:induction false} EntriesOfAppend(parser: Parser, a: seq<string>, b: seq<string>)
    ensures EntriesOf(parser, a + b) == EntriesOf(parser, a) + EntriesOf(parser, b)
    decreases |b|
  {
    if b == [] {
      assert a + b == a;
    } else {
      var b' := b[..|b| - 1];
      var last := b[|b| - 1];
      assert a + b == (a + b') + [last];
      assert b == b' + [last];
      calc {
        EntriesOf(parser, a + b);
        { EntriesOfSnoc(parser, a + b', last); }
        EntriesOf(parser, a + b') + SectionEntries(parser, last);
        { EntriesOfAppend(parser, a, b'); }
        EntriesOf(parser, a) + EntriesOf(parser, b') + SectionEntries(parser, last);
        { EntriesOfSnoc(parser, b', last); }
        EntriesOf(parser, a) + EntriesOf(parser, b);
      }
    }
  }

  /** Ordering: the entries of the section at position `i` sit exactly
      between those of the sections before it and those after it. */
  lemma SectionSlice(parser: Parser, sections: seq<string>, i: nat)
    requires i < |sections|
    ensures EntriesOf(parser, sections)
         == EntriesOf(parser, sections[..i]) + SectionEntries(parser, sections[i]) + EntriesOf(parser, sections[i + 1..])
  {
    assert sections == sections[..i] + [sections[i]] + sections[i + 1..];
    EntriesOfAppend(parser, sections[..i] + [sections[i]], sections[i + 1..]);
    EntriesOfSnoc(parser, sections[..i], sections[i]);
  }

  /** One entry per key: the length is the key count over the sections. */
  lemma {:induction false} EntriesOfLength(parser: Parser, sections: seq<string>)
    ensures |EntriesOf(parser, sections)| == KeyCount(parser, sections)
    decreases |sections|
  {
    if sections != [] {
      EntriesOfLength(parser, sections[..|sections| - 1]);
    }
  }

  /** `d` is the entry a section produces for one of its keys. */
  predicate InSection(parser: Parser, section: string, d: Dependency) {
    d.name in KeysOf(parser, section) && d.path == CombineKeys(section, d.name)
  }

  lemma EntriesMembers(parser: Parser, section: string, d: Dependency)
    ensures d in SectionEntries(parser, section) <==> InSection(parser, section, d)
  {
    var ks := KeysOf(parser, section);
    var here := SectionEntries(parser, section);
    if d in here {
      var i :| 0 <= i < |here| && here[i] == d;
      assert ks[i] == d.name;
    }
    if InSection(parser, section, d) {
      var i :| 0 <= i < |ks| && ks[i] == d.name;
      assert here[i] == d;
    }
  }

  /** Coverage: an entry is produced exactly for each key of each visited
      section, named by the key and located at the section's path joined
      with it. */
  lemma {:induction false} EntriesOfMembers(parser: Parser, sections: seq<string>, d: Dependency)
    ensures d in EntriesOf(parser, sections)
        <==> exists i :: 0 <= i < |sections| && InSection(parser, sections[i], d)
    decreases |sections|
  {
    if sections != [] {
      var init := sections[..|sections| - 1];
      var last := sections[|sections| - 1];
      EntriesOfMembers(parser, init, d);
      EntriesMembers(parser, last, d);
      assert EntriesOf(parser, sections) == EntriesOf(parser, init) + SectionEntries(parser, last);
      SomeSectionSnoc(parser, sections, d);
    }
  }

  /** Some section of a non-empty list holds `d` iff some section before
      the last does, or the last does. */
  lemma SomeSectionSnoc(parser: Parser, sections: seq<string>, d: Dependency)
    requires sections != []
    ensures var init := sections[..|sections| - 1];
            ((exists i :: 0 <= i < |sections| && InSection(parser, sections[i], d))
             <==> (exists i :: 0 <= i < |init| && InSection(parser, init[i], d))
                  || InSection(parser, sections[|sections| - 1], d))
  {
    var init := sections[..|sections| - 1];
    if exists i :: 0 <= i < |init| && InSection(parser, init[i], d) {
      var i :| 0 <= i < |init| && InSection(parser, init[i], d);
      assert sections[i] == init[i];
    }
    if exists i :: 0 <= i < |sections| && InSection(parser, sections[i], d) {
      var i :| 0 <= i < |sections| && InSection(parser, sections[i], d);
      if i < |init| {
        assert init[i] == sections[i];
      }
    }
  }

  /** A dependency declared under `target.<t>.dependencies`, for any target
      `t` the `target` table lists, is found at its full dotted path. */
  lemma TargetDependencyFound(parser: Parser, j: nat, name: string)
    requires j < |KeysOf(parser, "target")|
    requires name in KeysOf(parser, TargetSection(KeysOf(parser, "target")[j], "dependencies"))
    ensures var section := TargetSection(KeysOf(parser, "target")[j], "dependencies");
            Dependency(name, CombineKeys(section, name)) in AllDeps(parser)
  {
    var section := TargetSection(KeysOf(parser, "target")[j], "dependencies");
    var d := Dependency(name, CombineKeys(section, name));
    var k := TargetDependenciesAt(parser, j);
    assert InSection(parser, VisitedSections(parser)[k], d);
    EntriesOfMembers(parser, VisitedSections(parser), d);
  }

  /** Where the visit reaches `target.<t>.dependencies` for the `j`-th target. */
  lemma TargetDependenciesAt(parser: Parser, j: nat) returns (k: nat)
    requires j < |KeysOf(parser, "target")|
    ensures k < |VisitedSections(parser)|
    ensures VisitedSections(parser)[k] == TargetSection(KeysOf(parser, "target")[j], "dependencies")
  {
    var ts := KeysOf(parser, "target");
    var dev := KindSections(parser, "dev-dependencies");
    var build := KindSections(parser, "build-dependencies");
    var normal := KindSections(parser, "dependencies");
    assert VisitedSections(parser) == dev + build + normal;
    KindSectionsAt(parser, "dev-dependencies");
    KindSectionsAt(parser, "build-dependencies");
    KindSectionsAt(parser, "dependencies");
    ThreeParts(dev, build, normal, |ts| + 1);
    k := 2 * (|ts| + 1) + (1 + j);
    assert normal[1 + j] == TargetSection(ts[j], "dependencies");
  }

  /** A section that is absent, or whose children are not keys, adds no
      entry wherever it is visited. */
  lemma AbsentSectionAddsNothing(parser: Parser, before: seq<string>, s: string, after: seq<string>)
    requires !HasKeys(parser, s)
    ensures EntriesOf(parser, before + [s] + after) == EntriesOf(parser, before + after)
  {
    EntriesOfAppend(parser, before + [s], after);
    EntriesOfSnoc(parser, before, s);
    EntriesOfAppend(parser, before, after);
  }

  lemma EntriesSnoc(section: string, keys: seq<string>, j: nat)
    requires j < |keys|
    ensures Entries(section, keys[..j + 1])
         == Entries(section, keys[..j]) + [Dependency(keys[j], CombineKeys(section, keys[j]))]
  {
  }

  lemma TargetSectionsSnoc(targets: seq<string>, kind: string, t: nat)
    requires t < |targets|
    ensures TargetSections(targets[..t + 1], kind) == TargetSections(targets[..t], kind) + [TargetSection(targets[t], kind)]
  {
  }

  lemma Assoc<T>(a: seq<T>, b: seq<T>, c: seq<T>)
    ensures (a + b) + c == a + (b + c)
  {
  }

  /** The `for_each` that pushes one entry per key of a section. */
  method PushEntries(dependencies: seq<Dependency>, section: string, keys: seq<string>)
    returns (r: seq<Dependency>)
    ensures r == dependencies + Entries(section, keys)
  {
    r := dependencies;
    for j := 0 to |keys|
      invariant r == dependencies + Entries(section, keys[..j])
    {
      EntriesSnoc(section, keys, j);
      r := r + [Dependency(keys[j], CombineKeys(section, keys[j]))];
    }
    assert keys[..|keys|] == keys;
  }

  /** The lookup-and-push the source performs for the root section and
      again for each target section: nothing unless the key has key
      children. */
  method PushSection(parser: Parser, dependencies: seq<Dependency>, section: string)
    returns (r: seq<Dependency>)
    ensures r == dependencies + SectionEntries(parser, section)
  {
    match GetChildren(parser, section) {
      case Some(Keys(keys)) =>
        r := PushEntries(dependencies, section, keys);
      case _ =>
        assert SectionEntries(parser, section) == [];
        r := dependencies;
    }
  }

  /** One more target adds that target's section to the entries. */
  lemma TargetStep(parser: Parser, targets: seq<string>, kind: string, t: nat)
    requires t < |targets|
    ensures EntriesOf(parser, TargetSections(targets[..t + 1], kind))
         == EntriesOf(parser, TargetSections(targets[..t], kind)) + SectionEntries(parser, TargetSection(targets[t], kind))
  {
    TargetSectionsSnoc(targets, kind, t);
    EntriesOfSnoc(parser, TargetSections(targets[..t], kind), TargetSection(targets[t], kind));
  }

  lemma TargetsWhole(parser: Parser, targets: seq<string>, kind: string)
    ensures EntriesOf(parser, TargetSections(targets[..|targets|], kind)) == EntriesOf(parser, TargetSections(targets, kind))
  {
    assert targets[..|targets|] == targets;
  }

  /** The loop over `target`'s children for one kind: the sections
      `target.<t>.<kind>`, in target order. */
  method PushTargets(parser: Parser, dependencies: seq<Dependency>, kind: string, targets: seq<string>)
    returns (r: seq<Dependency>)
    ensures r == dependencies + EntriesOf(parser, TargetSections(targets, kind))
  {
    r := dependencies;
    assert TargetSections(targets[..0], kind) == [];
    for t := 0 to |targets|
      invariant r == dependencies + EntriesOf(parser, TargetSections(targets[..t], kind))
    {
      var path := CombineKeys(CombineKeys("target", targets[t]), kind);
      ghost var before := EntriesOf(parser, TargetSections(targets[..t], kind));
      r := PushSection(parser, r, path);
      Assoc(dependencies, before, SectionEntries(parser, path));
      TargetStep(parser, targets, kind, t);
    }
    TargetsWhole(parser, targets, kind);
  }

  /** One more kind adds its root section's entries, then its target
      sections' entries. */
  lemma KindStep(parser: Parser, kinds: seq<string>, i: nat)
    requires i < |kinds|
    ensures EntriesOf(parser, SectionsOf(parser, kinds[..i + 1]))
         == EntriesOf(parser, SectionsOf(parser, kinds[..i]))
          + SectionEntries(parser, kinds[i])
          + EntriesOf(parser, TargetSections(KeysOf(parser, "target"), kinds[i]))
  {
    var before := SectionsOf(parser, kinds[..i]);
    var targets := TargetSections(KeysOf(parser, "target"), kinds[i]);
    SectionsOfSnoc(parser, kinds, i);
    Assoc(before, [kinds[i]], targets);
    EntriesOfAppend(parser, before + [kinds[i]], targets);
    EntriesOfSnoc(parser, before, kinds[i]);
  }

  /** `get_all_deps`: every dependency entry of the document, section kind
      by section kind, root sections before target ones. */
  method GetAllDeps(parser: Parser) returns (dependencies: seq<Dependency>)
    ensures dependencies == AllDeps(parser)
  {
    dependencies := [];
    for i := 0 to |DependencyTypes|
      invariant dependencies == EntriesOf(parser, SectionsOf(parser, DependencyTypes[..i]))
    {
      var kind := DependencyTypes[i];
      dependencies := PushSection(parser, dependencies, kind);
      ghost var targets := KeysOf(parser, "target");
      match GetChildren(parser, "target") {
        case Some(Keys(ts)) =>
          dependencies := PushTargets(parser, dependencies, kind, ts);
        case _ =>
          assert targets == [] && TargetSections(targets, kind) == [];
      }
      KindStep(parser, DependencyTypes, i);
    }
    assert DependencyTypes[..|DependencyTypes|] == DependencyTypes;
    ThreeKinds(parser);
  }
}
