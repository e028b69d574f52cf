/** `compare_modules`: the two hosts' module lists reconciled into the modules
    only the first host has, those only the second has, and the (older, newer)
    pairs of same-name, same-version records whose build times differ. */
module Comparison {
  import opened Text
  import opened BuildTime
  import opened Listing
  import opened UniqueModules
  import opened Mismatches

  /** The three results, the mismatches as a multiset since their order follows
      the iteration order of a Python `set`. */
  datatype Report = Report(onlyFirst: seq<ModuleInfo>, onlySecond: seq<ModuleInfo>, mismatched: multiset<Pair>)

  /** What `compare_modules(ms1, ms2)` returns. */
  function Expected(ms1: seq<ModuleInfo>, ms2: seq<ModuleInfo>): Report {
    Report(OnlyFirst(ms1, ms2), OnlyFirst(ms2, ms1), CrossJoin(ms1, ms2))
  }

  /** `compare_modules`: the unique lists from the two dictionaries keyed by full
      name, then the grouped comparison of build times. */
  method CompareModules(modules1: seq<ModuleInfo>, modules2: seq<ModuleInfo>)
    returns (unique1: seq<ModuleInfo>, unique2: seq<ModuleInfo>, newer: seq<Pair>)
    ensures Report(unique1, unique2, multiset(newer)) == Expected(modules1, modules2)
    ensures Keys(unique1) == Keys(modules1) - Keys(modules2)
    ensures Keys(unique2) == Keys(modules2) - Keys(modules1)
    ensures forall x :: x in unique1 ==> x.fullName !in Keys(modules2)
    ensures forall x :: x in unique2 ==> x.fullName !in Keys(modules1)
    ensures forall p :: p in newer ==>
              && p.0.name == p.1.name && p.0.version == p.1.version
              && Less(p.0.buildTime, p.1.buildTime)
  {
    unique1 := OnlyFirst(modules1, modules2);
    unique2 := OnlyFirst(modules2, modules1);
    newer := MismatchedPairs(modules1, modules2);
  }

  /** Swapping the hosts swaps the unique lists and reports the same mismatches. */
  lemma SwapHosts(ms1: seq<ModuleInfo>, ms2: seq<ModuleInfo>)
    ensures Expected(ms2, ms1).onlyFirst == Expected(ms1, ms2).onlySecond
    ensures Expected(ms2, ms1).onlySecond == Expected(ms1, ms2).onlyFirst
    ensures Expected(ms2, ms1).mismatched == Expected(ms1, ms2).mismatched
  {
    CrossJoinSymmetric(ms1, ms2);
  }

  /** Against an empty host: every module of the other host is unique to it, one
      record per full name, and there are no mismatches. */
  lemma EmptyHost(ms: seq<ModuleInfo>)
    ensures Expected(ms, []) == Report(DictItems(ms), [], multiset{})
    ensures Expected([], ms) == Report([], DictItems(ms), multiset{})
  {
    OnlyFirstAgainstEmpty(ms);
    CrossJoinWithEmpty(ms);
  }

  /** No full name is in both unique lists, and the full names of the two hosts
      fall into the first host's unique names, the second host's, and the shared
      ones. */
  lemma UniqueListsPartition(ms1: seq<ModuleInfo>, ms2: seq<ModuleInfo>)
    ensures Keys(Expected(ms1, ms2).onlyFirst) !! Keys(Expected(ms1, ms2).onlySecond)
    ensures Keys(Expected(ms1, ms2).onlyFirst) + Keys(Expected(ms1, ms2).onlySecond) + (Keys(ms1) * Keys(ms2))
            == Keys(ms1) + Keys(ms2)
  {
    var k1, k2 := Keys(ms1), Keys(ms2);
    assert Keys(Expected(ms1, ms2).onlyFirst) == k1 - k2;
    assert Keys(Expected(ms1, ms2).onlySecond) == k2 - k1;
    SetPartition(k1, k2);
  }

  lemma SetPartition<T>(a: set<T>, b: set<T>)
    ensures (a - b) !! (b - a)
    ensures (a - b) + (b - a) + (a * b) == a + b
  {
  }

  // ---------------------------------------------------------------------------
  // Worked scenarios.

  /** One module against an empty host is unique to its host. */
  lemma OneModuleAgainstNothing(t: DateTime)
    ensures var gcc := ModuleInfo("gcc", "11.2", t, "gcc/11.2");
            Expected([gcc], []) == Report([gcc], [], multiset{})
  {
    var gcc := ModuleInfo("gcc", "11.2", t, "gcc/11.2");
    EmptyHost([gcc]);
    assert [gcc][..0] == [];
    assert DictItems([gcc]) == Put(DictItems([]), gcc);
  }

  /** The same module built at two dates: no unique modules, one mismatch, the
      first host's older record first. */
  lemma RebuiltModule()
    ensures var a := ModuleInfo("python", "3.9", DateTime(2023, 1, 1, 0, 0, 0), "python/3.9");
            var b := ModuleInfo("python", "3.9", DateTime(2023, 6, 1, 0, 0, 0), "python/3.9");
            Expected([a], [b]) == Report([], [], multiset{(a, b)})
  {
    var a := ModuleInfo("python", "3.9", DateTime(2023, 1, 1, 0, 0, 0), "python/3.9");
    var b := ModuleInfo("python", "3.9", DateTime(2023, 6, 1, 0, 0, 0), "python/3.9");
    KeysOfOne(a);
    KeysOfOne(b);
    NothingUnique([a], [b]);
    NothingUnique([b], [a]);
    CrossJoinOfSingletons(a, b);
  }

  /** Identical listings give three empty results when no two of their records
      share name and version with different build times. */
  lemma IdenticalHosts(ms: seq<ModuleInfo>)
    requires forall i, j :: 0 <= i < |ms| && 0 <= j < |ms| ==> !Conflicts(ms[i], ms[j])
    ensures Expected(ms, ms) == Report([], [], multiset{})
  {
    NothingUnique(ms, ms);
    forall p ensures CrossJoin(ms, ms)[p] == 0 {
      CrossJoinMembers(ms, ms, p);
    }
  }

  /** A record listed twice is compared twice: the mismatch is reported twice. */
  lemma DuplicateRecord(x: ModuleInfo, y: ModuleInfo)
    requires Conflicts(x, y)
    ensures Expected([x, x], [y]).mismatched == multiset{Ordered(x, y), Ordered(x, y)}
  {
    CrossJoinAppendLeft([x], [x], [y]);
    assert [x] + [x] == [x, x];
    CrossJoinOfSingletons(x, y);
  }

  lemma CrossJoinOneByTwo(x: ModuleInfo, u: ModuleInfo, v: ModuleInfo)
    ensures CrossJoin([x], [u, v]) == Single(x, u) + Single(x, v)
  {
    assert [u, v] == [u] + [v];
    CrossJoinAppendRight([x], [u], [v]);
    CrossJoinOfSingletons(x, u);
    CrossJoinOfSingletons(x, v);
  }

  lemma CrossJoinTwoByTwo(x: ModuleInfo, y: ModuleInfo, u: ModuleInfo, v: ModuleInfo)
    ensures CrossJoin([x, y], [u, v]) == Single(x, u) + Single(x, v) + Single(y, u) + Single(y, v)
  {
    assert [x, y] == [x] + [y];
    CrossJoinAppendLeft([x], [y], [u, v]);
    CrossJoinOneByTwo(x, u, v);
    CrossJoinOneByTwo(y, u, v);
  }

  /** A host listing one name and version twice with different build times
      reports mismatches against an identical host: each record against the
      other copy, once from each side. */
  lemma SelfComparisonWithRebuild(x: ModuleInfo, y: ModuleInfo)
    requires Conflicts(x, y)
    ensures Expected([x, y], [x, y]).mismatched == multiset{Ordered(x, y), Ordered(x, y)}
  {
    CrossJoinTwoByTwo(x, y, x, y);
    assert !Conflicts(x, x) && !Conflicts(y, y);
    OrderedIsOlderFirst(x, y);
  }

  /** A catalog line without `/` names a module of unknown version. */
  lemma UnversionedModule(t: string)
    ensures MakeModule("weirdmodule", t).name == "weirdmodule"
    ensures MakeModule("weirdmodule", t).version == "unknown"
  {
    assert '/' !in "weirdmodule";
  }

  /** An unknown build time is the epoch, and such a module still conflicts with
      a same-version record built later. */
  lemma UnknownBuildTime(fullName: string, later: ModuleInfo)
    requires later.name == MakeModule(fullName, "Unknown").name
    requires later.version == MakeModule(fullName, "Unknown").version
    requires Less(Epoch, later.buildTime)
    ensures MakeModule(fullName, "Unknown").buildTime == Epoch
    ensures Expected([MakeModule(fullName, "Unknown")], [later]).mismatched
            == multiset{(MakeModule(fullName, "Unknown"), later)}
  {
    var m := MakeModule(fullName, "Unknown");
    LessIsStrictTotalOrder(Epoch, later.buildTime, Epoch);
    CrossJoinOfSingletons(m, later);
  }
}
