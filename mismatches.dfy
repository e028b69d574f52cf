/** The build-time half of `compare_modules`: every record of one host is paired
    with every record of the other that has the same name and version but another
    build time, and each such pair is reported older first. Python iterates the
    shared names as a `set`, so the order of the result is unspecified; the model
    states it as a multiset. */
module Mismatches {
  import opened BuildTime
  import opened Listing

  /** A reported mismatch: (older, newer). */
  type Pair = (ModuleInfo, ModuleInfo)

  /** The test a pair of records must pass to be reported. */
  predicate Conflicts(x: ModuleInfo, y: ModuleInfo) {
    x.name == y.name && x.version == y.version && x.buildTime != y.buildTime
  }

  /** The pair as reported: the record with the earlier build time first. */
  function Ordered(x: ModuleInfo, y: ModuleInfo): Pair {
    if Less(x.buildTime, y.buildTime) then (x, y) else (y, x)
  }

  /** What comparing one record of the first host with one of the second adds. */
  function Single(x: ModuleInfo, y: ModuleInfo): multiset<Pair> {
    if Conflicts(x, y) then multiset{Ordered(x, y)} else multiset{}
  }

  /** What comparing `x` with each record of `ys` in turn adds. */
  function Pairs(x: ModuleInfo, ys: seq<ModuleInfo>): multiset<Pair> {
    if ys == [] then multiset{} else Pairs(x, ys[..|ys| - 1]) + Single(x, ys[|ys| - 1])
  }

  /** The plain double loop over all index pairs (i, j) of the two hosts' lists. */
  function CrossJoin(xs: seq<ModuleInfo>, ys: seq<ModuleInfo>): multiset<Pair> {
    if xs == [] then multiset{} else CrossJoin(xs[..|xs| - 1], ys) + Pairs(xs[|xs| - 1], ys)
  }

  /** Conflicting records give a pair whose first record is strictly older, with
      the same name and version, and whose records are the two given ones. */
  lemma OrderedIsOlderFirst(x: ModuleInfo, y: ModuleInfo)
    requires Conflicts(x, y)
    ensures Less(Ordered(x, y).0.buildTime, Ordered(x, y).1.buildTime)
    ensures Ordered(x, y).0.name == Ordered(x, y).1.name
    ensures Ordered(x, y).0.version == Ordered(x, y).1.version
    ensures Ordered(x, y) == (x, y) || Ordered(x, y) == (y, x)
    ensures Ordered(y, x) == Ordered(x, y)
  {
    LessIsStrictTotalOrder(x.buildTime, y.buildTime, x.buildTime);
  }

  // ---------------------------------------------------------------------------
  // The cross-join takes one pair per index pair: it adds up over both lists.

  lemma {:induction false} PairsAppend(x: ModuleInfo, ys1: seq<ModuleInfo>, ys2: seq<ModuleInfo>)
    ensures Pairs(x, ys1 + ys2) == Pairs(x, ys1) + Pairs(x, ys2)
  {
    if ys2 != [] {
      var init := ys2[..|ys2| - 1];
      assert (ys1 + ys2)[..|ys1 + ys2| - 1] == ys1 + init;
      PairsAppend(x, ys1, init);
    } else {
      assert ys1 + ys2 == ys1;
    }
  }

  /** Comparing the concatenation of two lists of the first host is comparing
      each of them: no pair is merged with another and none is dropped. */
  lemma {:induction false} CrossJoinAppendLeft(xs1: seq<ModuleInfo>, xs2: seq<ModuleInfo>, ys: seq<ModuleInfo>)
    ensures CrossJoin(xs1 + xs2, ys) == CrossJoin(xs1, ys) + CrossJoin(xs2, ys)
  {
    if xs2 != [] {
      var init := xs2[..|xs2| - 1];
      assert (xs1 + xs2)[..|xs1 + xs2| - 1] == xs1 + init;
      CrossJoinAppendLeft(xs1, init, ys);
    } else {
      assert xs1 + xs2 == xs1;
    }
  }

  /** The same on the second host's side. */
  lemma {:induction false} CrossJoinAppendRight(xs: seq<ModuleInfo>, ys1: seq<ModuleInfo>, ys2: seq<ModuleInfo>)
    ensures CrossJoin(xs, ys1 + ys2) == CrossJoin(xs, ys1) + CrossJoin(xs, ys2)
  {
    if xs != [] {
      CrossJoinAppendRight(xs[..|xs| - 1], ys1, ys2);
      PairsAppend(xs[|xs| - 1], ys1, ys2);
    }
  }

  /** One record against one record: the pair if they conflict, nothing otherwise. */
  lemma CrossJoinOfSingletons(x: ModuleInfo, y: ModuleInfo)
    ensures CrossJoin([x], [y]) == if Conflicts(x, y) then multiset{Ordered(x, y)} else multiset{}
  {
    assert [x][..0] == [] && [y][..0] == [];
    assert Pairs(x, [y]) == Pairs(x, []) + Single(x, y);
    assert CrossJoin([x], [y]) == CrossJoin([], [y]) + Pairs(x, [y]);
  }

  /** Nothing to compare against gives no mismatches, on either side. */
  lemma {:induction false} CrossJoinWithEmpty(xs: seq<ModuleInfo>)
    ensures CrossJoin(xs, []) == multiset{}
    ensures CrossJoin([], xs) == multiset{}
  {
    if xs != [] {
      CrossJoinWithEmpty(xs[..|xs| - 1]);
    }
  }

  lemma {:induction false} CrossJoinOneRight(ys: seq<ModuleInfo>, x: ModuleInfo)
    ensures CrossJoin(ys, [x]) == Pairs(x, ys)
  {
    if ys != [] {
      var y := ys[|ys| - 1];
      CrossJoinOneRight(ys[..|ys| - 1], x);
      assert [x][..0] == [];
      assert Pairs(y, [x]) == Single(y, x);
      if Conflicts(x, y) {
        OrderedIsOlderFirst(x, y);
      }
    }
  }

  /** Swapping the hosts reports the same mismatches. */
  lemma {:induction false} CrossJoinSymmetric(xs: seq<ModuleInfo>, ys: seq<ModuleInfo>)
    ensures CrossJoin(ys, xs) == CrossJoin(xs, ys)
  {
    if xs == [] {
      CrossJoinWithEmpty(ys);
    } else {
      var init, x := xs[..|xs| - 1], xs[|xs| - 1];
      assert xs == init + [x];
      CrossJoinSymmetric(init, ys);
      CrossJoinAppendRight(ys, init, [x]);
      CrossJoinOneRight(ys, x);
    }
  }

  // ---------------------------------------------------------------------------
  // What is in the cross-join, and how many.

  /** Some `ys[j]` conflicts with `x` and gives the pair `p`. */
  predicate RowProduces(x: ModuleInfo, ys: seq<ModuleInfo>, p: Pair) {
    exists j :: 0 <= j < |ys| && Conflicts(x, ys[j]) && Ordered(x, ys[j]) == p
  }

  /** Some index pair (i, j) has `xs[i]` and `ys[j]` conflicting and giving `p`. */
  predicate Produces(xs: seq<ModuleInfo>, ys: seq<ModuleInfo>, p: Pair) {
    exists i, j :: 0 <= i < |xs| && 0 <= j < |ys| && Conflicts(xs[i], ys[j]) && Ordered(xs[i], ys[j]) == p
  }

  lemma RowProducesSnoc(x: ModuleInfo, init: seq<ModuleInfo>, y: ModuleInfo, p: Pair)
    ensures RowProduces(x, init + [y], p) <==> RowProduces(x, init, p) || (Conflicts(x, y) && Ordered(x, y) == p)
  {
    var ys := init + [y];
    if RowProduces(x, ys, p) {
      var j :| 0 <= j < |ys| && Conflicts(x, ys[j]) && Ordered(x, ys[j]) == p;
      if j < |init| {
        assert init[j] == ys[j];
      }
    }
    if RowProduces(x, init, p) {
      var j :| 0 <= j < |init| && Conflicts(x, init[j]) && Ordered(x, init[j]) == p;
      assert ys[j] == init[j];
    }
    assert ys[|init|] == y;
  }

  lemma ProducesSnoc(init: seq<ModuleInfo>, x: ModuleInfo, ys: seq<ModuleInfo>, p: Pair)
    ensures Produces(init + [x], ys, p) <==> Produces(init, ys, p) || RowProduces(x, ys, p)
  {
    var xs := init + [x];
    if Produces(xs, ys, p) {
      var i, j :| 0 <= i < |xs| && 0 <= j < |ys| && Conflicts(xs[i], ys[j]) && Ordered(xs[i], ys[j]) == p;
      if i < |init| {
        assert init[i] == xs[i];
      }
    }
    if Produces(init, ys, p) {
      var i, j :| 0 <= i < |init| && 0 <= j < |ys| && Conflicts(init[i], ys[j]) && Ordered(init[i], ys[j]) == p;
      assert xs[i] == init[i];
    }
    if RowProduces(x, ys, p) {
      var j :| 0 <= j < |ys| && Conflicts(x, ys[j]) && Ordered(x, ys[j]) == p;
      assert xs[|init|] == x;
    }
  }

  lemma {:induction false} PairsMembers(x: ModuleInfo, ys: seq<ModuleInfo>, p: Pair)
    ensures p in Pairs(x, ys) <==> RowProduces(x, ys, p)
  {
    if ys != [] {
      var init, y := ys[..|ys| - 1], ys[|ys| - 1];
      assert ys == init + [y];
      PairsMembers(x, init, p);
      RowProducesSnoc(x, init, y, p);
    }
  }

  /** A pair is reported exactly when some record `xs[i]` of the first host and
      some record `ys[j]` of the second conflict and give that pair. */
  lemma {:induction false} CrossJoinMembers(xs: seq<ModuleInfo>, ys: seq<ModuleInfo>, p: Pair)
    ensures p in CrossJoin(xs, ys) <==>
            exists i, j :: 0 <= i < |xs| && 0 <= j < |ys| && Conflicts(xs[i], ys[j]) && Ordered(xs[i], ys[j]) == p
  {
    if xs != [] {
      var init, x := xs[..|xs| - 1], xs[|xs| - 1];
      assert xs == init + [x];
      CrossJoinMembers(init, ys, p);
      PairsMembers(x, ys, p);
      ProducesSnoc(init, x, ys, p);
      assert Produces(xs, ys, p) <==> p in CrossJoin(xs, ys);
    }
  }

  /** Every reported pair is (older, newer): same name, same version, a strictly
      earlier build time first (so never equal build times), one record from each
      host. */
  lemma CrossJoinPairsAreMismatches(xs: seq<ModuleInfo>, ys: seq<ModuleInfo>, p: Pair)
    requires p in CrossJoin(xs, ys)
    ensures p.0.name == p.1.name && p.0.version == p.1.version
    ensures Less(p.0.buildTime, p.1.buildTime) && p.0.buildTime != p.1.buildTime
    ensures (p.0 in xs && p.1 in ys) || (p.1 in xs && p.0 in ys)
  {
    CrossJoinMembers(xs, ys, p);
    var i, j :| 0 <= i < |xs| && 0 <= j < |ys| && Conflicts(xs[i], ys[j]) && Ordered(xs[i], ys[j]) == p;
    OrderedIsOlderFirst(xs[i], ys[j]);
    LessIsStrictTotalOrder(p.0.buildTime, p.1.buildTime, p.0.buildTime);
  }

  /** The same for a list holding the cross-join's pairs in any order. */
  lemma ListedPairsAreMismatches(xs: seq<ModuleInfo>, ys: seq<ModuleInfo>, pairs: seq<Pair>)
    requires multiset(pairs) == CrossJoin(xs, ys)
    ensures forall p :: p in pairs ==>
              && p.0.name == p.1.name && p.0.version == p.1.version
              && Less(p.0.buildTime, p.1.buildTime)
              && ((p.0 in xs && p.1 in ys) || (p.1 in xs && p.0 in ys))
  {
    forall p | p in pairs
      ensures && p.0.name == p.1.name && p.0.version == p.1.version
              && Less(p.0.buildTime, p.1.buildTime)
              && ((p.0 in xs && p.1 in ys) || (p.1 in xs && p.0 in ys))
    {
      assert p in multiset(pairs);
      CrossJoinPairsAreMismatches(xs, ys, p);
    }
  }

  /** The index pairs (i, j) whose records `xs[i]` and `ys[j]` conflict and give `p`. */
  function IndexPairs(xs: seq<ModuleInfo>, ys: seq<ModuleInfo>, p: Pair): set<(int, int)> {
    set i, j | 0 <= i < |xs| && 0 <= j < |ys| && Conflicts(xs[i], ys[j]) && Ordered(xs[i], ys[j]) == p :: (i, j)
  }

  /** Row `i` of those index pairs, for the record `x` at position `i`. */
  function RowPairs(i: int, x: ModuleInfo, ys: seq<ModuleInfo>, p: Pair): set<(int, int)> {
    set j | 0 <= j < |ys| && Conflicts(x, ys[j]) && Ordered(x, ys[j]) == p :: (i, j)
  }

  lemma RowPairsSnoc(i: int, x: ModuleInfo, init: seq<ModuleInfo>, y: ModuleInfo, p: Pair)
    ensures RowPairs(i, x, init + [y], p)
            == RowPairs(i, x, init, p) + (if Conflicts(x, y) && Ordered(x, y) == p then {(i, |init|)} else {})
    ensures (i, |init|) !in RowPairs(i, x, init, p)
  {
    var ys := init + [y];
    forall q | q in RowPairs(i, x, ys, p) && q != (i, |init|) ensures q in RowPairs(i, x, init, p) {
      var (_, j) := q;
      assert ys[j] == init[j];
    }
    forall q | q in RowPairs(i, x, init, p) ensures q in RowPairs(i, x, ys, p) {
      var (_, j) := q;
      assert ys[j] == init[j];
    }
    assert ys[|init|] == y;
  }

  lemma {:induction false} PairsCount(i: int, x: ModuleInfo, ys: seq<ModuleInfo>, p: Pair)
    ensures Pairs(x, ys)[p] == |RowPairs(i, x, ys, p)|
  {
    if ys != [] {
      var init, y := ys[..|ys| - 1], ys[|ys| - 1];
      assert ys == init + [y];
      PairsCount(i, x, init, p);
      RowPairsSnoc(i, x, init, y, p);
    }
  }

  lemma IndexPairsSnoc(init: seq<ModuleInfo>, x: ModuleInfo, ys: seq<ModuleInfo>, p: Pair)
    ensures IndexPairs(init + [x], ys, p) == IndexPairs(init, ys, p) + RowPairs(|init|, x, ys, p)
  {
    var xs := init + [x];
    forall q ensures q in IndexPairs(xs, ys, p) <==> q in IndexPairs(init, ys, p) || q in RowPairs(|init|, x, ys, p) {
      var (i, j) := q;
      if 0 <= i < |init| {
        assert xs[i] == init[i];
      }
    }
  }

  /** The cross-join holds each pair once per index pair (i, j) that gives it: no
      pair is merged with an equal one. */
  lemma {:induction false} CrossJoinCount(xs: seq<ModuleInfo>, ys: seq<ModuleInfo>, p: Pair)
    ensures CrossJoin(xs, ys)[p] == |IndexPairs(xs, ys, p)|
  {
    if xs != [] {
      var init, x := xs[..|xs| - 1], xs[|xs| - 1];
      var row := RowPairs(|init|, x, ys, p);
      assert xs == init + [x];
      CrossJoinCount(init, ys, p);
      PairsCount(|init|, x, ys, p);
      IndexPairsSnoc(init, x, ys, p);
      assert IndexPairs(init, ys, p) !! row;
    }
  }

  // ---------------------------------------------------------------------------
  // Grouping by name, as the source does before the triple loop.

  /** The names occurring in `ms`: the keys of the `modules_by_name` dictionary. */
  function Names(ms: seq<ModuleInfo>): set<string> {
    set m | m in ms :: m.name
  }

  /** The records of `ms` with the given name, in order: `modules_by_name[name]`. */
  function WithName(ms: seq<ModuleInfo>, name: string): seq<ModuleInfo> {
    if ms == [] then []
    else
      var m := ms[|ms| - 1];
      WithName(ms[..|ms| - 1], name) + (if m.name == name then [m] else [])
  }

  /** `WithName` keeps exactly the records of `ms` with that name. */
  lemma {:induction false} WithNameMembers(ms: seq<ModuleInfo>, name: string)
    ensures forall x :: x in WithName(ms, name) <==> x in ms && x.name == name
  {
    if ms != [] {
      var init, m := ms[..|ms| - 1], ms[|ms| - 1];
      assert ms == init + [m];
      WithNameMembers(init, name);
    }
  }

  lemma {:induction false} WithNameAbsent(ms: seq<ModuleInfo>, name: string)
    requires name !in Names(ms)
    ensures WithName(ms, name) == []
  {
    if ms != [] {
      var init, m := ms[..|ms| - 1], ms[|ms| - 1];
      assert m in ms;
      assert forall x :: x in init ==> x in ms;
      WithNameAbsent(init, name);
    }
  }

  /** The records of `ms` whose name lies in `names`, in order. */
  function WithNameIn(ms: seq<ModuleInfo>, names: set<string>): seq<ModuleInfo> {
    if ms == [] then []
    else
      var m := ms[|ms| - 1];
      WithNameIn(ms[..|ms| - 1], names) + (if m.name in names then [m] else [])
  }

  lemma {:induction false} WithNameInNone(ms: seq<ModuleInfo>)
    ensures WithNameIn(ms, {}) == []
  {
    if ms != [] {
      WithNameInNone(ms[..|ms| - 1]);
    }
  }

  /** Extending the set of names by one more adds the cross-join of that name's
      records. */
  lemma {:induction false} CrossJoinAddName(xs: seq<ModuleInfo>, ys: seq<ModuleInfo>, names: set<string>, n: string)
    requires n !in names
    ensures CrossJoin(WithNameIn(xs, names + {n}), ys) == CrossJoin(WithNameIn(xs, names), ys) + CrossJoin(WithName(xs, n), ys)
  {
    if xs != [] {
      var init, m := xs[..|xs| - 1], xs[|xs| - 1];
      var a := if m.name in names + {n} then [m] else [];
      var b := if m.name in names then [m] else [];
      var c := if m.name == n then [m] else [];
      assert WithNameIn(xs, names + {n}) == WithNameIn(init, names + {n}) + a;
      assert WithNameIn(xs, names) == WithNameIn(init, names) + b;
      assert WithName(xs, n) == WithName(init, n) + c;
      CrossJoinAddName(init, ys, names, n);
      assert CrossJoin(a, ys) == CrossJoin(b, ys) + CrossJoin(c, ys) by {
        assert [m][..0] == [];
      }
      CrossJoinSnocSum(WithNameIn(init, names + {n}), a, WithNameIn(init, names), b, WithName(init, n), c, ys);
    }
  }

  /** Adding up cross-joins of concatenated lists piece by piece. */
  lemma CrossJoinSnocSum(l: seq<ModuleInfo>, a: seq<ModuleInfo>, l1: seq<ModuleInfo>, a1: seq<ModuleInfo>,
                         l2: seq<ModuleInfo>, a2: seq<ModuleInfo>, ys: seq<ModuleInfo>)
    requires CrossJoin(l, ys) == CrossJoin(l1, ys) + CrossJoin(l2, ys)
    requires CrossJoin(a, ys) == CrossJoin(a1, ys) + CrossJoin(a2, ys)
    ensures CrossJoin(l + a, ys) == CrossJoin(l1 + a1, ys) + CrossJoin(l2 + a2, ys)
  {
    CrossJoinAppendLeft(l, a, ys);
    CrossJoinAppendLeft(l1, a1, ys);
    CrossJoinAppendLeft(l2, a2, ys);
  }

  /** A record only meets records of its own name. */
  lemma {:induction false} PairsOwnName(x: ModuleInfo, ys: seq<ModuleInfo>)
    ensures Pairs(x, ys) == Pairs(x, WithName(ys, x.name))
  {
    if ys != [] {
      var init, y := ys[..|ys| - 1], ys[|ys| - 1];
      PairsOwnName(x, init);
      PairsAppend(x, WithName(init, x.name), if y.name == x.name then [y] else []);
      assert [y][..0] == [];
    }
  }

  /** Records of one name only meet the other host's records of that name. */
  lemma {:induction false} CrossJoinOneName(xs: seq<ModuleInfo>, ys: seq<ModuleInfo>, n: string)
    ensures CrossJoin(WithName(xs, n), ys) == CrossJoin(WithName(xs, n), WithName(ys, n))
  {
    if xs != [] {
      var init, m := xs[..|xs| - 1], xs[|xs| - 1];
      CrossJoinOneName(init, ys, n);
      CrossJoinAppendLeft(WithName(init, n), if m.name == n then [m] else [], ys);
      CrossJoinAppendLeft(WithName(init, n), if m.name == n then [m] else [], WithName(ys, n));
      if m.name == n {
        assert [m][..0] == [];
        PairsOwnName(m, ys);
      }
    }
  }

  /** A record whose name the other host lacks meets nothing. */
  lemma {:induction false} PairsForeignName(x: ModuleInfo, ys: seq<ModuleInfo>)
    requires x.name !in Names(ys)
    ensures Pairs(x, ys) == multiset{}
  {
    if ys != [] {
      var init, y := ys[..|ys| - 1], ys[|ys| - 1];
      assert y in ys;
      assert forall z :: z in init ==> z in ys;
      PairsForeignName(x, init);
    }
  }

  /** Keeping only the records whose name lies in `names` loses nothing, when
      every other record's name is one the second host lacks. */
  lemma {:induction false} CrossJoinSharedNames(xs: seq<ModuleInfo>, ys: seq<ModuleInfo>, names: set<string>)
    requires forall x :: x in xs ==> x.name in names || x.name !in Names(ys)
    ensures CrossJoin(WithNameIn(xs, names), ys) == CrossJoin(xs, ys)
  {
    if xs != [] {
      var init, m := xs[..|xs| - 1], xs[|xs| - 1];
      assert m in xs;
      assert forall z :: z in init ==> z in xs;
      CrossJoinSharedNames(init, ys, names);
      CrossJoinAppendLeft(WithNameIn(init, names), if m.name in names then [m] else [], ys);
      assert [m][..0] == [];
      if m.name !in names {
        PairsForeignName(m, ys);
      }
    }
  }

  /** What one more record does to the names and to each name's records. */
  lemma GroupStep(ms: seq<ModuleInfo>, k: nat)
    requires k < |ms|
    ensures Names(ms[..k + 1]) == Names(ms[..k]) + {ms[k].name}
    ensures forall n :: WithName(ms[..k + 1], n) == WithName(ms[..k], n) + (if ms[k].name == n then [ms[k]] else [])
  {
    assert ms[..k + 1] == ms[..k] + [ms[k]];
    assert ms[..k + 1][..k] == ms[..k];
    assert forall x :: x in ms[..k + 1] <==> x in ms[..k] || x == ms[k];
  }

  /** One more step of the outer and of the inner loop of the comparison. */
  lemma CrossJoinStep(xs: seq<ModuleInfo>, ys: seq<ModuleInfo>, i: nat)
    requires i < |xs|
    ensures CrossJoin(xs[..i + 1], ys) == CrossJoin(xs[..i], ys) + Pairs(xs[i], ys)
    ensures Pairs(xs[i], ys[..0]) == multiset{}
  {
    assert xs[..i + 1][..i] == xs[..i];
  }

  lemma PairsStep(x: ModuleInfo, ys: seq<ModuleInfo>, j: nat)
    requires j < |ys|
    ensures Pairs(x, ys[..j + 1]) == Pairs(x, ys[..j]) + Single(x, ys[j])
  {
    assert ys[..j + 1][..j] == ys[..j];
  }

  /** One step of the innermost loop keeps its invariant. */
  lemma ComparedOne(before: seq<Pair>, after: seq<Pair>, base: multiset<Pair>, x: ModuleInfo, ys: seq<ModuleInfo>, j: nat)
    requires j < |ys| && x.name == ys[j].name
    requires multiset(before) == base + Pairs(x, ys[..j])
    requires Conflicts(x, ys[j]) ==> after == before + [Ordered(x, ys[j])]
    requires !Conflicts(x, ys[j]) ==> after == before
    ensures multiset(after) == base + Pairs(x, ys[..j + 1])
  {
    PairsStep(x, ys, j);
  }

  /** The records of one name on both hosts all carry that name. */
  lemma {:induction false} SameNameGroups(ms1: seq<ModuleInfo>, ms2: seq<ModuleInfo>, name: string)
    ensures forall x, y :: x in WithName(ms1, name) && y in WithName(ms2, name) ==> x.name == y.name
  {
    WithNameMembers(ms1, name);
    WithNameMembers(ms2, name);
  }

  /** One step of the loop over the shared names keeps its invariant. */
  lemma ComparedName(before: seq<Pair>, found: seq<Pair>, after: seq<Pair>,
                     ms1: seq<ModuleInfo>, ms2: seq<ModuleInfo>, done: set<string>, name: string)
    requires name !in done
    requires multiset(before) == CrossJoin(WithNameIn(ms1, done), ms2)
    requires multiset(found) == CrossJoin(WithName(ms1, name), WithName(ms2, name))
    requires after == before + found
    ensures multiset(after) == CrossJoin(WithNameIn(ms1, done + {name}), ms2)
  {
    CrossJoinOneName(ms1, ms2, name);
    CrossJoinAddName(ms1, ms2, done, name);
  }

  /** Once every shared name is done, the result is the whole cross-join. */
  lemma ComparedAllNames(pairs: seq<Pair>, ms1: seq<ModuleInfo>, ms2: seq<ModuleInfo>)
    requires multiset(pairs) == CrossJoin(WithNameIn(ms1, Names(ms1) * Names(ms2)), ms2)
    ensures multiset(pairs) == CrossJoin(ms1, ms2)
  {
    CrossJoinSharedNames(ms1, ms2, Names(ms1) * Names(ms2));
  }

  /** The grouping loop of `compare_modules`: one list per name, holding that
      name's records in their original order. */
  method GroupByName(ms: seq<ModuleInfo>) returns (groups: map<string, seq<ModuleInfo>>)
    ensures groups.Keys == Names(ms)
    ensures forall n :: n in groups ==> groups[n] == WithName(ms, n)
  {
    groups := map[];
    for k := 0 to |ms|
      invariant groups.Keys == Names(ms[..k])
      invariant forall n :: n in groups ==> groups[n] == WithName(ms[..k], n)
    {
      var m := ms[k];
      GroupStep(ms, k);
      ghost var old_groups := groups;
      if m.name !in groups {
        WithNameAbsent(ms[..k], m.name);
        groups := groups[m.name := []];
      }
      groups := groups[m.name := groups[m.name] + [m]];
      forall n | n in groups ensures groups[n] == WithName(ms[..k + 1], n) {
        if n != m.name {
          assert groups[n] == old_groups[n];
        }
      }
    }
    assert ms[..|ms|] == ms;
  }

  /** The two inner loops of `compare_modules` for one shared name: every record
      of the first host's group against every record of the second's, in order. */
  method CompareGroups(group1: seq<ModuleInfo>, group2: seq<ModuleInfo>) returns (found: seq<Pair>)
    requires forall x, y :: x in group1 && y in group2 ==> x.name == y.name
    ensures multiset(found) == CrossJoin(group1, group2)
  {
    found := [];
    for i := 0 to |group1|
      invariant multiset(found) == CrossJoin(group1[..i], group2)
    {
      var mod1 := group1[i];
      ghost var base := multiset(found);
      for j := 0 to |group2|
        invariant multiset(found) == base + Pairs(mod1, group2[..j])
      {
        var mod2 := group2[j];
        assert mod1.name == mod2.name by { assert mod1 in group1 && mod2 in group2; }
        ghost var before := found;
        if mod1.version == mod2.version && mod1.buildTime != mod2.buildTime {
          if Less(mod1.buildTime, mod2.buildTime) {
            found := found + [(mod1, mod2)];
          } else {
            found := found + [(mod2, mod1)];
          }
        }
        ComparedOne(before, found, base, mod1, group2, j);
      }
      CrossJoinStep(group1, group2, i);
      assert group2[..|group2|] == group2;
    }
    assert group1[..|group1|] == group1;
  }

  /** The mismatch half of `compare_modules`: group both hosts by name, then for
      each shared name (in whatever order the set yields) compare every record of
      the first host with every record of the second. The result holds exactly the
      pairs of the plain double loop over all index pairs, with their
      multiplicities. */
  method MismatchedPairs(modules1: seq<ModuleInfo>, modules2: seq<ModuleInfo>) returns (newer: seq<Pair>)
    ensures multiset(newer) == CrossJoin(modules1, modules2)
    ensures forall p :: p in newer ==>
              && p.0.name == p.1.name && p.0.version == p.1.version
              && Less(p.0.buildTime, p.1.buildTime)
              && ((p.0 in modules1 && p.1 in modules2) || (p.1 in modules1 && p.0 in modules2))
  {
    var byName1 := GroupByName(modules1);
    var byName2 := GroupByName(modules2);
    newer := [];
    var todo := byName1.Keys * byName2.Keys;
    ghost var done: set<string> := {};
    WithNameInNone(modules1);
    while todo != {}
      invariant todo !! done
      invariant todo + done == Names(modules1) * Names(modules2)
      invariant multiset(newer) == CrossJoin(WithNameIn(modules1, done), modules2)
      decreases todo
    {
      var name :| name in todo;
      var group1, group2 := byName1[name], byName2[name];
      SameNameGroups(modules1, modules2, name);
      var found := CompareGroups(group1, group2);
      ghost var before := newer;
      newer := newer + found;
      ComparedName(before, found, newer, modules1, modules2, done, name);
      todo, done := todo - {name}, done + {name};
    }
    ComparedAllNames(newer, modules1, modules2);
    ListedPairsAreMismatches(modules1, modules2, newer);
  }
}
