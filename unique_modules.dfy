/** The presence half of `compare_modules`: each side's records collected into a
    dictionary keyed by full name (later records overwrite earlier ones), and the
    entries whose key the other side's dictionary lacks. */
module UniqueModules {
  import opened Listing

  /** The full names occurring in `ms`: the keys of `{m.full_name: m for m in ms}`. */
  function Keys(ms: seq<ModuleInfo>): set<string> {
    set m | m in ms :: m.fullName
  }

  /** No full name occurs twice in `ms`. */
  predicate DistinctKeys(ms: seq<ModuleInfo>) {
    forall i, j :: 0 <= i < j < |ms| ==> ms[i].fullName != ms[j].fullName
  }

  /** `x` occurs in `ms` and no later record of `ms` has its full name. */
  predicate IsLatest(ms: seq<ModuleInfo>, x: ModuleInfo) {
    exists i :: 0 <= i < |ms| && ms[i] == x && forall j :: i < j < |ms| ==> ms[j].fullName != x.fullName
  }

  lemma KeysSnoc(ms: seq<ModuleInfo>, m: ModuleInfo)
    ensures Keys(ms + [m]) == Keys(ms) + {m.fullName}
  {
    assert forall x :: x in ms + [m] <==> x in ms || x == m;
  }

  lemma KeysCons(m: ModuleInfo, ms: seq<ModuleInfo>)
    ensures Keys([m] + ms) == {m.fullName} + Keys(ms)
  {
    assert forall x :: x in [m] + ms <==> x == m || x in ms;
  }

  lemma DistinctCons(m: ModuleInfo, ms: seq<ModuleInfo>)
    requires m.fullName !in Keys(ms) && DistinctKeys(ms)
    ensures DistinctKeys([m] + ms)
  {
    var s := [m] + ms;
    forall i, j | 0 <= i < j < |s| ensures s[i].fullName != s[j].fullName {
      if i == 0 {
        assert s[j] == ms[j - 1];
        assert s[j] in ms;
      } else {
        assert s[i] == ms[i - 1] && s[j] == ms[j - 1];
      }
    }
  }

  /** In a list with distinct keys, the first key does not occur again. */
  lemma DistinctHead(items: seq<ModuleInfo>)
    requires items != [] && DistinctKeys(items)
    ensures items[0].fullName !in Keys(items[1..])
  {
    var t := items[1..];
    forall j | 0 <= j < |t| ensures t[j].fullName != items[0].fullName {
      assert t[j] == items[j + 1];
    }
  }

  /** Which records are latest after appending `m`: `m` itself, and the earlier
      latest records with another full name. */
  lemma {:induction false} LatestSnoc(ms: seq<ModuleInfo>, m: ModuleInfo, x: ModuleInfo)
    ensures IsLatest(ms + [m], x) <==> x == m || (IsLatest(ms, x) && x.fullName != m.fullName)
  {
    var s := ms + [m];
    if x == m {
      assert s[|ms|] == x;
    } else if IsLatest(ms, x) && x.fullName != m.fullName {
      var i :| 0 <= i < |ms| && ms[i] == x && forall j :: i < j < |ms| ==> ms[j].fullName != x.fullName;
      assert s[i] == x;
      assert forall j :: i < j < |s| ==> s[j].fullName != x.fullName by {
        forall j | i < j < |s| ensures s[j].fullName != x.fullName {
          if j < |ms| { assert s[j] == ms[j]; }
        }
      }
    }
    if IsLatest(s, x) && x != m {
      var i :| 0 <= i < |s| && s[i] == x && forall j :: i < j < |s| ==> s[j].fullName != x.fullName;
      assert i != |ms|;
      assert ms[i] == x;
      assert forall j :: i < j < |ms| ==> ms[j].fullName != x.fullName by {
        forall j | i < j < |ms| ensures ms[j].fullName != x.fullName {
          assert s[j] == ms[j];
        }
      }
      assert s[|ms|] == m;
    }
  }

  /** A list with distinct keys has as many entries as keys. */
  lemma {:induction false} KeysOfDistinct(items: seq<ModuleInfo>)
    requires DistinctKeys(items)
    ensures |Keys(items)| == |items|
  {
    if items != [] {
      var t := items[1..];
      assert items == [items[0]] + t;
      KeysCons(items[0], t);
      DistinctHead(items);
      assert DistinctKeys(t) by {
        forall i, j | 0 <= i < j < |t| ensures t[i].fullName != t[j].fullName {
          assert t[i] == items[i + 1] && t[j] == items[j + 1];
        }
      }
      KeysOfDistinct(t);
    }
  }

  /** `d[m.full_name] = m` on a dictionary given by its entries in insertion
      order: an entry with that key has its value replaced in place, otherwise the
      entry goes at the end. */
  function Put(items: seq<ModuleInfo>, m: ModuleInfo): (r: seq<ModuleInfo>)
    requires DistinctKeys(items)
    ensures DistinctKeys(r)
    ensures Keys(r) == Keys(items) + {m.fullName}
    ensures forall x :: x in r <==> x == m || (x in items && x.fullName != m.fullName)
  {
    if items == [] then [m]
    else if items[0].fullName == m.fullName then
      var r := [m] + items[1..];
      assert items == [items[0]] + items[1..];
      KeysCons(items[0], items[1..]);
      KeysCons(m, items[1..]);
      DistinctHead(items);
      assert forall x :: x in items[1..] ==> x.fullName != m.fullName;
      DistinctCons(m, items[1..]);
      r
    else
      var rest := Put(items[1..], m);
      assert items == [items[0]] + items[1..];
      KeysCons(items[0], items[1..]);
      KeysCons(items[0], rest);
      DistinctHead(items);
      DistinctCons(items[0], rest);
      [items[0]] + rest
  }

  /** The entries of `{m.full_name: m for m in ms}` in the dictionary's order: one
      entry per full name of `ms`, holding the last record with that full name. */
  function DictItems(ms: seq<ModuleInfo>): (r: seq<ModuleInfo>)
    ensures DistinctKeys(r)
    ensures Keys(r) == Keys(ms)
    ensures forall x :: x in r <==> IsLatest(ms, x)
  {
    if ms == [] then []
    else
      var init, m := ms[..|ms| - 1], ms[|ms| - 1];
      var r := Put(DictItems(init), m);
      assert ms == init + [m];
      KeysSnoc(init, m);
      assert forall x :: x in r <==> IsLatest(ms, x) by {
        forall x ensures x in r <==> IsLatest(ms, x) {
          LatestSnoc(init, m, x);
        }
      }
      r
  }

  /** `[m for m in items if m.full_name not in keys]`. */
  function KeepAbsent(items: seq<ModuleInfo>, keys: set<string>): (r: seq<ModuleInfo>)
    ensures forall x :: x in r <==> x in items && x.fullName !in keys
    ensures Keys(r) == Keys(items) - keys
    ensures DistinctKeys(items) ==> DistinctKeys(r)
  {
    if items == [] then []
    else
      var rest := KeepAbsent(items[1..], keys);
      assert items == [items[0]] + items[1..];
      KeysCons(items[0], items[1..]);
      if items[0].fullName in keys then rest
      else
        KeysCons(items[0], rest);
        assert DistinctKeys(items) ==> DistinctKeys([items[0]] + rest) by {
          if DistinctKeys(items) {
            DistinctHead(items);
            DistinctCons(items[0], rest);
          }
        }
        [items[0]] + rest
  }

  /** The modules present only on the host that listed `ms1`: one record per full
      name of `ms1` that `ms2` lacks, the last one `ms1` lists under that name, and
      nothing else. */
  function OnlyFirst(ms1: seq<ModuleInfo>, ms2: seq<ModuleInfo>): (r: seq<ModuleInfo>)
    ensures DistinctKeys(r)
    ensures Keys(r) == Keys(ms1) - Keys(ms2)
    ensures forall x :: x in r <==> IsLatest(ms1, x) && x.fullName !in Keys(ms2)
  {
    KeepAbsent(DictItems(ms1), Keys(ms2))
  }

  /** The unique list has exactly one entry per full name that only the first
      host has. */
  lemma OnlyFirstSize(ms1: seq<ModuleInfo>, ms2: seq<ModuleInfo>)
    ensures |OnlyFirst(ms1, ms2)| == |Keys(ms1) - Keys(ms2)|
  {
    KeysOfDistinct(OnlyFirst(ms1, ms2));
  }

  /** A host whose full names all occur on the other host has no unique modules. */
  lemma NothingUnique(ms1: seq<ModuleInfo>, ms2: seq<ModuleInfo>)
    requires Keys(ms1) <= Keys(ms2)
    ensures OnlyFirst(ms1, ms2) == []
  {
    OnlyFirstSize(ms1, ms2);
  }

  lemma KeysOfOne(m: ModuleInfo)
    ensures Keys([m]) == {m.fullName}
  {
    assert m in [m];
  }

  /** Filtering out no key keeps every entry in place. */
  lemma {:induction false} KeepAbsentNothing(items: seq<ModuleInfo>)
    ensures KeepAbsent(items, {}) == items
  {
    if items != [] {
      KeepAbsentNothing(items[1..]);
      assert items == [items[0]] + items[1..];
    }
  }

  /** Against an empty host, every module of the other host is unique to it,
      deduplicated by full name; an empty host has no unique modules. */
  lemma OnlyFirstAgainstEmpty(ms: seq<ModuleInfo>)
    ensures OnlyFirst(ms, []) == DictItems(ms)
    ensures OnlyFirst([], ms) == []
  {
    assert Keys([]) == {};
    KeepAbsentNothing(DictItems(ms));
  }
}
