/**
 * Python's `sorted(xs, key=k)` for a string-valued key: a stable sort, so
 * items with equal keys keep their input order and nothing is merged or
 * dropped. Modelled as insertion sort, which computes the same (unique)
 * stable order as the Timsort behind `sorted`.
 */
module StableSort {
  import opened Text

  /** Every earlier item's key is `<=` every later item's key. */
  ghost predicate SortedBy<T>(s: seq<T>, key: T -> string)
  {
    forall i, j :: 0 <= i < j < |s| ==> LexLe(key(s[i]), key(s[j]))
  }

  /** The items of `s` whose key is `k`, in their order in `s`. */
  function WithKey<T>(s: seq<T>, key: T -> string, k: string): seq<T>
    decreases |s|
  {
    if |s| == 0 then []
    else (if key(s[0]) == k then [s[0]] else []) + WithKey(s[1..], key, k)
  }

  /** The items of `s` that satisfy `p`, in their order in `s`. */
  function Filter<T>(s: seq<T>, p: T -> bool): (r: seq<T>)
    ensures |r| <= |s|
    decreases |s|
  {
    if |s| == 0 then [] else (if p(s[0]) then [s[0]] else []) + Filter(s[1..], p)
  }

  lemma {:induction false} FilterAppend<T>(a: seq<T>, b: seq<T>, p: T -> bool)
    ensures Filter(a + b, p) == Filter(a, p) + Filter(b, p)
    decreases |a|
  {
    if |a| > 0 {
      assert (a + b)[1..] == a[1..] + b;
      FilterAppend(a[1..], b, p);
    } else {
      assert a + b == b;
    }
  }

  /** Places `x` before the first item of `s` whose key is not below `x`'s. */
  function Insert<T>(x: T, s: seq<T>, key: T -> string): (r: seq<T>)
    ensures |r| == |s| + 1
    ensures r[0] == x || (|s| > 0 && r[0] == s[0])
    ensures multiset(r) == multiset(s) + multiset{x}
    decreases |s|
  {
    if |s| == 0 then [x]
    else if LexLe(key(x), key(s[0])) then [x] + s
    else
      HeadTail(s);
      [s[0]] + Insert(x, s[1..], key)
  }

  /** `sorted(s, key=key)`. */
  function SortBy<T>(s: seq<T>, key: T -> string): (r: seq<T>)
    ensures |r| == |s|
    ensures SortedBy(r, key)
    ensures multiset(r) == multiset(s)
    ensures forall k :: WithKey(r, key, k) == WithKey(s, key, k)
    decreases |s|
  {
    if |s| == 0 then []
    else
      var rest := SortBy(s[1..], key);
      InsertKeepsOrder(s[0], rest, key);
      forall k ensures WithKey(Insert(s[0], rest, key), key, k) == WithKey(s, key, k) {
        InsertIsStable(s[0], rest, key, k);
        assert ([s[0]] + rest)[1..] == rest;
      }
      HeadTail(s);
      Insert(s[0], rest, key)
  }

  /** Adjacent items in order: the form insertion works with. */
  ghost predicate Chained<T>(s: seq<T>, key: T -> string)
  {
    forall i :: 0 < i < |s| ==> LexLe(key(s[i - 1]), key(s[i]))
  }

  lemma {:induction false} ChainedIsSorted<T>(s: seq<T>, key: T -> string)
    requires Chained(s, key)
    ensures SortedBy(s, key)
    decreases |s|
  {
    if |s| > 1 {
      ChainedIsSorted(s[1..], key);
      forall j | 1 <= j < |s| ensures LexLe(key(s[0]), key(s[j])) {
        if j > 1 {
          assert LexLe(key(s[1..][0]), key(s[1..][j - 1]));
          LexLeTransitive(key(s[0]), key(s[1]), key(s[j]));
        }
      }
      forall i, j | 0 <= i < j < |s| ensures LexLe(key(s[i]), key(s[j])) {
        if i > 0 { assert LexLe(key(s[1..][i - 1]), key(s[1..][j - 1])); }
      }
    }
  }

  lemma {:induction false} InsertKeepsOrder<T>(x: T, s: seq<T>, key: T -> string)
    requires SortedBy(s, key)
    ensures SortedBy(Insert(x, s, key), key)
    decreases |s|
  {
    InsertChained(x, s, key);
    ChainedIsSorted(Insert(x, s, key), key);
  }

  lemma {:induction false} InsertChained<T>(x: T, s: seq<T>, key: T -> string)
    requires SortedBy(s, key)
    ensures Chained(Insert(x, s, key), key)
    decreases |s|
  {
    if |s| > 0 && !LexLe(key(x), key(s[0])) {
      var r := Insert(x, s[1..], key);
      InsertChained(x, s[1..], key);
      LexLeTotal(key(x), key(s[0]));
      assert Insert(x, s, key) == [s[0]] + r;
      forall i | 0 < i < |[s[0]] + r| ensures LexLe(key(([s[0]] + r)[i - 1]), key(([s[0]] + r)[i])) {
        if i == 1 {
          if r[0] != x { assert r[0] == s[1]; }
        } else {
          assert ([s[0]] + r)[i - 1] == r[i - 2] && ([s[0]] + r)[i] == r[i - 1];
        }
      }
    } else if |s| > 0 {
      assert Insert(x, s, key) == [x] + s;
      forall i | 1 < i < |[x] + s| ensures LexLe(key(([x] + s)[i - 1]), key(([x] + s)[i])) {
        assert ([x] + s)[i - 1] == s[i - 2] && ([x] + s)[i] == s[i - 1];
      }
    }
  }

  lemma WithKeyCons<T>(x: T, s: seq<T>, key: T -> string, k: string)
    ensures WithKey([x] + s, key, k) == (if key(x) == k then [x] else []) + WithKey(s, key, k)
  {
    assert ([x] + s)[1..] == s;
  }

  lemma FilterCons<T>(x: T, s: seq<T>, p: T -> bool)
    ensures Filter([x] + s, p) == (if p(x) then [x] else []) + Filter(s, p)
  {
    assert ([x] + s)[1..] == s;
  }

  lemma TailSorted<T>(s: seq<T>, key: T -> string)
    requires SortedBy(s, key) && |s| > 0
    ensures SortedBy(s[1..], key)
  {
    var tail := s[1..];
    forall i, j | 0 <= i < j < |tail| ensures LexLe(key(tail[i]), key(tail[j])) {
      assert tail[i] == s[i + 1] && tail[j] == s[j + 1];
    }
  }

  /** Inserting `x` into sorted `s` puts it before every item of its own key. */
  lemma {:induction false} InsertIsStable<T>(x: T, s: seq<T>, key: T -> string, k: string)
    requires SortedBy(s, key)
    ensures WithKey(Insert(x, s, key), key, k) == WithKey([x] + s, key, k)
    decreases |s|, 1
  {
    if |s| > 0 && !LexLe(key(x), key(s[0])) {
      InsertIsStablePast(x, s, key, k);
    } else {
      assert Insert(x, s, key) == [x] + s;
    }
  }

  /** The case where `x` goes past the first item of `s`. */
  lemma {:induction false} InsertIsStablePast<T>(x: T, s: seq<T>, key: T -> string, k: string)
    requires SortedBy(s, key)
    requires |s| > 0 && !LexLe(key(x), key(s[0]))
    ensures WithKey(Insert(x, s, key), key, k) == WithKey([x] + s, key, k)
    decreases |s|, 0
  {
    var tail := s[1..];
    var ins := Insert(x, tail, key);
    TailSorted(s, key);
    InsertIsStable(x, tail, key, k);
    assert Insert(x, s, key) == [s[0]] + ins;
    var w0: seq<T> := if key(s[0]) == k then [s[0]] else [];
    var wx: seq<T> := if key(x) == k then [x] else [];
    var rest := WithKey(tail, key, k);
    WithKeyCons(s[0], ins, key, k);
    WithKeyCons(x, tail, key, k);
    WithKeyCons(x, s, key, k);
    HeadTail(s);
    WithKeyCons(s[0], tail, key, k);
    if key(x) == k && key(s[0]) == k { LexLeReflexive(k); }
    assert w0 + wx == wx + w0;
    assert WithKey(Insert(x, s, key), key, k) == w0 + (wx + rest);
    assert WithKey([x] + s, key, k) == wx + (w0 + rest);
    AppendAssoc(w0, wx, rest);
    AppendAssoc(wx, w0, rest);
  }

  lemma AppendAssoc<T>(a: seq<T>, b: seq<T>, c: seq<T>)
    ensures a + (b + c) == (a + b) + c
  {
  }

  /** A sorted sequence is left as it is: sorting is idempotent. */
  lemma {:induction false} SortByFixesSorted<T>(s: seq<T>, key: T -> string)
    requires SortedBy(s, key)
    ensures SortBy(s, key) == s
    decreases |s|
  {
    if |s| > 0 {
      var tail := s[1..];
      TailSorted(s, key);
      SortByFixesSorted(tail, key);
      if |tail| > 0 { assert LexLe(key(s[0]), key(s[1])); }
      assert [s[0]] + tail == s;
    }
  }

  /** Filtering the input of a stable sort or its output gives the same items in the same order. */
  lemma {:induction false} SortByCommutesWithFilter<T>(s: seq<T>, key: T -> string, p: T -> bool)
    ensures Filter(SortBy(s, key), p) == SortBy(Filter(s, p), key)
    decreases |s|
  {
    if |s| > 0 {
      var tail := s[1..];
      var rest := SortBy(tail, key);
      assert SortBy(s, key) == Insert(s[0], rest, key);
      SortByCommutesWithFilter(tail, key, p);
      var frest := Filter(rest, p);
      assert frest == SortBy(Filter(tail, p), key);
      FilterInsert(s[0], rest, key, p);
      HeadTail(s);
      FilterCons(s[0], tail, p);
      var fs := Filter(s, p);
      if p(s[0]) {
        assert fs == [s[0]] + Filter(tail, p);
        assert fs[0] == s[0] && fs[1..] == Filter(tail, p);
        assert SortBy(fs, key) == Insert(s[0], frest, key);
      } else {
        assert fs == Filter(tail, p);
      }
    }
  }

  lemma {:induction false} FilterInsert<T>(x: T, s: seq<T>, key: T -> string, p: T -> bool)
    requires SortedBy(s, key)
    ensures Filter(Insert(x, s, key), p) ==
            if p(x) then Insert(x, Filter(s, p), key) else Filter(s, p)
    decreases |s|, 1
  {
    if |s| == 0 {
    } else if LexLe(key(x), key(s[0])) {
      assert Insert(x, s, key) == [x] + s;
      FilterCons(x, s, p);
      var fs := Filter(s, p);
      if p(x) && |fs| > 0 {
        FilterKeepsFirstKeyBound(s, key, p);
        LexLeTransitive(key(x), key(s[0]), key(fs[0]));
        assert Insert(x, fs, key) == [x] + fs;
      }
    } else {
      FilterInsertPast(x, s, key, p);
    }
  }

  /** The case where `x` goes past the first item of `s`. */
  lemma {:induction false} FilterInsertPast<T>(x: T, s: seq<T>, key: T -> string, p: T -> bool)
    requires SortedBy(s, key)
    requires |s| > 0 && !LexLe(key(x), key(s[0]))
    ensures Filter(Insert(x, s, key), p) ==
            if p(x) then Insert(x, Filter(s, p), key) else Filter(s, p)
    decreases |s|, 0
  {
    var tail := s[1..];
    var ins := Insert(x, tail, key);
    TailSorted(s, key);
    FilterInsert(x, tail, key, p);
    var ftail := Filter(tail, p);
    var fins := Filter(ins, p);
    assert fins == if p(x) then Insert(x, ftail, key) else ftail;
    assert Insert(x, s, key) == [s[0]] + ins;
    FilterCons(s[0], ins, p);
    HeadTail(s);
    FilterCons(s[0], tail, p);
    var fs := Filter(s, p);
    if p(s[0]) {
      assert fs == [s[0]] + ftail;
      assert Filter(Insert(x, s, key), p) == [s[0]] + fins;
      if p(x) {
        assert fs[0] == s[0] && fs[1..] == ftail;
        assert Insert(x, fs, key) == [s[0]] + Insert(x, ftail, key);
      }
    } else {
      assert fs == ftail;
      assert Filter(Insert(x, s, key), p) == fins;
    }
  }

  /** Every item that survives a filter of sorted `s` has a key at least that of `s[0]`. */
  lemma {:induction false} FilterKeepsFirstKeyBound<T>(s: seq<T>, key: T -> string, p: T -> bool)
    requires SortedBy(s, key) && |s| > 0 && |Filter(s, p)| > 0
    ensures LexLe(key(s[0]), key(Filter(s, p)[0]))
  {
    var i := FirstSatisfying(s, p);
    if i == 0 { LexLeReflexive(key(s[0])); }
  }

  /** The first item that a filter keeps is the item at the first index satisfying `p`. */
  lemma {:induction false} FirstSatisfying<T>(s: seq<T>, p: T -> bool) returns (i: nat)
    requires |Filter(s, p)| > 0
    ensures i < |s| && Filter(s, p)[0] == s[i]
    decreases |s|
  {
    if p(s[0]) {
      i := 0;
    } else {
      var j := FirstSatisfying(s[1..], p);
      i := j + 1;
    }
  }

  lemma SortBySingleton<T>(x: T, key: T -> string)
    ensures SortBy([x], key) == [x]
  {
    assert [x][1..] == [];
  }

  /** No two items of `s` share a key. */
  predicate DistinctKeys<T>(s: seq<T>, key: T -> string)
  {
    forall i, j :: 0 <= i < j < |s| ==> key(s[i]) != key(s[j])
  }

  lemma {:induction false} WithKeyAbsent<T>(s: seq<T>, key: T -> string, k: string)
    requires forall i :: 0 <= i < |s| ==> key(s[i]) != k
    ensures WithKey(s, key, k) == []
    decreases |s|
  {
    if |s| > 0 {
      WithKeyAbsent(s[1..], key, k);
    }
  }

  lemma {:induction false} WithKeyAtMostOne<T>(s: seq<T>, key: T -> string, k: string)
    requires DistinctKeys(s, key)
    ensures |WithKey(s, key, k)| <= 1
    decreases |s|
  {
    if |s| > 0 {
      if key(s[0]) == k {
        WithKeyAbsent(s[1..], key, k);
      } else {
        WithKeyAtMostOne(s[1..], key, k);
      }
    }
  }

  lemma {:induction false} WithKeyTwo<T>(s: seq<T>, key: T -> string, i: nat, j: nat)
    requires i < j < |s| && key(s[i]) == key(s[j])
    ensures |WithKey(s, key, key(s[j]))| >= 2
    decreases |s|
  {
    if i > 0 {
      WithKeyTwo(s[1..], key, i - 1, j - 1);
    } else {
      WithKeyPresent(s[1..], key, j - 1);
    }
  }

  lemma {:induction false} WithKeyPresent<T>(s: seq<T>, key: T -> string, j: nat)
    requires j < |s|
    ensures |WithKey(s, key, key(s[j]))| >= 1
    decreases |s|
  {
    if j > 0 {
      WithKeyPresent(s[1..], key, j - 1);
    }
  }

  /** Sorting items whose keys are distinct keeps them distinct. */
  lemma SortByKeepsKeysDistinct<T>(s: seq<T>, key: T -> string)
    requires DistinctKeys(s, key)
    ensures DistinctKeys(SortBy(s, key), key)
  {
    var r := SortBy(s, key);
    forall i, j | 0 <= i < j < |r| ensures key(r[i]) != key(r[j]) {
      WithKeyAtMostOne(s, key, key(r[j]));
      if key(r[i]) == key(r[j]) {
        WithKeyTwo(r, key, i, j);
      }
    }
  }
}
