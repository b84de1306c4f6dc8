/** The list operations the Python code takes from the language: the slice
    `s[:n]`, the stable `sorted(..., reverse=True)` and the "first one wins"
    de-duplication loop written out in qa_kb.py. */
module Sequences {

  /** Python's `s[:n]`: the first `n` elements, where a negative `n` drops
      `-n` elements from the end. */
  function Prefix<T>(s: seq<T>, n: int): (r: seq<T>)
    ensures n >= 0 ==> |r| == (if n <= |s| then n else |s|)
    ensures n < 0 ==> |r| == (if -n <= |s| then |s| + n else 0)
    ensures r == s[..|r|]
  {
    if n >= 0 then (if n <= |s| then s[..n] else s)
    else if -n <= |s| then s[..|s| + n] else []
  }

  // ---------------------------------------------------------------------
  // Stable descending sort
  // ---------------------------------------------------------------------

  /** No element has a smaller key than an element after it. */
  ghost predicate NonIncreasing<T>(s: seq<T>, key: T -> int) {
    forall i, j :: 0 <= i < j < |s| ==> key(s[j]) <= key(s[i])
  }

  /** The elements of `s` whose key is `k`, in their order in `s`. */
  function WithKey<T>(s: seq<T>, key: T -> int, k: int): (r: seq<T>)
    ensures |r| <= |s|
  {
    if |s| == 0 then []
    else (if key(s[0]) == k then [s[0]] else []) + WithKey(s[1..], key, k)
  }

  /** Puts `x` in front of the first element whose key is not larger. */
  function InsertDesc<T>(x: T, s: seq<T>, key: T -> int): seq<T>
  {
    if |s| == 0 || key(s[0]) <= key(x) then [x] + s
    else [s[0]] + InsertDesc(x, s[1..], key)
  }

  /** Python's `sorted(s, key=key, reverse=True)`. */
  function SortDesc<T>(s: seq<T>, key: T -> int): seq<T>
  {
    if |s| == 0 then [] else InsertDesc(s[0], SortDesc(s[1..], key), key)
  }

  lemma {:induction false} InsertDescPermutes<T>(x: T, s: seq<T>, key: T -> int)
    ensures multiset(InsertDesc(x, s, key)) == multiset(s) + multiset{x}
  {
    if |s| > 0 && key(s[0]) > key(x) {
      InsertDescPermutes(x, s[1..], key);
      assert s == [s[0]] + s[1..];
    }
  }

  lemma {:induction false} InsertDescSorted<T>(x: T, s: seq<T>, key: T -> int)
    requires NonIncreasing(s, key)
    ensures NonIncreasing(InsertDesc(x, s, key), key)
  {
    if |s| == 0 || key(s[0]) <= key(x) {
      NonIncreasingCons(x, s, key);
    } else {
      NonIncreasingTail(s, key);
      InsertDescSorted(x, s[1..], key);
      NonIncreasingBound(s, key);
      InsertDescBound(x, s[1..], key, key(s[0]));
      NonIncreasingCons(s[0], InsertDesc(x, s[1..], key), key);
    }
  }

  /** In a non-increasing sequence the first key bounds the rest. */
  lemma NonIncreasingBound<T>(s: seq<T>, key: T -> int)
    requires |s| > 0 && NonIncreasing(s, key)
    ensures forall i :: 0 <= i < |s[1..]| ==> key(s[1..][i]) <= key(s[0])
  {
    forall i | 0 <= i < |s[1..]| ensures key(s[1..][i]) <= key(s[0]) {
      assert s[1..][i] == s[i + 1];
    }
  }

  lemma NonIncreasingTail<T>(s: seq<T>, key: T -> int)
    requires |s| > 0 && NonIncreasing(s, key)
    ensures NonIncreasing(s[1..], key)
  {
    forall i, j | 0 <= i < j < |s[1..]| ensures key(s[1..][j]) <= key(s[1..][i]) {
      assert s[1..][i] == s[i + 1] && s[1..][j] == s[j + 1];
    }
  }

  lemma NonIncreasingCons<T>(x: T, s: seq<T>, key: T -> int)
    requires NonIncreasing(s, key)
    requires forall i :: 0 <= i < |s| ==> key(s[i]) <= key(x)
    ensures NonIncreasing([x] + s, key)
  {
    var r := [x] + s;
    forall i, j | 0 <= i < j < |r| ensures key(r[j]) <= key(r[i]) {
      assert r[j] == s[j - 1];
      if i > 0 { assert r[i] == s[i - 1]; }
    }
  }

  /** A bound on `x` and on every element of `s` bounds the insertion. */
  lemma {:induction false} InsertDescBound<T>(x: T, s: seq<T>, key: T -> int, b: int)
    requires key(x) <= b && forall i :: 0 <= i < |s| ==> key(s[i]) <= b
    ensures forall i :: 0 <= i < |InsertDesc(x, s, key)| ==> key(InsertDesc(x, s, key)[i]) <= b
  {
    if |s| == 0 || key(s[0]) <= key(x) {
      var r := [x] + s;
      forall i | 0 <= i < |r| ensures key(r[i]) <= b {
        if i > 0 { assert r[i] == s[i - 1]; }
      }
    } else {
      forall i | 0 <= i < |s[1..]| ensures key(s[1..][i]) <= b {
        assert s[1..][i] == s[i + 1];
      }
      InsertDescBound(x, s[1..], key, b);
      var t := InsertDesc(x, s[1..], key);
      var r := [s[0]] + t;
      forall i | 0 <= i < |r| ensures key(r[i]) <= b {
        if i > 0 { assert r[i] == t[i - 1]; }
      }
    }
  }

  lemma {:induction false} InsertDescWithKey<T>(x: T, s: seq<T>, key: T -> int, k: int)
    ensures WithKey(InsertDesc(x, s, key), key, k)
            == (if key(x) == k then [x] else []) + WithKey(s, key, k)
  {
    if |s| == 0 || key(s[0]) <= key(x) {
      var r := [x] + s;
      assert r[0] == x && r[1..] == s;
      assert WithKey(r, key, k) == (if key(x) == k then [x] else []) + WithKey(s, key, k);
    } else {
      var t := InsertDesc(x, s[1..], key);
      var r := [s[0]] + t;
      InsertDescWithKey(x, s[1..], key, k);
      assert r[0] == s[0] && r[1..] == t;
      assert WithKey(r, key, k) == (if key(s[0]) == k then [s[0]] else []) + WithKey(t, key, k);
      assert WithKey(s, key, k) == (if key(s[0]) == k then [s[0]] else []) + WithKey(s[1..], key, k);
    }
  }

  /** The sort orders by key, keeps every element, and keeps the relative
      order of elements with equal keys (Python's sort is stable). */
  lemma {:induction false} SortDescFacts<T>(s: seq<T>, key: T -> int)
    ensures NonIncreasing(SortDesc(s, key), key)
    ensures multiset(SortDesc(s, key)) == multiset(s)
    ensures forall k :: WithKey(SortDesc(s, key), key, k) == WithKey(s, key, k)
  {
    if |s| > 0 {
      var t := SortDesc(s[1..], key);
      SortDescFacts(s[1..], key);
      InsertDescPermutes(s[0], t, key);
      InsertDescSorted(s[0], t, key);
      forall k ensures WithKey(InsertDesc(s[0], t, key), key, k) == WithKey(s, key, k) {
        InsertDescWithKey(s[0], t, key, k);
      }
      assert s == [s[0]] + s[1..];
    }
  }

  /** Whatever the top `n` hold comes from `s`. */
  lemma TopFrom<T>(s: seq<T>, key: T -> int, n: int, x: T)
    requires x in Prefix(SortDesc(s, key), n)
    ensures x in s
  {
    SortDescFacts(s, key);
    assert x in multiset(SortDesc(s, key));
  }

  /** Cutting a sequence short cuts each of its equal-key groups short. */
  lemma {:induction false} WithKeyOfPrefix<T>(s: seq<T>, key: T -> int, k: int, m: nat)
    requires m <= |s|
    ensures |WithKey(s[..m], key, k)| <= |WithKey(s, key, k)|
    ensures WithKey(s[..m], key, k) == WithKey(s, key, k)[..|WithKey(s[..m], key, k)|]
  {
    if m > 0 {
      WithKeyOfPrefix(s[1..], key, k, m - 1);
      assert s[..m][1..] == s[1..][..m - 1];
    }
  }

  /** A prefix of a non-increasing sequence is non-increasing. */
  lemma PrefixNonIncreasing<T>(s: seq<T>, key: T -> int, m: nat)
    requires m <= |s|
    requires NonIncreasing(s, key)
    ensures NonIncreasing(s[..m], key)
  {
  }

  /** `sorted(s, key=key, reverse=True)[:n]`: the result is in order, is
      drawn from `s`, nothing left out has a larger key than anything kept,
      and elements with equal keys keep their order in `s` and are kept
      from the front. */
  lemma TopByKey<T>(s: seq<T>, key: T -> int, n: int)
    ensures |SortDesc(s, key)| == |s|
    ensures var r := Prefix(SortDesc(s, key), n);
      && NonIncreasing(r, key)
      && multiset(r) <= multiset(s)
      && (forall i, y :: 0 <= i < |r| && y in multiset(s) - multiset(r) ==> key(y) <= key(r[i]))
      && (forall k :: |WithKey(r, key, k)| <= |WithKey(s, key, k)|
                      && WithKey(r, key, k) == WithKey(s, key, k)[..|WithKey(r, key, k)|])
  {
    SortDescFacts(s, key);
    var t := SortDesc(s, key);
    assert |t| == |s| by {
      assert |t| == |multiset(t)|;
    }
    var r := Prefix(t, n);
    PrefixNonIncreasing(t, key, |r|);
    TopKeepsTheLargest(t, s, key, |r|);
    forall k ensures |WithKey(r, key, k)| <= |WithKey(s, key, k)|
                     && WithKey(r, key, k) == WithKey(s, key, k)[..|WithKey(r, key, k)|] {
      WithKeyOfPrefix(t, key, k, |r|);
    }
  }

  lemma TopKeepsTheLargest<T>(t: seq<T>, s: seq<T>, key: T -> int, m: nat)
    requires m <= |t| && NonIncreasing(t, key) && multiset(t) == multiset(s)
    ensures multiset(t[..m]) <= multiset(s)
    ensures forall i, y :: 0 <= i < m && y in multiset(s) - multiset(t[..m]) ==> key(y) <= key(t[..m][i])
  {
    var r := t[..m];
    assert t == r + t[m..];
    assert multiset(t) == multiset(r) + multiset(t[m..]);
    forall i, y | 0 <= i < m && y in multiset(s) - multiset(r) ensures key(y) <= key(r[i]) {
      assert y in multiset(t[m..]);
      var j :| 0 <= j < |t[m..]| && t[m..][j] == y;
      assert t[m + j] == y && t[i] == r[i];
    }
  }

  // ---------------------------------------------------------------------
  // De-duplication by key, first occurrence wins
  // ---------------------------------------------------------------------

  /** The keys of the elements of `s`. */
  function KeysOf<T, K(==)>(s: seq<T>, key: T -> K): set<K>
  {
    set i | 0 <= i < |s| :: key(s[i])
  }

  lemma KeysOfSnoc<T, K>(s: seq<T>, x: T, key: T -> K)
    ensures KeysOf(s + [x], key) == KeysOf(s, key) + {key(x)}
  {
    var t := s + [x];
    forall k | k in KeysOf(t, key) ensures k in KeysOf(s, key) + {key(x)} {
      var i :| 0 <= i < |t| && key(t[i]) == k;
      if i < |s| { assert t[i] == s[i]; }
    }
    forall k | k in KeysOf(s, key) ensures k in KeysOf(t, key) {
      var i :| 0 <= i < |s| && key(s[i]) == k;
      assert t[i] == s[i];
    }
    assert t[|s|] == x;
  }

  /** The position of the first element of `s` whose key is `k`. */
  function FirstIndex<T, K(==)>(s: seq<T>, key: T -> K, k: K): (i: nat)
    requires k in KeysOf(s, key)
    ensures i < |s| && key(s[i]) == k
    ensures forall j :: 0 <= j < i ==> key(s[j]) != k
  {
    var p := s[..|s| - 1];
    if k in KeysOf(p, key) then FirstIndex(p, key, k)
    else
      assert forall j :: 0 <= j < |s| - 1 ==> key(p[j]) != k;
      |s| - 1
  }

  /** The de-duplication loop of qa_kb.py: walk `s` in order and keep an
      element only if no element kept before it has the same key. */
  function DedupBy<T, K(==)>(s: seq<T>, key: T -> K): seq<T>
  {
    if |s| == 0 then []
    else
      var kept := DedupBy(s[..|s| - 1], key);
      if key(s[|s| - 1]) in KeysOf(kept, key) then kept else kept + [s[|s| - 1]]
  }

  lemma {:induction false} DedupShorter<T, K>(s: seq<T>, key: T -> K)
    ensures |DedupBy(s, key)| <= |s|
  {
    if |s| > 0 {
      DedupShorter(s[..|s| - 1], key);
    }
  }

  /** After de-duplication no two elements share a key, and every key of
      the input is still present exactly once. */
  lemma DedupDistinct<T, K>(s: seq<T>, key: T -> K)
    ensures var r := DedupBy(s, key);
      && (forall i, j :: 0 <= i < j < |r| ==> key(r[i]) != key(r[j]))
      && KeysOf(r, key) == KeysOf(s, key)
      && |r| == |KeysOf(s, key)|
  {
    DedupKeys(s, key);
    DedupKeysDistinct(s, key);
    DistinctKeysCount(DedupBy(s, key), key);
  }

  /** De-duplication keeps every key of the input and adds none. */
  lemma {:induction false} DedupKeys<T, K>(s: seq<T>, key: T -> K)
    ensures KeysOf(DedupBy(s, key), key) == KeysOf(s, key)
  {
    if |s| > 0 {
      var p := s[..|s| - 1];
      var x := s[|s| - 1];
      var rp := DedupBy(p, key);
      DedupKeys(p, key);
      assert s == p + [x];
      KeysOfSnoc(p, x, key);
      KeysOfSnoc(rp, x, key);
    }
  }

  /** No two elements kept by de-duplication share a key. */
  lemma {:induction false} DedupKeysDistinct<T, K>(s: seq<T>, key: T -> K)
    ensures DistinctKeys(DedupBy(s, key), key)
  {
    if |s| > 0 {
      var p := s[..|s| - 1];
      var x := s[|s| - 1];
      var rp := DedupBy(p, key);
      DedupKeysDistinct(p, key);
      if key(x) !in KeysOf(rp, key) {
        var r := rp + [x];
        assert DedupBy(s, key) == r;
        forall i, j | 0 <= i < j < |r| ensures key(r[i]) != key(r[j]) {
          assert r[i] == rp[i];
          if j == |rp| {
            assert key(rp[i]) in KeysOf(rp, key);
          } else {
            assert r[j] == rp[j];
          }
        }
      }
    }
  }

  /** Elements with pairwise different keys have as many keys as elements. */
  lemma {:induction false} DistinctKeysCount<T, K>(r: seq<T>, key: T -> K)
    requires DistinctKeys(r, key)
    ensures |r| == |KeysOf(r, key)|
  {
    if |r| > 0 {
      var p := r[..|r| - 1];
      var x := r[|r| - 1];
      assert r == p + [x];
      DistinctKeysCount(p, key);
      KeysOfSnoc(p, x, key);
      forall i | 0 <= i < |p| ensures key(p[i]) != key(x) {
        assert p[i] == r[i];
      }
      assert key(x) !in KeysOf(p, key);
    }
  }

  /** Appending an element does not move the first position of a key
      that was already present. */
  lemma FirstIndexSnoc<T, K>(p: seq<T>, x: T, key: T -> K, k: K)
    requires k in KeysOf(p, key)
    ensures k in KeysOf(p + [x], key) && FirstIndex(p + [x], key, k) == FirstIndex(p, key, k)
  {
    KeysOfSnoc(p, x, key);
    assert (p + [x])[..|p|] == p;
  }

  /** A key first seen in the last element is first found there. */
  lemma FirstIndexLast<T, K>(p: seq<T>, x: T, key: T -> K)
    requires key(x) !in KeysOf(p, key)
    ensures key(x) in KeysOf(p + [x], key) && FirstIndex(p + [x], key, key(x)) == |p|
  {
    KeysOfSnoc(p, x, key);
    assert (p + [x])[..|p|] == p;
  }

  /** The element kept for each key is the first one with that key, and the
      kept elements are in input order. */
  lemma DedupKeepsFirst<T, K>(s: seq<T>, key: T -> K)
    ensures var r := DedupBy(s, key);
      && (forall m :: 0 <= m < |r| ==> key(r[m]) in KeysOf(s, key))
      && (forall m :: 0 <= m < |r| ==> r[m] == s[FirstIndex(s, key, key(r[m]))])
      && (forall m1, m2 :: 0 <= m1 < m2 < |r| ==>
            FirstIndex(s, key, key(r[m1])) < FirstIndex(s, key, key(r[m2])))
  {
    DedupPicksFirst(s, key);
    DedupFirstsInOrder(s, key);
  }

  /** Any element kept by `DedupBy` is the first element of `s` with its key. */
  lemma DedupMember<T, K>(s: seq<T>, key: T -> K, x: T)
    requires x in multiset(DedupBy(s, key))
    ensures key(x) in KeysOf(s, key) && x == s[FirstIndex(s, key, key(x))]
  {
    var r := DedupBy(s, key);
    DedupKeepsFirst(s, key);
    var p :| 0 <= p < |r| && r[p] == x;
  }

  /** Each kept element is the first element of the input with its key. */
  lemma {:induction false} DedupPicksFirst<T, K>(s: seq<T>, key: T -> K)
    ensures var r := DedupBy(s, key);
      forall m :: 0 <= m < |r| ==> key(r[m]) in KeysOf(s, key) && r[m] == s[FirstIndex(s, key, key(r[m]))]
  {
    if |s| > 0 {
      var p := s[..|s| - 1];
      var x := s[|s| - 1];
      var rp := DedupBy(p, key);
      DedupPicksFirst(p, key);
      assert s == p + [x];
      forall m | 0 <= m < |rp|
        ensures key(rp[m]) in KeysOf(s, key) && rp[m] == s[FirstIndex(s, key, key(rp[m]))]
      {
        assert key(DedupBy(p, key)[m]) in KeysOf(p, key);
        FirstIndexSnoc(p, x, key, key(rp[m]));
        assert s[FirstIndex(p, key, key(rp[m]))] == p[FirstIndex(p, key, key(rp[m]))];
      }
      if key(x) !in KeysOf(rp, key) {
        var r := rp + [x];
        assert DedupBy(s, key) == r;
        DedupKeys(p, key);
        FirstIndexLast(p, x, key);
        forall m | 0 <= m < |r|
          ensures key(r[m]) in KeysOf(s, key) && r[m] == s[FirstIndex(s, key, key(r[m]))]
        {
          if m < |rp| {
            assert r[m] == rp[m];
          }
        }
      }
    }
  }

  /** The kept elements appear in the order of their first positions. */
  lemma {:induction false} DedupFirstsInOrder<T, K>(s: seq<T>, key: T -> K)
    ensures var r := DedupBy(s, key);
      forall m :: 0 <= m < |r| ==> key(r[m]) in KeysOf(s, key)
    ensures var r := DedupBy(s, key);
      forall m1, m2 :: 0 <= m1 < m2 < |r| ==>
        FirstIndex(s, key, key(r[m1])) < FirstIndex(s, key, key(r[m2]))
  {
    if |s| > 0 {
      var p := s[..|s| - 1];
      var x := s[|s| - 1];
      var rp := DedupBy(p, key);
      DedupFirstsInOrder(p, key);
      assert s == p + [x];
      KeysOfSnoc(p, x, key);
      forall m | 0 <= m < |rp|
        ensures key(rp[m]) in KeysOf(p, key) && key(rp[m]) in KeysOf(s, key)
        ensures FirstIndex(s, key, key(rp[m])) == FirstIndex(p, key, key(rp[m]))
      {
        assert key(DedupBy(p, key)[m]) in KeysOf(p, key);
        FirstIndexSnoc(p, x, key, key(rp[m]));
      }
      if key(x) !in KeysOf(rp, key) {
        var r := rp + [x];
        assert DedupBy(s, key) == r;
        DedupKeys(p, key);
        FirstIndexLast(p, x, key);
        forall m1, m2 | 0 <= m1 < m2 < |r|
          ensures key(r[m1]) in KeysOf(s, key) && key(r[m2]) in KeysOf(s, key)
          ensures FirstIndex(s, key, key(r[m1])) < FirstIndex(s, key, key(r[m2]))
        {
          assert r[m1] == rp[m1];
          if m2 < |rp| {
            assert r[m2] == rp[m2];
          }
        }
        forall m | 0 <= m < |r| ensures key(r[m]) in KeysOf(s, key) {
          if m < |rp| {
            assert r[m] == rp[m];
          }
        }
      }
    }
  }

  // ---------------------------------------------------------------------
  // Filtering
  // ---------------------------------------------------------------------

  /** `[x for x in s if p(x)]`, and a WHERE clause over a table scan. */
  function Filter<T>(s: seq<T>, p: T -> bool): (r: seq<T>)
    ensures |r| <= |s|
    ensures forall i :: 0 <= i < |r| ==> r[i] in s && p(r[i])
    ensures forall i :: 0 <= i < |s| && p(s[i]) ==> s[i] in r
  {
    if |s| == 0 then []
    else
      var rest := Filter(s[1..], p);
      assert forall i :: 1 <= i < |s| ==> s[i] == s[1..][i - 1];
      var r := (if p(s[0]) then [s[0]] else []) + rest;
      assert forall i :: 0 <= i < |rest| ==> rest[i] in r;
      r
  }

  ghost predicate Increasing<T>(s: seq<T>, key: T -> int) {
    forall i, j :: 0 <= i < j < |s| ==> key(s[i]) < key(s[j])
  }

  /** Filtering keeps the order of what it keeps. */
  lemma {:induction false} FilterIncreasing<T>(s: seq<T>, p: T -> bool, key: T -> int)
    requires Increasing(s, key)
    ensures Increasing(Filter(s, p), key)
  {
    if |s| > 0 {
      var t := s[1..];
      IncreasingTail(s, key);
      FilterIncreasing(t, p, key);
      var rest := Filter(t, p);
      if p(s[0]) {
        forall m | 0 <= m < |rest| ensures key(s[0]) < key(rest[m]) {
          var j :| 0 <= j < |t| && t[j] == rest[m];
          assert s[j + 1] == rest[m];
        }
        IncreasingCons(s[0], rest, key);
      }
    }
  }

  lemma IncreasingTail<T>(s: seq<T>, key: T -> int)
    requires |s| > 0 && Increasing(s, key)
    ensures Increasing(s[1..], key)
  {
    forall i, j | 0 <= i < j < |s[1..]| ensures key(s[1..][i]) < key(s[1..][j]) {
      assert s[1..][i] == s[i + 1] && s[1..][j] == s[j + 1];
    }
  }

  lemma IncreasingCons<T>(x: T, s: seq<T>, key: T -> int)
    requires Increasing(s, key)
    requires forall i :: 0 <= i < |s| ==> key(x) < key(s[i])
    ensures Increasing([x] + s, key)
  {
    var r := [x] + s;
    forall i, j | 0 <= i < j < |r| ensures key(r[i]) < key(r[j]) {
      assert r[j] == s[j - 1];
      if i > 0 { assert r[i] == s[i - 1]; }
    }
  }

  /** What a filter keeps and what its negation keeps add up to the whole. */
  lemma {:induction false} FilterComplement<T>(s: seq<T>, p: T -> bool, q: T -> bool)
    requires forall x :: q(x) == !p(x)
    ensures |Filter(s, p)| + |Filter(s, q)| == |s|
  {
    if |s| > 0 {
      FilterComplement(s[1..], p, q);
    }
  }

  /** No element occurs twice. */
  ghost predicate Distinct<T>(s: seq<T>) {
    forall i, j :: 0 <= i < j < |s| ==> s[i] != s[j]
  }

  lemma DistinctConcat<T>(a: seq<T>, b: seq<T>)
    requires Distinct(a) && Distinct(b)
    requires forall i, j :: 0 <= i < |a| && 0 <= j < |b| ==> a[i] != b[j]
    ensures Distinct(a + b)
  {
    var c := a + b;
    forall i, j | 0 <= i < j < |c| ensures c[i] != c[j] {
      if j >= |a| {
        if i >= |a| { assert c[i] == b[i - |a|] && c[j] == b[j - |a|]; }
        else { assert c[j] == b[j - |a|]; }
      }
    }
  }

  /** Filtering a sequence whose keys are pairwise different keeps them so. */
  lemma {:induction false} FilterDistinctKeys<T, K>(s: seq<T>, p: T -> bool, key: T -> K)
    requires forall i, j :: 0 <= i < j < |s| ==> key(s[i]) != key(s[j])
    ensures forall i, j :: 0 <= i < j < |Filter(s, p)| ==> key(Filter(s, p)[i]) != key(Filter(s, p)[j])
  {
    if |s| > 0 {
      var t := s[1..];
      forall i, j | 0 <= i < j < |t| ensures key(t[i]) != key(t[j]) {
        assert t[i] == s[i + 1] && t[j] == s[j + 1];
      }
      FilterDistinctKeys(t, p, key);
      var rest := Filter(t, p);
      forall m | 0 <= m < |rest| ensures key(rest[m]) != key(s[0]) {
        var j :| 0 <= j < |t| && t[j] == rest[m];
        assert s[j + 1] == rest[m];
      }
      if p(s[0]) {
        var f := [s[0]] + rest;
        forall i, j | 0 <= i < j < |f| ensures key(f[i]) != key(f[j]) {
          assert f[j] == rest[j - 1];
          if i > 0 { assert f[i] == rest[i - 1]; }
        }
      }
    }
  }

  lemma {:induction false} FilterSnoc<T>(s: seq<T>, x: T, p: T -> bool)
    ensures Filter(s + [x], p) == Filter(s, p) + (if p(x) then [x] else [])
  {
    if |s| == 0 {
      assert s + [x] == [x];
    } else {
      assert (s + [x])[0] == s[0] && (s + [x])[1..] == s[1..] + [x];
      FilterSnoc(s[1..], x, p);
    }
  }

  /** The first element a filter keeps is the first element of `s` that
      passes, and the filter keeps nothing only when nothing passes. */
  lemma {:induction false} FilterFirst<T>(s: seq<T>, p: T -> bool)
    ensures |Filter(s, p)| == 0 <==> forall i :: 0 <= i < |s| ==> !p(s[i])
    ensures |Filter(s, p)| > 0 ==>
      exists k :: 0 <= k < |s| && s[k] == Filter(s, p)[0] && forall j :: 0 <= j < k ==> !p(s[j])
  {
    if |s| > 0 {
      FilterFirst(s[1..], p);
      if !p(s[0]) && |Filter(s[1..], p)| > 0 {
        var k :| 0 <= k < |s[1..]| && s[1..][k] == Filter(s[1..], p)[0]
                 && forall j :: 0 <= j < k ==> !p(s[1..][j]);
        assert s[k + 1] == Filter(s, p)[0];
        forall j | 0 <= j < k + 1 ensures !p(s[j]) {
          if j > 0 { assert s[j] == s[1..][j - 1]; }
        }
      }
    }
  }

  // ---------------------------------------------------------------------
  // Distinct keys
  // ---------------------------------------------------------------------

  /** No two elements of `s` share a key. */
  ghost predicate DistinctKeys<T, K>(s: seq<T>, key: T -> K) {
    forall i, j :: 0 <= i < j < |s| ==> key(s[i]) != key(s[j])
  }

  /** In a sequence whose keys are pairwise different, no element occurs
      more than once. */
  lemma {:induction false} DistinctKeysOnce<T, K>(s: seq<T>, key: T -> K, x: T)
    requires DistinctKeys(s, key)
    ensures multiset(s)[x] <= 1
  {
    if |s| > 0 {
      var p := s[..|s| - 1];
      assert s == p + [s[|s| - 1]];
      DistinctKeysOnce(p, key, x);
      assert forall i :: 0 <= i < |p| ==> p[i] == s[i] && key(s[i]) != key(s[|s| - 1]);
    }
  }

  /** Taking some of the elements of a sequence with pairwise different keys
      (each at most as often as it occurs) keeps the keys pairwise different. */
  lemma SubMultisetDistinctKeys<T, K>(a: seq<T>, b: seq<T>, key: T -> K)
    requires multiset(a) <= multiset(b) && DistinctKeys(b, key)
    ensures DistinctKeys(a, key)
  {
    forall i, j | 0 <= i < j < |a| ensures key(a[i]) != key(a[j]) {
      if key(a[i]) == key(a[j]) {
        assert a[i] in multiset(b) && a[j] in multiset(b);
        var p :| 0 <= p < |b| && b[p] == a[i];
        var q :| 0 <= q < |b| && b[q] == a[j];
        assert p == q;
        assert a == a[..i] + [a[i]] + a[i + 1..j] + [a[j]] + a[j + 1..];
        assert multiset(a)[a[i]] >= 2;
        DistinctKeysOnce(b, key, a[i]);
        assert false;
      }
    }
  }

  // ---------------------------------------------------------------------
  // Stability, position by position
  // ---------------------------------------------------------------------

  /** An element of `s` with key `k` occurs in the group `WithKey(s, key, k)`. */
  lemma {:induction false} InWithKey<T>(s: seq<T>, key: T -> int, j: nat)
    requires j < |s|
    ensures exists b :: 0 <= b < |WithKey(s, key, key(s[j]))| && WithKey(s, key, key(s[j]))[b] == s[j]
  {
    var k := key(s[j]);
    var head: seq<T> := if key(s[0]) == k then [s[0]] else [];
    assert WithKey(s, key, k) == head + WithKey(s[1..], key, k);
    if j > 0 {
      InWithKey(s[1..], key, j - 1);
      assert s[1..][j - 1] == s[j];
      var b :| 0 <= b < |WithKey(s[1..], key, k)| && WithKey(s[1..], key, k)[b] == s[j];
      assert WithKey(s, key, k)[|head| + b] == s[j];
    } else {
      assert WithKey(s, key, k)[0] == s[j];
    }
  }

  /** Two elements with equal keys appear in their group in the order they
      have in `s`. */
  lemma {:induction false} WithKeyPositions<T>(s: seq<T>, key: T -> int, i: nat, j: nat)
    requires i < j < |s| && key(s[i]) == key(s[j])
    ensures var w := WithKey(s, key, key(s[i]));
      exists a, b :: 0 <= a < b < |w| && w[a] == s[i] && w[b] == s[j]
  {
    var k := key(s[i]);
    var head: seq<T> := if key(s[0]) == k then [s[0]] else [];
    assert WithKey(s, key, k) == head + WithKey(s[1..], key, k);
    assert s[1..][j - 1] == s[j];
    if i == 0 {
      InWithKey(s[1..], key, j - 1);
      var b :| 0 <= b < |WithKey(s[1..], key, k)| && WithKey(s[1..], key, k)[b] == s[j];
      assert WithKey(s, key, k)[0] == s[i];
      assert WithKey(s, key, k)[1 + b] == s[j];
    } else {
      assert s[1..][i - 1] == s[i];
      WithKeyPositions(s[1..], key, i - 1, j - 1);
      var a, b :| 0 <= a < b < |WithKey(s[1..], key, k)| && WithKey(s[1..], key, k)[a] == s[i]
                  && WithKey(s[1..], key, k)[b] == s[j];
      assert WithKey(s, key, k)[|head| + a] == s[i];
      assert WithKey(s, key, k)[|head| + b] == s[j];
    }
  }

  /** Two places in a group come from two places of `s` in the same order. */
  lemma {:induction false} WithKeyOrigins<T>(s: seq<T>, key: T -> int, k: int, a: nat, b: nat)
    requires a < b < |WithKey(s, key, k)|
    ensures exists i, j :: 0 <= i < j < |s| && s[i] == WithKey(s, key, k)[a] && s[j] == WithKey(s, key, k)[b]
  {
    var w := WithKey(s, key, k);
    var rest := WithKey(s[1..], key, k);
    if key(s[0]) == k {
      assert w == [s[0]] + rest;
      if a == 0 {
        assert w[0] == s[0];
        InWithKeyOrigin(s[1..], key, k, b - 1);
        var j :| 0 <= j < |s[1..]| && s[1..][j] == rest[b - 1];
        assert s[j + 1] == w[b];
      } else {
        WithKeyOrigins(s[1..], key, k, a - 1, b - 1);
        var i, j :| 0 <= i < j < |s[1..]| && s[1..][i] == rest[a - 1] && s[1..][j] == rest[b - 1];
        assert s[i + 1] == w[a] && s[j + 1] == w[b];
      }
    } else {
      assert w == rest;
      WithKeyOrigins(s[1..], key, k, a, b);
      var i, j :| 0 <= i < j < |s[1..]| && s[1..][i] == rest[a] && s[1..][j] == rest[b];
      assert s[i + 1] == w[a] && s[j + 1] == w[b];
    }
  }

  lemma {:induction false} InWithKeyOrigin<T>(s: seq<T>, key: T -> int, k: int, b: nat)
    requires b < |WithKey(s, key, k)|
    ensures exists j :: 0 <= j < |s| && s[j] == WithKey(s, key, k)[b]
  {
    var w := WithKey(s, key, k);
    var rest := WithKey(s[1..], key, k);
    var head: seq<T> := if key(s[0]) == k then [s[0]] else [];
    assert w == head + rest;
    if b < |head| {
      assert w[b] == s[0];
    } else {
      InWithKeyOrigin(s[1..], key, k, b - |head|);
      var j :| 0 <= j < |s[1..]| && s[1..][j] == rest[b - |head|];
      assert s[j + 1] == w[b];
    }
  }

  /** The sort is stable: two elements with equal keys that end up at `i`
      before `j` came from positions in the same order. */
  lemma SortDescStable<T>(s: seq<T>, key: T -> int, i: nat, j: nat)
    requires i < j < |SortDesc(s, key)|
    requires key(SortDesc(s, key)[i]) == key(SortDesc(s, key)[j])
    ensures exists p, q :: 0 <= p < q < |s| && s[p] == SortDesc(s, key)[i] && s[q] == SortDesc(s, key)[j]
  {
    var t := SortDesc(s, key);
    var k := key(t[i]);
    SortDescFacts(s, key);
    WithKeyPositions(t, key, i, j);
    var a, b :| 0 <= a < b < |WithKey(t, key, k)| && WithKey(t, key, k)[a] == t[i] && WithKey(t, key, k)[b] == t[j];
    WithKeyOrigins(s, key, k, a, b);
  }

  /** With room for everything, the sort cut to `n` keeps every element. */
  lemma SortDescWhole<T>(s: seq<T>, key: T -> int, n: int)
    requires n >= |s|
    ensures multiset(Prefix(SortDesc(s, key), n)) == multiset(s)
  {
    SortDescFacts(s, key);
    var t := SortDesc(s, key);
    assert |t| == |multiset(t)| == |multiset(s)| == |s|;
    assert Prefix(t, n) == t;
  }

  /** When `a + b` starts `s`, the `j`-th element of `b` is in `s` right
      after `a`. */
  lemma ConcatPrefixAt<T>(s: seq<T>, a: seq<T>, b: seq<T>, j: nat)
    requires |a + b| <= |s| && a + b == s[..|a + b|] && j < |b|
    ensures |a| + j < |s| && s[|a| + j] == b[j]
  {
    assert (a + b)[|a| + j] == b[j];
  }

  /** Two sequences with the same elements have the same keys. */
  lemma SameElementsSameKeys<T, K>(a: seq<T>, b: seq<T>, key: T -> K)
    requires multiset(a) == multiset(b)
    ensures KeysOf(a, key) == KeysOf(b, key)
  {
    forall k | k in KeysOf(a, key) ensures k in KeysOf(b, key) {
      var i :| 0 <= i < |a| && key(a[i]) == k;
      assert a[i] in multiset(b);
      var j :| 0 <= j < |b| && b[j] == a[i];
    }
    forall k | k in KeysOf(b, key) ensures k in KeysOf(a, key) {
      var j :| 0 <= j < |b| && key(b[j]) == k;
      assert b[j] in multiset(a);
      var i :| 0 <= i < |a| && a[i] == b[j];
    }
  }

  /** A sub-multiset as large as the whole is the whole. */
  lemma SubMultisetFull<T>(a: multiset<T>, b: multiset<T>)
    requires a <= b && |a| == |b|
    ensures a == b
  {
    assert (b - a) + a == b;
    assert |b - a| == 0;
  }

  /** An element left out of `sorted(s, key=key, reverse=True)[:n]` has a
      key no larger than any element kept. */
  lemma TopKeepsBetter<T>(s: seq<T>, key: T -> int, n: int, y: T)
    requires y in s && y !in Prefix(SortDesc(s, key), n)
    ensures forall i :: 0 <= i < |Prefix(SortDesc(s, key), n)| ==> key(y) <= key(Prefix(SortDesc(s, key), n)[i])
  {
    TopByKey(s, key, n);
    var r := Prefix(SortDesc(s, key), n);
    assert multiset(r)[y] == 0;
    assert y in multiset(s) - multiset(r);
  }

  /** Elements with equal keys in `sorted(s, key=key, reverse=True)[:n]`
      keep their order in `s`. */
  lemma TopStable<T>(s: seq<T>, key: T -> int, n: int, i: nat, j: nat)
    requires i < j < |Prefix(SortDesc(s, key), n)|
    requires key(Prefix(SortDesc(s, key), n)[i]) == key(Prefix(SortDesc(s, key), n)[j])
    ensures exists p, q :: 0 <= p < q < |s| && s[p] == Prefix(SortDesc(s, key), n)[i]
                                             && s[q] == Prefix(SortDesc(s, key), n)[j]
  {
    var t := SortDesc(s, key);
    var r := Prefix(t, n);
    assert r[i] == t[i] && r[j] == t[j];
    SortDescStable(s, key, i, j);
  }
}
