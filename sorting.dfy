/**
 * A stable sort by a real-valued key, largest key first, and the first `n`
 * elements of that order. Python's `sorted(..., reverse=True)` and the
 * store's `sort(field, -1)` followed by `limit(n)` are both this.
 */
module Sorting {
  import opened Common

  /** Keys never increase from left to right. */
  predicate NonIncreasing<T>(s: seq<T>, key: T -> real)
  {
    forall i, j :: 0 <= i < j < |s| ==> key(s[i]) >= key(s[j])
  }

  /** The elements of `s` whose key is `v`, in their order in `s`.
      A sort is stable when it keeps every such subsequence. */
  function WithKey<T>(s: seq<T>, key: T -> real, v: real): seq<T>
  {
    if s == [] then [] else (if key(s[0]) == v then [s[0]] else []) + WithKey(s[1..], key, v)
  }

  /** Places `x` before the first element whose key is not larger than its own. */
  function Insert<T(==)>(x: T, s: seq<T>, key: T -> real): (r: seq<T>)
    ensures |r| == |s| + 1
    ensures multiset(r) == multiset(s) + multiset{x}
    ensures r[0] == x || (|s| > 0 && r[0] == s[0])
  {
    if s == [] || key(s[0]) <= key(x) then
      [x] + s
    else
      assert s == [s[0]] + s[1..];
      [s[0]] + Insert(x, s[1..], key)
  }

  lemma {:induction false} InsertKeepsOrder<T>(x: T, s: seq<T>, key: T -> real)
    requires NonIncreasing(s, key)
    ensures NonIncreasing(Insert(x, s, key), key)
  {
    if s != [] && key(s[0]) > key(x) {
      var rest := Insert(x, s[1..], key);
      InsertKeepsOrder(x, s[1..], key);
      assert key(s[0]) >= key(rest[0]);
      assert Insert(x, s, key) == [s[0]] + rest;
    }
  }

  lemma {:induction false} InsertKeepsTies<T>(x: T, s: seq<T>, key: T -> real, v: real)
    ensures WithKey(Insert(x, s, key), key, v) == WithKey([x] + s, key, v)
  {
    assert ([x] + s)[1..] == s;
    if s != [] && key(s[0]) > key(x) {
      var rest := Insert(x, s[1..], key);
      InsertKeepsTies(x, s[1..], key, v);
      assert ([s[0]] + rest)[1..] == rest;
      assert ([x] + s[1..])[1..] == s[1..];
      assert s == [s[0]] + s[1..];
    }
  }

  /** Stable sort, largest key first. */
  function SortDesc<T(==)>(s: seq<T>, key: T -> real): (r: seq<T>)
    ensures |r| == |s|
    ensures multiset(r) == multiset(s)
  {
    if s == [] then []
    else
      assert s == [s[0]] + s[1..];
      Insert(s[0], SortDesc(s[1..], key), key)
  }

  /** The sort puts the keys in non-increasing order and keeps, for every key,
      the order of the elements that share it. */
  lemma {:induction false} SortDescIsStableSort<T>(s: seq<T>, key: T -> real)
    ensures NonIncreasing(SortDesc(s, key), key)
    ensures forall v :: WithKey(SortDesc(s, key), key, v) == WithKey(s, key, v)
  {
    if s != [] {
      var rest := SortDesc(s[1..], key);
      SortDescIsStableSort(s[1..], key);
      InsertKeepsOrder(s[0], rest, key);
      forall v
        ensures WithKey(SortDesc(s, key), key, v) == WithKey(s, key, v)
      {
        InsertKeepsTies(s[0], rest, key, v);
        assert ([s[0]] + rest)[1..] == rest;
      }
    }
  }

  lemma {:induction false} WithKeyOfPrefix<T>(s: seq<T>, key: T -> real, v: real, k: nat)
    requires k <= |s|
    ensures WithKey(s[..k], key, v) <= WithKey(s, key, v)
  {
    if k > 0 {
      assert s[..k][1..] == s[1..][..k - 1];
      WithKeyOfPrefix(s[1..], key, v, k - 1);
    }
  }

  /** The first `n` elements of the stable descending order: the `n` largest,
      ties kept in their original order. */
  function Top<T(==)>(s: seq<T>, key: T -> real, n: nat): (r: seq<T>)
    ensures |r| == Min(n, |s|)
    ensures NonIncreasing(r, key)
    ensures multiset(r) <= multiset(s)
    ensures forall v :: WithKey(r, key, v) <= WithKey(s, key, v)
    ensures forall x, i :: x in multiset(s) - multiset(r) && 0 <= i < |r| ==> key(x) <= key(r[i])
  {
    var sorted := SortDesc(s, key);
    var k := Min(n, |s|);
    SortDescIsStableSort(s, key);
    TopIsPrefix(sorted, s, key, k);
    sorted[..k]
  }

  lemma TopIsPrefix<T>(sorted: seq<T>, s: seq<T>, key: T -> real, k: nat)
    requires multiset(sorted) == multiset(s) && NonIncreasing(sorted, key)
    requires forall v :: WithKey(sorted, key, v) == WithKey(s, key, v)
    requires |sorted| == |s| && k <= |s|
    ensures multiset(sorted[..k]) <= multiset(s)
    ensures NonIncreasing(sorted[..k], key)
    ensures forall v :: WithKey(sorted[..k], key, v) <= WithKey(s, key, v)
    ensures forall x, i :: x in multiset(s) - multiset(sorted[..k]) && 0 <= i < k ==> key(x) <= key(sorted[i])
  {
    PrefixMultiset(sorted, k);
    forall v
      ensures WithKey(sorted[..k], key, v) <= WithKey(s, key, v)
    {
      WithKeyOfPrefix(sorted, key, v, k);
    }
    forall x, i | x in multiset(s) - multiset(sorted[..k]) && 0 <= i < k
      ensures key(x) <= key(sorted[i])
    {
      DroppedIsNotLarger(sorted, key, k, x, i);
    }
  }

  lemma PrefixMultiset<T>(s: seq<T>, k: nat)
    requires k <= |s|
    ensures multiset(s) - multiset(s[..k]) == multiset(s[k..])
    ensures multiset(s[..k]) <= multiset(s)
  {
    assert s == s[..k] + s[k..];
  }

  lemma DroppedIsNotLarger<T>(sorted: seq<T>, key: T -> real, k: nat, x: T, i: nat)
    requires NonIncreasing(sorted, key) && i < k <= |sorted|
    requires x in multiset(sorted[k..])
    ensures key(x) <= key(sorted[i])
  {
    var j :| 0 <= j < |sorted[k..]| && sorted[k..][j] == x;
    assert sorted[k + j] == x;
  }
}
