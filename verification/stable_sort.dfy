/**
 * `list.sort(key=...)` with a pair of integers as the key: Python's sort is
 * stable, so the result is the sorted permutation in which elements with
 * equal keys keep their original order. Modelled as insertion sort, with
 * the three properties that pin the result down: sorted, a permutation,
 * and stable.
 */
module StableSort {
  type Key = (int, int)

  /** Tuple comparison `p <= q`. */
  predicate KeyLe(p: Key, q: Key) {
    p.0 < q.0 || (p.0 == q.0 && p.1 <= q.1)
  }

  /** Every element's key is at most every later element's key. */
  predicate SortedBy<T>(xs: seq<T>, key: T -> Key) {
    forall i, j :: 0 <= i < j < |xs| ==> KeyLe(key(xs[i]), key(xs[j]))
  }

  /** Neighbours are in order. */
  predicate Chained<T>(xs: seq<T>, key: T -> Key)
    decreases |xs|
  {
    |xs| <= 1 || (KeyLe(key(xs[0]), key(xs[1])) && Chained(xs[1..], key))
  }

  /** The elements whose key is `k`, in their order. */
  function WithKey<T>(xs: seq<T>, key: T -> Key, k: Key): seq<T>
    decreases |xs|
  {
    if xs == [] then [] else (if key(xs[0]) == k then [xs[0]] else []) + WithKey(xs[1..], key, k)
  }

  /** Put `x` before the first element whose key is not below `x`'s. */
  function Insert<T(==)>(x: T, ys: seq<T>, key: T -> Key): (r: seq<T>)
    ensures multiset(r) == multiset(ys) + multiset{x}
    ensures |r| > 0 && (r[0] == x || (ys != [] && r[0] == ys[0]))
    ensures Chained(ys, key) ==> Chained(r, key)
    decreases |ys|
  {
    if ys == [] || KeyLe(key(x), key(ys[0])) then [x] + ys
    else
      var rest := Insert(x, ys[1..], key);
      assert ys == [ys[0]] + ys[1..];
      assert ([ys[0]] + rest)[1..] == rest;
      [ys[0]] + rest
  }

  /** `sorted(xs, key=key)`. */
  function SortBy<T(==)>(xs: seq<T>, key: T -> Key): (r: seq<T>)
    ensures multiset(r) == multiset(xs)
    ensures Chained(r, key)
    decreases |xs|
  {
    if xs == [] then []
    else
      assert xs == [xs[0]] + xs[1..];
      Insert(xs[0], SortBy(xs[1..], key), key)
  }

  lemma {:induction false} ChainedSorted<T>(xs: seq<T>, key: T -> Key)
    requires Chained(xs, key)
    ensures SortedBy(xs, key)
    decreases |xs|
  {
    if |xs| > 1 {
      ChainedSorted(xs[1..], key);
      forall j | 1 <= j < |xs| ensures KeyLe(key(xs[0]), key(xs[j])) {
        assert xs[1..][0] == xs[1] && xs[1..][j - 1] == xs[j];
      }
      forall i, j | 1 <= i < j < |xs| ensures KeyLe(key(xs[i]), key(xs[j])) {
        assert xs[1..][i - 1] == xs[i] && xs[1..][j - 1] == xs[j];
      }
    }
  }

  lemma {:induction false} InsertWithKey<T>(x: T, ys: seq<T>, key: T -> Key, k: Key)
    ensures WithKey(Insert(x, ys, key), key, k) == (if key(x) == k then [x] else []) + WithKey(ys, key, k)
    decreases |ys|
  {
    if ys == [] || KeyLe(key(x), key(ys[0])) {
      assert ([x] + ys)[1..] == ys;
    } else {
      var rest := Insert(x, ys[1..], key);
      assert ([ys[0]] + rest)[1..] == rest;
      InsertWithKey(x, ys[1..], key, k);
      assert key(ys[0]) != key(x);
    }
  }

  /** The result is sorted by key, is a permutation of the input, and keeps the input order
      among elements with equal keys. */
  lemma {:induction false} SortByStable<T>(xs: seq<T>, key: T -> Key, k: Key)
    ensures SortedBy(SortBy(xs, key), key)
    ensures multiset(SortBy(xs, key)) == multiset(xs)
    ensures WithKey(SortBy(xs, key), key, k) == WithKey(xs, key, k)
    decreases |xs|
  {
    ChainedSorted(SortBy(xs, key), key);
    if xs != [] {
      SortByStable(xs[1..], key, k);
      InsertWithKey(xs[0], SortBy(xs[1..], key), key, k);
    }
  }

  /** Input that is already in key order with no repeated key comes back unchanged. */
  lemma {:induction false} SortBySortedDistinct<T>(xs: seq<T>, key: T -> Key)
    requires forall i, j :: 0 <= i < j < |xs| ==> KeyLe(key(xs[i]), key(xs[j])) && key(xs[i]) != key(xs[j])
    ensures SortBy(xs, key) == xs
    decreases |xs|
  {
    if xs != [] {
      SortBySortedDistinct(xs[1..], key);
      assert xs == [xs[0]] + xs[1..];
      if |xs| > 1 {
        assert xs[1..][0] == xs[1];
      }
    }
  }

  // ---------------------------------------------------------------------
  // Distinct first components: sorting recovers the numbering
  // ---------------------------------------------------------------------

  /** First key components strictly increase along the sequence. */
  predicate Ascending<T>(xs: seq<T>, key: T -> Key) {
    forall i, j :: 0 <= i < j < |xs| ==> key(xs[i]).0 < key(xs[j]).0
  }

  lemma {:induction false} InsertAscending<T>(x: T, ys: seq<T>, key: T -> Key)
    requires Ascending(ys, key)
    requires forall k :: 0 <= k < |ys| ==> key(ys[k]).0 != key(x).0
    ensures Ascending(Insert(x, ys, key), key)
    decreases |ys|
  {
    if ys != [] && !KeyLe(key(x), key(ys[0])) {
      var rest := Insert(x, ys[1..], key);
      InsertAscending(x, ys[1..], key);
      forall k | 0 <= k < |rest| ensures key(ys[0]).0 < key(rest[k]).0 {
        assert rest[k] in multiset(rest);
        if rest[k] != x {
          assert rest[k] in multiset(ys[1..]);
          var m :| 0 <= m < |ys[1..]| && ys[1..][m] == rest[k];
          assert ys[m + 1] == rest[k];
        }
      }
    }
  }

  lemma {:induction false} SortByAscending<T>(xs: seq<T>, key: T -> Key)
    requires forall i, j :: 0 <= i < j < |xs| ==> key(xs[i]).0 != key(xs[j]).0
    ensures Ascending(SortBy(xs, key), key)
    decreases |xs|
  {
    if xs != [] {
      var tail := xs[1..];
      assert forall i :: 0 <= i < |tail| ==> tail[i] == xs[i + 1];
      var ys := SortBy(tail, key);
      SortByAscending(tail, key);
      forall k | 0 <= k < |ys| ensures key(ys[k]).0 != key(xs[0]).0 {
        assert ys[k] in multiset(tail);
        var m :| 0 <= m < |tail| && tail[m] == ys[k];
      }
      InsertAscending(xs[0], ys, key);
    }
  }

  lemma {:induction false} AscendingLower<T>(xs: seq<T>, key: T -> Key, i: nat)
    requires Ascending(xs, key) && i < |xs|
    requires forall k :: 0 <= k < |xs| ==> 0 <= key(xs[k]).0
    ensures i <= key(xs[i]).0
    decreases i
  {
    if i > 0 {
      AscendingLower(xs, key, i - 1);
    }
  }

  lemma {:induction false} AscendingUpper<T>(xs: seq<T>, key: T -> Key, i: nat)
    requires Ascending(xs, key) && i < |xs|
    requires forall k :: 0 <= k < |xs| ==> key(xs[k]).0 < |xs|
    ensures key(xs[i]).0 <= i
    decreases |xs| - i
  {
    if i + 1 < |xs| {
      AscendingUpper(xs, key, i + 1);
    }
  }

  /** Sorting `n` elements whose first key components are distinct and lie in `[0, n)`
      puts the element numbered `i` at position `i`. */
  lemma SortByNumbered<T>(xs: seq<T>, key: T -> Key)
    requires forall i :: 0 <= i < |xs| ==> 0 <= key(xs[i]).0 < |xs|
    requires forall i, j :: 0 <= i < j < |xs| ==> key(xs[i]).0 != key(xs[j]).0
    ensures |SortBy(xs, key)| == |xs|
    ensures forall i :: 0 <= i < |xs| ==> key(SortBy(xs, key)[i]).0 == i && SortBy(xs, key)[i] in xs
  {
    var r := SortBy(xs, key);
    assert |r| == |multiset(r)| == |multiset(xs)| == |xs|;
    SortByAscending(xs, key);
    forall i | 0 <= i < |r| ensures 0 <= key(r[i]).0 < |r| && r[i] in xs {
      assert r[i] in multiset(r);
      var m :| 0 <= m < |xs| && xs[m] == r[i];
    }
    forall i | 0 <= i < |r| ensures key(r[i]).0 == i {
      AscendingLower(r, key, i);
      AscendingUpper(r, key, i);
    }
  }
}
