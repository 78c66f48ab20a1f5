/**
  The stable comparison sort of `Array.prototype.sort` (stable since ES2019), for
  comparators that order elements by an integer key. It is given here as a stable
  insertion sort; any stable sort by the same key yields the same sequence
  (SortedStablePermutation below pins the result down).
*/
module Sorting {

  predicate SortedBy<T>(s: seq<T>, key: T -> int) {
    forall i, j :: 0 <= i < j < |s| ==> key(s[i]) <= key(s[j])
  }

  /** The elements of `s` whose key is `k`, in their order in `s`. */
  function WithKey<T>(s: seq<T>, key: T -> int, k: int): (r: seq<T>)
    ensures |r| <= |s|
    ensures forall i :: 0 <= i < |r| ==> key(r[i]) == k
  {
    if s == [] then []
    else (if key(s[0]) == k then [s[0]] else []) + WithKey(s[1..], key, k)
  }

  lemma {:induction false} WithKeyAppend<T>(a: seq<T>, b: seq<T>, key: T -> int, k: int)
    ensures WithKey(a + b, key, k) == WithKey(a, key, k) + WithKey(b, key, k)
  {
    if a == [] {
      assert a + b == b;
    } else {
      assert (a + b)[1..] == a[1..] + b;
      WithKeyAppend(a[1..], b, key, k);
    }
  }

  /** `x` placed in front of the first element of `s` whose key is not smaller. */
  function Insert<T>(x: T, s: seq<T>, key: T -> int): (r: seq<T>)
    requires SortedBy(s, key)
    ensures |r| == |s| + 1
    ensures multiset(r) == multiset(s) + multiset{x}
    ensures SortedBy(r, key)
    ensures s == [] ==> r == [x]
    ensures s != [] ==> r[0] == x || r[0] == s[0]
  {
    if s == [] || key(x) <= key(s[0]) then
      ConsSorted(x, s, key);
      [x] + s
    else
      var t := Insert(x, s[1..], key);
      assert s == [s[0]] + s[1..];
      ConsSorted(s[0], t, key);
      [s[0]] + t
  }

  /** An element no larger than the head of a sorted sequence keeps it sorted in front. */
  lemma ConsSorted<T>(y: T, t: seq<T>, key: T -> int)
    requires SortedBy(t, key)
    requires t != [] ==> key(y) <= key(t[0])
    ensures SortedBy([y] + t, key)
  {
    var r := [y] + t;
    forall i, j | 0 <= i < j < |r| ensures key(r[i]) <= key(r[j]) {
      if i > 0 {
        assert r[i] == t[i - 1] && r[j] == t[j - 1];
      } else {
        assert r[j] == t[j - 1];
        assert key(t[0]) <= key(t[j - 1]) || j == 1;
      }
    }
  }

  /** The stable sort of `s` by `key`. */
  function SortByKey<T>(s: seq<T>, key: T -> int): (r: seq<T>)
    ensures |r| == |s|
    ensures multiset(r) == multiset(s)
    ensures SortedBy(r, key)
  {
    if s == [] then []
    else
      assert s == [s[0]] + s[1..];
      Insert(s[0], SortByKey(s[1..], key), key)
  }

  lemma {:induction false} InsertWithKey<T>(x: T, s: seq<T>, key: T -> int, k: int)
    requires SortedBy(s, key)
    ensures WithKey(Insert(x, s, key), key, k) == (if key(x) == k then [x] else []) + WithKey(s, key, k)
  {
    if s == [] || key(x) <= key(s[0]) {
      assert ([x] + s)[1..] == s;
    } else {
      var t := Insert(x, s[1..], key);
      assert ([s[0]] + t)[1..] == t;
      InsertWithKey(x, s[1..], key, k);
    }
  }

  /** Stability: elements with equal keys keep their relative input order. */
  lemma {:induction false} SortStable<T>(s: seq<T>, key: T -> int, k: int)
    ensures WithKey(SortByKey(s, key), key, k) == WithKey(s, key, k)
  {
    if s != [] {
      SortStable(s[1..], key, k);
      InsertWithKey(s[0], SortByKey(s[1..], key), key, k);
    }
  }

  /** A sorted sequence has, for each key, its elements in one block; so a sorted
      sequence is determined by its per-key subsequences. */
  lemma {:induction false} SortedDeterminedByKeys<T>(a: seq<T>, b: seq<T>, key: T -> int)
    requires SortedBy(a, key) && SortedBy(b, key)
    requires forall k :: WithKey(a, key, k) == WithKey(b, key, k)
    ensures a == b
    decreases |a| + |b|
  {
    if a == [] && b == [] {
    } else if a == [] {
      WithKeyOfHead(b, key);
      assert false;
    } else if b == [] {
      WithKeyOfHead(a, key);
      assert false;
    } else {
      var ka, kb := key(a[0]), key(b[0]);
      if ka < kb {
        WithKeyOfHead(a, key);
        SortedNoSmaller(b, key, ka);
        assert false;
      } else if kb < ka {
        WithKeyOfHead(b, key);
        SortedNoSmaller(a, key, kb);
        assert false;
      } else {
        var wa, wb := WithKey(a, key, ka), WithKey(b, key, ka);
        assert wa == [a[0]] + WithKey(a[1..], key, ka) && wa[0] == a[0];
        assert wb == [b[0]] + WithKey(b[1..], key, ka) && wb[0] == b[0];
        assert a[0] == b[0];
        forall k ensures WithKey(a[1..], key, k) == WithKey(b[1..], key, k) {
          var xa, xb := WithKey(a, key, k), WithKey(b, key, k);
          if k == ka {
            assert WithKey(a[1..], key, k) == xa[1..];
            assert WithKey(b[1..], key, k) == xb[1..];
          } else {
            assert WithKey(a[1..], key, k) == xa;
            assert WithKey(b[1..], key, k) == xb;
          }
        }
        SortedDeterminedByKeys(a[1..], b[1..], key);
        assert a == [a[0]] + a[1..] && b == [b[0]] + b[1..];
      }
    }
  }

  lemma WithKeyOfHead<T>(s: seq<T>, key: T -> int)
    requires s != []
    ensures WithKey(s, key, key(s[0])) != []
  {
  }

  lemma {:induction false} SortedNoSmaller<T>(s: seq<T>, key: T -> int, k: int)
    requires SortedBy(s, key) && s != [] && k < key(s[0])
    ensures WithKey(s, key, k) == []
  {
    if |s| > 1 {
      SortedNoSmaller(s[1..], key, k);
    }
  }

  /** Any sorted sequence that keeps every key's elements in input order is the sort. */
  lemma SortedStablePermutation<T>(s: seq<T>, r: seq<T>, key: T -> int)
    requires SortedBy(r, key)
    requires forall k :: WithKey(r, key, k) == WithKey(s, key, k)
    ensures r == SortByKey(s, key)
  {
    forall k ensures WithKey(r, key, k) == WithKey(SortByKey(s, key), key, k) {
      SortStable(s, key, k);
    }
    SortedDeterminedByKeys(r, SortByKey(s, key), key);
  }
}
