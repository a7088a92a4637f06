/**
 * Sorting by an integer key: the model of the standard library's
 * `sort_unstable_by_key` and `sort_unstable_by`. Callers rely only on the
 * result being ordered by the key and a permutation of the input; the order
 * of equal keys is not promised.
 */
module Sorting {
  /** `s` is ordered by non-decreasing `key`. */
  predicate SortedBy<T>(s: seq<T>, key: T -> int) {
    forall i, j :: 0 <= i < j < |s| ==> key(s[i]) <= key(s[j])
  }

  /** `x` put into the sorted `s` after every element with a smaller key. */
  function Insert<T>(x: T, s: seq<T>, key: T -> int): (r: seq<T>)
    requires SortedBy(s, key)
    ensures SortedBy(r, key)
    ensures multiset(r) == multiset(s) + multiset{x}
  {
    if s == [] then [x]
    else if key(x) <= key(s[0]) then
      assert forall j :: 0 <= j < |s| ==> key(x) <= key(s[j]);
      [x] + s
    else
      var tail := Insert(x, s[1..], key);
      assert s == [s[0]] + s[1..];
      BoundedPermutation(s[1..], x, tail, key, key(s[0]));
      SortedCons(s[0], tail, key);
      [s[0]] + tail
  }

  /** A permutation of `s` with `x` added stays above any bound that `s` and `x` stay above. */
  lemma BoundedPermutation<T>(s: seq<T>, x: T, r: seq<T>, key: T -> int, b: int)
    requires SortedBy(s, key) && (s != [] ==> b <= key(s[0])) && b <= key(x)
    requires multiset(r) == multiset(s) + multiset{x}
    ensures forall j :: 0 <= j < |r| ==> b <= key(r[j])
  {
    forall j | 0 <= j < |r| ensures b <= key(r[j]) {
      assert r[j] in multiset(r);
      if r[j] != x {
        assert r[j] in multiset(s);
        var k :| 0 <= k < |s| && s[k] == r[j];
      }
    }
  }

  /** An element no greater than every element of a sorted sequence may go in front of it. */
  lemma SortedCons<T>(y: T, s: seq<T>, key: T -> int)
    requires SortedBy(s, key)
    requires forall j :: 0 <= j < |s| ==> key(y) <= key(s[j])
    ensures SortedBy([y] + s, key)
  {
    var r := [y] + s;
    forall i, j | 0 <= i < j < |r| ensures key(r[i]) <= key(r[j]) {
      assert r[j] == s[j - 1];
      if i > 0 {
        assert r[i] == s[i - 1];
      }
    }
  }

  /** A permutation of `s` ordered by non-decreasing `key`. */
  function SortBy<T>(s: seq<T>, key: T -> int): (r: seq<T>)
    ensures SortedBy(r, key)
    ensures multiset(r) == multiset(s)
  {
    if s == [] then []
    else
      assert s == [s[0]] + s[1..];
      Insert(s[0], SortBy(s[1..], key), key)
  }
}
