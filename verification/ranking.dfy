/** Ranking of results: `results.sort((a, b) => key(a) - key(b))`, which
    JavaScript performs as a stable sort, and `.slice(0, n)` for the
    cheapest entries. */
module Ranking {

  predicate SortedBy<T>(s: seq<T>, key: T -> int) {
    forall i, j :: 0 <= i < j < |s| ==> key(s[i]) <= key(s[j])
  }

  /** Places `x` before the first element whose key is not smaller, so it
      stays ahead of elements with an equal key. */
  function Insert<T(==)>(x: T, s: seq<T>, key: T -> int): (r: seq<T>)
    requires SortedBy(s, key)
    ensures SortedBy(r, key)
    ensures multiset(r) == multiset(s) + multiset{x}
    ensures |r| == |s| + 1 && (r[0] == x || (s != [] && r[0] == s[0]))
  {
    if s == [] || key(x) <= key(s[0]) then [x] + s
    else
      assert s == [s[0]] + s[1..];
      [s[0]] + Insert(x, s[1..], key)
  }

  /** Sorts ascending by `key`, keeping equal keys in their original order. */
  function SortBy<T(==)>(s: seq<T>, key: T -> int): (r: seq<T>)
    ensures SortedBy(r, key)
    ensures multiset(r) == multiset(s)
    ensures |r| == |s|
  {
    if s == [] then []
    else
      assert s == [s[0]] + s[1..];
      Insert(s[0], SortBy(s[1..], key), key)
  }

  /** The elements of `s` whose key is `k`, in order. */
  function WithKey<T>(s: seq<T>, key: T -> int, k: int): seq<T> {
    if s == [] then []
    else (if key(s[0]) == k then [s[0]] else []) + WithKey(s[1..], key, k)
  }

  lemma {:induction false} InsertWithKey<T>(x: T, s: seq<T>, key: T -> int, k: int)
    requires SortedBy(s, key)
    ensures WithKey(Insert(x, s, key), key, k) == (if key(x) == k then [x] else []) + WithKey(s, key, k)
  {
    if s == [] || key(x) <= key(s[0]) {
      assert ([x] + s)[1..] == s;
    } else {
      var t := Insert(x, s[1..], key);
      InsertWithKey(x, s[1..], key, k);
      PassOver(s[0], x, t, s[1..], key, k);
      assert [s[0]] + s[1..] == s;
    }
  }

  /** `x` moving past an element with a smaller key does not change the order
      among elements of any one key. */
  lemma PassOver<T>(a: T, x: T, t: seq<T>, rest: seq<T>, key: T -> int, k: int)
    requires key(a) < key(x)
    requires WithKey(t, key, k) == (if key(x) == k then [x] else []) + WithKey(rest, key, k)
    ensures WithKey([a] + t, key, k) == (if key(x) == k then [x] else []) + WithKey([a] + rest, key, k)
  {
    assert ([a] + t)[1..] == t;
    assert ([a] + rest)[1..] == rest;
  }

  /** The sort is stable: for every key value, the elements carrying it keep
      their relative order. */
  lemma {:induction false} SortIsStable<T>(s: seq<T>, key: T -> int, k: int)
    ensures WithKey(SortBy(s, key), key, k) == WithKey(s, key, k)
  {
    if s != [] {
      SortIsStable(s[1..], key, k);
      InsertWithKey(s[0], SortBy(s[1..], key), key, k);
    }
  }

  function Min(a: int, b: int): int {
    if a <= b then a else b
  }

  /** In a sorted sequence, every element of a prefix has a key no larger
      than any element after it. */
  lemma PrefixBelowRest<T>(sorted: seq<T>, key: T -> int, m: int)
    requires SortedBy(sorted, key) && 0 <= m <= |sorted|
    ensures multiset(sorted) - multiset(sorted[..m]) == multiset(sorted[m..])
    ensures forall i, y :: 0 <= i < m && y in multiset(sorted[m..]) ==> key(sorted[i]) <= key(y)
  {
    assert sorted == sorted[..m] + sorted[m..];
    forall i, y | 0 <= i < m && y in multiset(sorted[m..])
      ensures key(sorted[i]) <= key(y)
    {
      var j :| m <= j < |sorted| && sorted[j] == y;
    }
  }

  /** `sorted.slice(0, n)` after sorting: the `n` cheapest entries, or all of
      them when there are fewer. */
  function Cheapest<T(==)>(s: seq<T>, key: T -> int, n: nat): (top: seq<T>)
    ensures |top| == Min(n, |s|)
  {
    SortBy(s, key)[..Min(n, |s|)]
  }

  /** The kept entries are sorted, are taken from the input, and none of them
      costs more than any entry left out. */
  lemma CheapestAreCheapest<T>(s: seq<T>, key: T -> int, n: nat)
    ensures var top := Cheapest(s, key, n);
            && SortedBy(top, key)
            && multiset(top) <= multiset(s)
            && forall i, y :: 0 <= i < |top| && y in multiset(s) - multiset(top) ==> key(top[i]) <= key(y)
  {
    var sorted := SortBy(s, key);
    var m := Min(n, |s|);
    var top := sorted[..m];
    assert top == Cheapest(s, key, n);
    PrefixBelowRest(sorted, key, m);
    SortedPrefix(sorted, key, m);
    assert multiset(sorted) == multiset(s);
  }

  lemma SortedPrefix<T>(sorted: seq<T>, key: T -> int, m: int)
    requires SortedBy(sorted, key) && 0 <= m <= |sorted|
    ensures SortedBy(sorted[..m], key)
  {
    assert forall i :: 0 <= i < m ==> sorted[..m][i] == sorted[i];
  }
}
