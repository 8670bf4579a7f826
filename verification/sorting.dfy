/**
 * `Array.prototype.sort` with a numeric comparator, applied to a list of
 * indices listed in increasing order. JavaScript's sort is stable, so on such
 * a list it orders the indices by their key and, among equal keys, by the
 * index itself: the result is the list sorted by the pair (key, index).
 */
module Sorting {

  predicate InRange(xs: seq<nat>, n: nat) {
    forall k :: 0 <= k < |xs| ==> xs[k] < n
  }

  predicate Distinct(xs: seq<nat>) {
    forall i, j :: 0 <= i < j < |xs| ==> xs[i] != xs[j]
  }

  /** Index `a` comes strictly before index `b`: smaller key, or the same key and a smaller index. */
  predicate Before(key: seq<int>, a: nat, b: nat)
    requires a < |key| && b < |key|
  {
    key[a] < key[b] || (key[a] == key[b] && a < b)
  }

  predicate SortedBy(xs: seq<nat>, key: seq<int>)
    requires InRange(xs, |key|)
  {
    forall i, j :: 0 <= i < j < |xs| ==> Before(key, xs[i], xs[j])
  }

  function Insert(x: nat, xs: seq<nat>, key: seq<int>): (r: seq<nat>)
    requires x < |key| && InRange(xs, |key|)
    ensures InRange(r, |key|) && multiset(r) == multiset(xs) + multiset{x}
  {
    if xs == [] then [x]
    else if Before(key, x, xs[0]) then [x] + xs
    else
      var t := Insert(x, xs[1..], key);
      assert xs == [xs[0]] + xs[1..];
      [xs[0]] + t
  }

  /** The stable sort of `xs` by `key`. */
  function SortBy(xs: seq<nat>, key: seq<int>): (r: seq<nat>)
    requires InRange(xs, |key|)
    ensures InRange(r, |key|) && multiset(r) == multiset(xs)
  {
    if xs == [] then []
    else
      var r := Insert(xs[|xs| - 1], SortBy(xs[..|xs| - 1], key), key);
      assert xs == xs[..|xs| - 1] + [xs[|xs| - 1]];
      r
  }

  lemma {:induction false} InsertSorted(x: nat, xs: seq<nat>, key: seq<int>)
    requires x < |key| && InRange(xs, |key|)
    requires SortedBy(xs, key) && x !in xs
    ensures SortedBy(Insert(x, xs, key), key)
  {
    if xs != [] && !Before(key, x, xs[0]) {
      var t := Insert(x, xs[1..], key);
      assert SortedBy(xs[1..], key);
      InsertSorted(x, xs[1..], key);
      var r := [xs[0]] + t;
      forall i, j | 0 <= i < j < |r| ensures Before(key, r[i], r[j]) {
        if i == 0 {
          assert r[j] in multiset(t);
          assert r[j] in multiset(xs[1..]) + multiset{x};
          if r[j] != x {
            assert r[j] in xs[1..];
            var m :| 0 <= m < |xs[1..]| && xs[1..][m] == r[j];
            assert xs[1 + m] == r[j];
          }
        }
      }
    }
  }

  /** Sorting a list without repetitions yields it in (key, index) order. */
  lemma {:induction false} SortBySorted(xs: seq<nat>, key: seq<int>)
    requires InRange(xs, |key|) && Distinct(xs)
    ensures SortedBy(SortBy(xs, key), key)
  {
    if xs != [] {
      var init := xs[..|xs| - 1];
      var last := xs[|xs| - 1];
      assert Distinct(init);
      SortBySorted(init, key);
      var s := SortBy(init, key);
      assert last !in init;
      assert last !in multiset(s);
      InsertSorted(last, s, key);
    }
  }

  /** The last index of a sorted list carries the greatest key. */
  lemma LastHasGreatestKey(xs: seq<nat>, key: seq<int>, k: nat)
    requires InRange(xs, |key|) && SortedBy(xs, key) && k < |xs|
    ensures key[xs[k]] <= key[xs[|xs| - 1]]
  {
    if k < |xs| - 1 {
      assert Before(key, xs[k], xs[|xs| - 1]);
    }
  }
}
