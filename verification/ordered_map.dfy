/**
 * JavaScript's `Map`: a dictionary that remembers the order in which keys
 * were first inserted. `set` on a present key keeps its position, `set` on a
 * new key appends it, `delete` removes it, and `forEach` visits the keys in
 * that order.
 */
module OrderedMaps {

  predicate Distinct<K(==)>(s: seq<K>) {
    forall i, j :: 0 <= i < j < |s| ==> s[i] != s[j]
  }

  /** `s` with every occurrence of `k` dropped, order kept. */
  function Without<K(==)>(s: seq<K>, k: K): (r: seq<K>)
    ensures forall x | x in r :: x in s && x != k
    ensures forall x | x in s && x != k :: x in r
    ensures Distinct(s) ==> Distinct(r)
    ensures |r| <= |s|
  {
    if s == [] then []
    else if s[0] == k then Without(s[1..], k)
    else
      var t := Without(s[1..], k);
      assert Distinct(s) ==> s[0] !in s[1..];
      [s[0]] + t
  }

  lemma {:induction false} DistinctCardinality<K>(s: seq<K>)
    requires Distinct(s)
    ensures |set x | x in s| == |s|
  {
    if s != [] {
      var t := s[1..];
      assert Distinct(t);
      DistinctCardinality(t);
      assert (set x | x in s) == (set x | x in t) + {s[0]};
      assert s[0] !in t;
    }
  }

  datatype OrderedMap<K(==), V> = OrderedMap(keys: seq<K>, values: map<K, V>) {

    /** The keys are listed once each, and exactly the keys of `values` are listed. */
    ghost predicate Valid() {
      Distinct(keys) && values.Keys == set k | k in keys
    }

    /** `m.size` */
    function Size(): nat {
      |keys|
    }

    /** `m.has(k)` */
    predicate Has(k: K) {
      k in values
    }

    /** `m.set(k, v)` */
    function Set(k: K, v: V): (r: OrderedMap<K, V>)
      requires Valid()
      ensures r.Valid()
      ensures r.values == values[k := v]
      ensures r.keys == if k in values then keys else keys + [k]
    {
      if k in values then OrderedMap(keys, values[k := v]) else OrderedMap(keys + [k], values[k := v])
    }

    /** `m.delete(k)` */
    function Delete(k: K): (r: OrderedMap<K, V>)
      requires Valid()
      ensures r.Valid()
      ensures r.values == values - {k}
      ensures r.keys == Without(keys, k)
    {
      OrderedMap(Without(keys, k), values - {k})
    }

    /** Deleting the listed keys one after the other, first to last. */
    function DeleteAll(ks: seq<K>): (r: OrderedMap<K, V>)
      requires Valid()
      ensures r.Valid()
      ensures r.values.Keys == values.Keys - set k | k in ks
      ensures forall k :: k in r.values ==> r.values[k] == values[k]
      decreases |ks|
    {
      if ks == [] then this
      else
        var init := ks[..|ks| - 1];
        var r := DeleteAll(init).Delete(ks[|ks| - 1]);
        assert (set k | k in ks) == (set k | k in init) + {ks[|ks| - 1]} by {
          assert ks == init + [ks[|ks| - 1]];
        }
        r
    }
  }

  /** `new Map()` */
  function Empty<K(==), V>(): (m: OrderedMap<K, V>)
    ensures m.Valid() && m.values == map[] && m.Size() == 0
  {
    OrderedMap([], map[])
  }

  /** `m.size` is the number of entries. */
  lemma SizeIsEntryCount<K, V>(m: OrderedMap<K, V>)
    requires m.Valid()
    ensures m.Size() == |m.values|
  {
    DistinctCardinality(m.keys);
    assert m.values.Keys == set x | x in m.keys;
  }
}
