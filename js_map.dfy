/**
 * A JavaScript `Map` with number keys: a finite map that also remembers the
 * order in which its keys were first inserted.  `set` on a key that is already
 * present replaces the value and keeps the key's position; `set` on a new key
 * appends it.  `values()` enumerates in that order.
 */
module JsMap {
  import opened Wrappers

  datatype OrderedMap<V> = OrderedMap(keys: seq<int>, entries: map<int, V>)

  /** Every key occurs once in `keys`, and `keys` lists exactly the keys of `entries`. */
  ghost predicate Valid<V>(m: OrderedMap<V>) {
    && (forall i, j :: 0 <= i < j < |m.keys| ==> m.keys[i] != m.keys[j])
    && (forall i :: 0 <= i < |m.keys| ==> m.keys[i] in m.entries)
    && (forall k :: k in m.entries ==> k in m.keys)
  }

  /** `new Map()` */
  function Empty<V>(): (m: OrderedMap<V>)
    ensures Valid(m) && m.keys == [] && m.entries == map[]
  {
    OrderedMap([], map[])
  }

  /** `map.get(k)`: the value stored under `k`, or `undefined`. */
  function Get<V>(m: OrderedMap<V>, k: int): (r: Option<V>)
    ensures r.Some? <==> k in m.entries
    ensures r.Some? ==> r.value == m.entries[k]
  {
    if k in m.entries then Some(m.entries[k]) else None
  }

  /** `map.set(k, v)` */
  function Set<V>(m: OrderedMap<V>, k: int, v: V): (r: OrderedMap<V>)
    requires Valid(m)
    ensures Valid(r)
    ensures r.entries == m.entries[k := v]
    ensures k in m.entries ==> r.keys == m.keys
    ensures k !in m.entries ==> r.keys == m.keys + [k]
  {
    OrderedMap(if k in m.entries then m.keys else m.keys + [k], m.entries[k := v])
  }

  /** The values stored under `keys`, in that order. */
  function ValuesOf<V>(keys: seq<int>, entries: map<int, V>): (vs: seq<V>)
    requires forall i :: 0 <= i < |keys| ==> keys[i] in entries
    ensures |vs| == |keys|
    ensures forall i :: 0 <= i < |keys| ==> vs[i] == entries[keys[i]]
  {
    if keys == [] then [] else [entries[keys[0]]] + ValuesOf(keys[1..], entries)
  }

  /** `Array.from(map.values())`: every stored value, in key-insertion order. */
  function Values<V>(m: OrderedMap<V>): (vs: seq<V>)
    requires Valid(m)
    ensures |vs| == |m.keys|
    ensures forall i :: 0 <= i < |m.keys| ==> vs[i] == m.entries[m.keys[i]]
  {
    ValuesOf(m.keys, m.entries)
  }

  /** `new Map(pairs)`: `set` applied to each pair from first to last. */
  function FromPairs<V>(pairs: seq<(int, V)>): (m: OrderedMap<V>)
    ensures Valid(m)
    ensures |m.keys| <= |pairs|
    ensures forall i :: 0 <= i < |pairs| ==> pairs[i].0 in m.entries
  {
    if pairs == [] then Empty()
    else
      var last := pairs[|pairs| - 1];
      Set(FromPairs(pairs[..|pairs| - 1]), last.0, last.1)
  }

  /** No pair after position `i` has the key of pair `i`. */
  predicate LastWithKey<V>(pairs: seq<(int, V)>, i: int)
    requires 0 <= i < |pairs|
  {
    forall j :: i < j < |pairs| ==> pairs[j].0 != pairs[i].0
  }

  /** Every key `new Map(pairs)` stores is the key of some pair. */
  lemma {:induction false} FromPairsKeys<V>(pairs: seq<(int, V)>)
    ensures forall k :: k in FromPairs(pairs).entries ==> exists i :: 0 <= i < |pairs| && pairs[i].0 == k
  {
    if pairs != [] {
      var n := |pairs| - 1;
      var init := pairs[..n];
      FromPairsKeys(init);
      forall k | k in FromPairs(pairs).entries ensures exists i :: 0 <= i < |pairs| && pairs[i].0 == k {
        if k != pairs[n].0 {
          var i :| 0 <= i < |init| && init[i].0 == k;
          assert pairs[i].0 == k;
        }
      }
    }
  }

  /** Under a key that occurs more than once, `new Map(pairs)` stores the value of its last pair. */
  lemma {:induction false} FromPairsLastWins<V>(pairs: seq<(int, V)>)
    ensures forall i :: 0 <= i < |pairs| && LastWithKey(pairs, i) ==>
      FromPairs(pairs).entries[pairs[i].0] == pairs[i].1
  {
    if pairs != [] {
      var n := |pairs| - 1;
      var init := pairs[..n];
      FromPairsLastWins(init);
      forall i | 0 <= i < n && LastWithKey(pairs, i)
        ensures FromPairs(pairs).entries[pairs[i].0] == pairs[i].1
      {
        assert pairs[i].0 != pairs[n].0;
        assert LastWithKey(init, i) by {
          forall j | i < j < |init| ensures init[j].0 != init[i].0 {
            assert init[j] == pairs[j] && init[i] == pairs[i];
          }
        }
      }
    }
  }

  /** The first components of `pairs` are pairwise distinct. */
  predicate DistinctKeys<V>(pairs: seq<(int, V)>) {
    forall i, j :: 0 <= i < j < |pairs| ==> pairs[i].0 != pairs[j].0
  }

  /** Built from pairs with distinct keys, the map lists the keys in the order of the pairs. */
  lemma {:induction false} FromDistinctPairsKeys<V>(pairs: seq<(int, V)>)
    requires DistinctKeys(pairs)
    ensures FromPairs(pairs).keys == seq(|pairs|, i requires 0 <= i < |pairs| => pairs[i].0)
  {
    if pairs != [] {
      var init := pairs[..|pairs| - 1];
      var last := pairs[|pairs| - 1];
      FromDistinctPairsKeys(init);
      var m := FromPairs(init);
      assert last.0 !in m.keys by {
        forall i | 0 <= i < |m.keys| ensures m.keys[i] != last.0 {
          assert m.keys[i] == pairs[i].0;
        }
      }
      assert FromPairs(pairs).keys == m.keys + [last.0];
    }
  }

  /**
   * Built from pairs with distinct keys, the map enumerates the keys and the
   * values in the order of the pairs.
   */
  lemma FromDistinctPairs<V>(pairs: seq<(int, V)>)
    requires DistinctKeys(pairs)
    ensures FromPairs(pairs).keys == seq(|pairs|, i requires 0 <= i < |pairs| => pairs[i].0)
    ensures Values(FromPairs(pairs)) == seq(|pairs|, i requires 0 <= i < |pairs| => pairs[i].1)
  {
    FromDistinctPairsKeys(pairs);
    FromPairsLastWins(pairs);
    var m := FromPairs(pairs);
    forall i | 0 <= i < |pairs| ensures Values(m)[i] == pairs[i].1 {
      assert LastWithKey(pairs, i);
      assert m.keys[i] == pairs[i].0;
    }
  }

  /**
   * `set` on a key that is present changes the enumeration at that key's
   * position only: the order of the values is kept.
   */
  lemma SetPresentKeepsOrder<V>(m: OrderedMap<V>, k: int, v: V)
    requires Valid(m) && k in m.entries
    ensures |Values(Set(m, k, v))| == |Values(m)|
    ensures forall i :: 0 <= i < |m.keys| ==>
      Values(Set(m, k, v))[i] == if m.keys[i] == k then v else Values(m)[i]
  {
  }

  /** `set` on a new key appends its value to the enumeration. */
  lemma SetAbsentAppends<V>(m: OrderedMap<V>, k: int, v: V)
    requires Valid(m) && k !in m.entries
    ensures Values(Set(m, k, v)) == Values(m) + [v]
  {
    var r := Set(m, k, v);
    assert k !in m.keys;
    assert forall i :: 0 <= i < |m.keys| ==> Values(r)[i] == Values(m)[i];
  }
}
