/**
 * A JavaScript object used as a dictionary with string keys that are never
 * array indices: its own properties, each key once, in insertion order.
 * `Object.values` lists the values in that order.
 */
module OrderedMap {
  import opened Wrappers

  type Table<K, V> = seq<(K, V)>

  /** Every key occurs at most once, as it does in a JavaScript object. */
  predicate DistinctKeys<K(==), V>(t: Table<K, V>) {
    forall i, j :: 0 <= i < j < |t| ==> t[i].0 != t[j].0
  }

  /** The position of key k, or |t| when k is absent. */
  function Find<K(==), V>(t: Table<K, V>, k: K): (j: nat)
    ensures j <= |t|
    ensures forall m :: 0 <= m < j ==> t[m].0 != k
    ensures j < |t| ==> t[j].0 == k
  {
    if t == [] then 0 else if t[0].0 == k then 0 else 1 + Find(t[1..], k)
  }

  /** `t[k]`: the value stored under k, or None for `undefined`. */
  function Get<K(==), V>(t: Table<K, V>, k: K): Option<V> {
    var j := Find(t, k);
    if j < |t| then Some(t[j].1) else None
  }

  /**
   * `{ ...t, [k]: v }`: the properties of t copied in order, then k set to v.
   * A key already present keeps its place; a new key goes last.
   */
  function Put<K(==), V>(t: Table<K, V>, k: K, v: V): (r: Table<K, V>)
    ensures Find(t, k) == |t| ==> r == t + [(k, v)]
    ensures Find(t, k) < |t| ==> r == t[Find(t, k) := (k, v)]
  {
    if t == [] then [(k, v)]
    else if t[0].0 == k then [(k, v)] + t[1..]
    else [t[0]] + Put(t[1..], k, v)
  }

  /** `Object.values(t)`: the values in the order of their keys. */
  function Values<K, V>(t: Table<K, V>): seq<V> {
    seq(|t|, j requires 0 <= j < |t| => t[j].1)
  }

  /** After `{ ...t, [k]: v }`, k reads v, every other key reads what it read before, and keys stay distinct. */
  lemma PutThenGet<K, V>(t: Table<K, V>, k: K, v: V, k': K)
    ensures Get(Put(t, k, v), k') == if k' == k then Some(v) else Get(t, k')
    ensures DistinctKeys(t) ==> DistinctKeys(Put(t, k, v))
  {
    var r := Put(t, k, v);
    var j := Find(t, k);
    var j' := Find(t, k');
    var i := Find(r, k');
    assert forall m :: 0 <= m < |t| && m != j ==> r[m] == t[m];
    if k' == k {
      assert r[j] == (k, v);
      assert i == j;
    } else if j == |t| {
      assert r[|t|].0 == k;
      if j' < |t| {
        assert r[j'] == t[j'];
        assert i == j';
      } else {
        assert i == |r|;
      }
    } else {
      assert forall m :: 0 <= m < |t| ==> r[m].0 == t[m].0;
      assert i == j';
    }
  }
}
