/**
 * An insertion-ordered dictionary, as Python's `dict` is: the keys in the
 * order they were first inserted, and the map from key to value. Assigning
 * to a key already present replaces its value and keeps its position.
 */
module OrderedMaps {

  datatype OrderedMap<K, V> = OrderedMap(keys: seq<K>, entries: map<K, V>) {

    /** The keys are distinct and are exactly the keys of the map. */
    ghost predicate Valid() {
      && (forall i, j :: 0 <= i < j < |keys| ==> keys[i] != keys[j])
      && entries.Keys == set k | k in keys
    }

    /** `d[k] = v`. */
    function Put(k: K, v: V): OrderedMap<K, V> {
      if k in entries then OrderedMap(keys, entries[k := v])
      else OrderedMap(keys + [k], entries[k := v])
    }
  }

  /** `{}`. */
  function Empty<K, V>(): (m: OrderedMap<K, V>)
    ensures m.Valid() && m.keys == []
  {
    OrderedMap([], map[])
  }

  /**
   * `d[k] = v` keeps the dictionary well formed, gives `k` the value `v`,
   * leaves every other key's value alone, and keeps the order: an existing
   * key stays where it was, a new key goes last.
   */
  lemma PutSpec<K, V>(m: OrderedMap<K, V>, k: K, v: V)
    requires m.Valid()
    ensures var r := m.Put(k, v);
      && r.Valid()
      && k in r.entries && r.entries[k] == v
      && (forall j :: j != k ==> (j in r.entries <==> j in m.entries))
      && (forall j :: j != k && j in m.entries ==> r.entries[j] == m.entries[j])
      && (k in m.entries ==> r.keys == m.keys)
      && (k !in m.entries ==> r.keys == m.keys + [k])
  {
    var r := m.Put(k, v);
    if k !in m.entries {
      forall i, j | 0 <= i < j < |r.keys| ensures r.keys[i] != r.keys[j] {
        if j == |m.keys| {
          assert r.keys[i] == m.keys[i];
        }
      }
    }
  }

}
