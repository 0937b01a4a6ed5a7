/**
 * Python dictionaries remember the order in which their keys were first
 * inserted, and iterating over one visits the keys in that order.  An
 * `OMap` is a Dafny map together with that order.
 */
module OrderedMaps {

  datatype OMap<K(!new), V> = OMap(keys: seq<K>, entries: map<K, V>) {

    /** The keys are listed once each, and exactly the keys of `entries` are listed. */
    ghost predicate Valid() {
      && (forall i, j :: 0 <= i < j < |keys| ==> keys[i] != keys[j])
      && (forall k :: k in entries <==> k in keys)
    }

    /**
     * `d[k] = v`: a new key goes to the end of the order, an existing key
     * keeps its place and only its value changes.
     */
    function Put(k: K, v: V): (r: OMap<K, V>)
      ensures Valid() ==> r.Valid()
      ensures r.entries == entries[k := v]
      ensures k in entries ==> r.keys == keys
      ensures k !in entries ==> r.keys == keys + [k]
    {
      if k in entries then OMap(keys, entries[k := v]) else OMap(keys + [k], entries[k := v])
    }
  }

  /** `{}` */
  function Empty<K(!new), V>(): (r: OMap<K, V>)
    ensures r.Valid() && r.keys == [] && r.entries == map[]
  {
    OMap([], map[])
  }
}
