/** Python dictionaries as the server uses them: a finite map that also
    remembers the order in which its keys were first inserted, because
    iterating a dict (`for k in d`) visits the keys in that order. */
module OrderedDicts {

  datatype Dict<K(==, !new), V> = Dict(keys: seq<K>, entries: map<K, V>) {

    /** The keys are listed once each, and exactly the mapped keys are listed. */
    ghost predicate Valid() {
      && (forall i, j :: 0 <= i < j < |keys| ==> keys[i] != keys[j])
      && (forall k :: k in entries <==> k in keys)
    }

    /** `d[k] = v`: overwrite the value of a present key in place, append a new key. */
    function Put(k: K, v: V): (d: Dict<K, V>)
      requires Valid()
      ensures d.Valid()
      ensures k in d.entries && d.entries[k] == v
      ensures forall k' :: k' != k ==> (k' in d.entries <==> k' in entries)
      ensures forall k' :: k' != k && k' in entries ==> d.entries[k'] == entries[k']
      ensures k in entries ==> d.keys == keys
      ensures k !in entries ==> d.keys == keys + [k]
    {
      Dict(if k in entries then keys else keys + [k], entries[k := v])
    }
  }

  /** `{}` */
  function Empty<K(==, !new), V>(): (d: Dict<K, V>)
    ensures d.Valid() && d.keys == [] && d.entries == map[]
  {
    Dict([], map[])
  }
}
