/** A Python dictionary: a map that also remembers the order in which its keys first arrived. */
module PyDict {

  datatype Dict<K(==), V> = Dict(keys: seq<K>, vals: map<K, V>) {

    ghost predicate Valid()
    {
      && (forall i, j | 0 <= i < j < |keys| :: keys[i] != keys[j])
      && (forall i | 0 <= i < |keys| :: keys[i] in vals)
      && (forall k | k in vals :: k in keys)
    }

    predicate Has(k: K) { k in vals }

    // Assigning to a key that is present keeps its place.
    function Put(k: K, v: V): (d: Dict<K, V>)
      ensures Valid() ==> d.Valid()
      ensures keys <= d.keys
      ensures d.vals == vals[k := v]
      ensures Has(k) ==> d.keys == keys
    {
      Dict(if k in vals then keys else keys + [k], vals[k := v])
    }

    function Values(): (r: seq<V>)
      requires Valid()
      ensures |r| == |keys|
      ensures forall i | 0 <= i < |keys| :: r[i] == vals[keys[i]]
    {
      seq(|keys|, i requires 0 <= i < |keys| => vals[keys[i]])
    }
  }

  function Empty<K(==), V>(): (d: Dict<K, V>)
    ensures d.Valid()
  {
    Dict([], map[])
  }
}
