/** An insertion-ordered dictionary whose lookups insist on a present key. */
module StrictMaps {

  /**
   * `keys` remembers the order of first insertion, `items` the current value
   * of each key; overwriting a key keeps its original position.
   */
  class StrictMap<K(==), V> {
    var keys: seq<K>
    var items: map<K, V>

    ghost predicate Valid()
      reads this
    {
      && (forall i, j :: 0 <= i < j < |keys| ==> keys[i] != keys[j])
      && items.Keys == set k | k in keys
    }

    constructor ()
      ensures Valid()
      ensures keys == [] && items == map[]
    {
      keys := [];
      items := map[];
    }

    /** Inserts or overwrites `k`; a new key goes to the end of the order. */
    method Set(k: K, v: V)
      requires Valid()
      modifies this
      ensures Valid()
      ensures items == old(items)[k := v]
      ensures keys == if k in old(items) then old(keys) else old(keys) + [k]
    {
      if k !in items {
        keys := keys + [k];
      }
      items := items[k := v];
    }

    predicate Has(k: K)
      reads this
    {
      k in items
    }

    function Get(k: K): V
      reads this
      requires k in items
    {
      items[k]
    }
  }
}
