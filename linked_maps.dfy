/**
 * The insertion-ordered map from each data store to the sub-transaction
 * opened against it (a LinkedHashMap<DataStore, DataStoreTransaction>).
 */
module LinkedMaps {
  import opened Collaborators

  /** `order` lists the keys in insertion order; `table` maps them to values. */
  datatype LinkedMap = LinkedMap(order: seq<Store>, table: map<Store, SubTx>) {

    ghost predicate Valid() {
      && Distinct(order)
      && (forall s :: s in table <==> s in order)
    }

    /** get: the value of key `s`, or None (Java's null) when it has none. */
    function Get(s: Store): Option<SubTx> {
      if s in table then Some(table[s]) else None
    }

    /** put: a new key goes to the end of the order, an existing key keeps its
        place and only its value changes. */
    function Put(s: Store, t: SubTx): (r: LinkedMap)
      requires Valid()
      ensures r.Valid()
    {
      LinkedMap(if s in table then order else order + [s], table[s := t])
    }

    /** values(), in insertion order. */
    function Values(): (vs: seq<SubTx>)
      requires Valid()
    {
      seq(|order|, i requires 0 <= i < |order| => table[order[i]])
    }
  }

  /** The map after clear(). */
  const Empty: LinkedMap := LinkedMap([], map[])
}
