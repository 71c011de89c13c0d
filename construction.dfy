/**
 * What the coordinator's constructor builds: one sub-transaction per
 * registered store, opened in registration order, kept in an
 * insertion-ordered map, and the last one opened remembered.
 *
 * The abstract beginTransaction hook is scripted: its i-th call returns
 * `begun[i]`.
 */
module Construction {
  import opened Collaborators
  import opened LinkedMaps

  /** One beginTransaction call per store, in iteration order. */
  function Begins(stores: seq<Store>): seq<Call> {
    seq(|stores|, i requires 0 <= i < |stores| => Began(stores[i]))
  }

  /** The map after putting (stores[i], begun[i]) for every i in turn. */
  function Opened(stores: seq<Store>, begun: seq<SubTx>): (m: LinkedMap)
    requires |begun| == |stores|
    ensures m.Valid()
    decreases |stores|
  {
    if stores == [] then Empty
    else
      var n := |stores| - 1;
      Opened(stores[..n], begun[..n]).Put(stores[n], begun[n])
  }

  /** One more step of the constructor's loop: one more put, ... */
  lemma OpenedStep(stores: seq<Store>, begun: seq<SubTx>, i: nat)
    requires |begun| == |stores| && i < |stores|
    ensures Opened(stores[..i + 1], begun[..i + 1]) == Opened(stores[..i], begun[..i]).Put(stores[i], begun[i])
  {
    assert stores[..i + 1][..i] == stores[..i];
    assert begun[..i + 1][..i] == begun[..i];
  }

  /** ... one more beginTransaction call ... */
  lemma BeginsStep(stores: seq<Store>, i: nat)
    requires i < |stores|
    ensures Begins(stores[..i + 1]) == Begins(stores[..i]) + [Began(stores[i])]
  {
  }

  /** ... and the last one opened is the newest. */
  lemma LastOpenedStep(begun: seq<SubTx>, i: nat)
    requires i < |begun|
    ensures LastOpened(begun[..i + 1]) == Some(begun[i])
  {
  }

  /** The last sub-transaction opened, or None (Java's null) when there is none. */
  function LastOpened(begun: seq<SubTx>): Option<SubTx> {
    if begun == [] then None else Some(begun[|begun| - 1])
  }

  /** The map has a sub-transaction for exactly the stores iterated. */
  lemma {:induction false} OpenedKeys(stores: seq<Store>, begun: seq<SubTx>)
    requires |begun| == |stores|
    ensures forall s :: s in Opened(stores, begun).table <==> s in stores
  {
    if stores != [] {
      var n := |stores| - 1;
      OpenedKeys(stores[..n], begun[..n]);
      assert stores == stores[..n] + [stores[n]];
    }
  }

  /** A store's sub-transaction is the one opened at the store's last
      occurrence in the iteration. */
  lemma {:induction false} OpenedValue(stores: seq<Store>, begun: seq<SubTx>, i: nat)
    requires |begun| == |stores| && i < |stores|
    requires forall j :: i < j < |stores| ==> stores[j] != stores[i]
    ensures stores[i] in Opened(stores, begun).table
    ensures Opened(stores, begun).table[stores[i]] == begun[i]
  {
    var n := |stores| - 1;
    if i < n {
      OpenedValue(stores[..n], begun[..n], i);
    }
  }

  /** The remembered transaction is the one the map holds for the final store
      (null when there is no store). */
  lemma LastOpenedIsFinalStores(stores: seq<Store>, begun: seq<SubTx>)
    requires |begun| == |stores|
    ensures stores == [] <==> LastOpened(begun).None?
    ensures stores != [] ==> LastOpened(begun) == Opened(stores, begun).Get(stores[|stores| - 1])
  {
    if stores != [] {
      OpenedValue(stores, begun, |stores| - 1);
    }
  }

  /** Keys are only ever appended: the keys after the first k stores are a
      prefix of the final keys, so keys come in order of first occurrence. */
  lemma {:induction false} KeysKeepFirstOccurrenceOrder(stores: seq<Store>, begun: seq<SubTx>, k: nat)
    requires |begun| == |stores| && k <= |stores|
    ensures Opened(stores[..k], begun[..k]).order <= Opened(stores, begun).order
    decreases |stores|
  {
    if k < |stores| {
      var n := |stores| - 1;
      var before := Opened(stores[..n], begun[..n]);
      assert stores[..n][..k] == stores[..k] && begun[..n][..k] == begun[..k];
      KeysKeepFirstOccurrenceOrder(stores[..n], begun[..n], k);
      assert before.order <= before.Put(stores[n], begun[n]).order;
    } else {
      assert stores[..k] == stores && begun[..k] == begun;
    }
  }

  /** With distinct stores the map holds exactly one entry per store, keyed in
      store order. */
  lemma {:induction false} OpenedOrderDistinct(stores: seq<Store>, begun: seq<SubTx>)
    requires |begun| == |stores| && Distinct(stores)
    ensures Opened(stores, begun).order == stores
  {
    if stores != [] {
      var n := |stores| - 1;
      var before := Opened(stores[..n], begun[..n]);
      OpenedOrderDistinct(stores[..n], begun[..n]);
      assert stores[n] !in before.table by {
        OpenedKeys(stores[..n], begun[..n]);
        assert stores[n] !in stores[..n];
      }
      assert Opened(stores, begun).order == before.order + [stores[n]];
      assert stores[..n] + [stores[n]] == stores;
    }
  }

  /** With distinct stores values() are the opened sub-transactions, in
      store order. */
  lemma OpenedDistinct(stores: seq<Store>, begun: seq<SubTx>)
    requires |begun| == |stores| && Distinct(stores)
    ensures Opened(stores, begun).order == stores
    ensures Opened(stores, begun).Values() == begun
  {
    OpenedOrderDistinct(stores, begun);
    var m := Opened(stores, begun);
    forall i | 0 <= i < |stores|
      ensures m.Values()[i] == begun[i]
    {
      OpenedValue(stores, begun, i);
    }
  }
}
