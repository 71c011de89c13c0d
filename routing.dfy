/**
 * Routing: every entity-scoped operation goes, with its arguments unchanged,
 * to the sub-transaction of the store that owns the entity's class, and its
 * answer comes back unchanged. A class whose store has no sub-transaction
 * fails with InvalidCollectionException before any sub-transaction is called.
 */
module Routing {
  import opened Collaborators
  import opened LinkedMaps
  import opened Construction

  /** The class an operation is routed by: the class argument, or for the
      relation operations the runtime class of the entity. */
  function TargetClass(op: Op): EntityClass {
    if op.IsRelationOp() then op.entity.cls else op.entityClass
  }

  /** The name InvalidCollectionException carries: the dictionary's entity
      class when it knows one, otherwise the class itself. */
  function ErrorName(manager: Manager, cls: EntityClass): string {
    match manager.lookupEntityClass(cls)
    case Some(entityClass) => entityClass.name
    case None => cls.name
  }

  /** getTransaction(cls): the sub-transaction of the store getSubManager
      names for `cls`. The dictionary is consulted only to name the error. */
  function GetTransaction(m: LinkedMap, manager: Manager, cls: EntityClass): Result<SubTx, Exception> {
    var owner := manager.subManager(cls);
    if owner.Some? && owner.value in m.table then Ok(m.table[owner.value])
    else Err(InvalidCollection(ErrorName(manager, cls)))
  }

  /** A sub-transaction's answer as the coordinator returns it. */
  function Propagate(answer: Result<Value, Fault>): Result<Value, Exception> {
    match answer
    case Ok(v) => Ok(v)
    case Err(f) => Err(Thrown(f))
  }

  /** One entity-scoped call on the coordinator, with `respond(tx, op)` the
      scripted answer of `tx` to `op`. */
  function Route(m: LinkedMap, manager: Manager, op: Op, respond: (SubTx, Op) -> Result<Value, Fault>)
    : Traced<Result<Value, Exception>>
  {
    match GetTransaction(m, manager, TargetClass(op))
    case Err(e) => Traced(Err(e), [])
    case Ok(tx) => Traced(Propagate(respond(tx, op)), [Forwarded(tx, op)])
  }

  /** On a freshly constructed coordinator an operation reaches a
      sub-transaction exactly when its class is owned by a registered store;
      it then makes one call, to the sub-transaction begun at that store's
      last occurrence in the store list (its only one when the stores are
      distinct), with the operation unchanged, and returns its answer
      unchanged; otherwise it calls no sub-transaction and throws InvalidCollection. */
  lemma RoutingAfterConstruction(manager: Manager, begun: seq<SubTx>, op: Op,
                                 respond: (SubTx, Op) -> Result<Value, Fault>)
    requires |begun| == |manager.dataStores|
    ensures var stores := manager.dataStores;
            var owner := manager.subManager(TargetClass(op));
            var t := Route(Opened(stores, begun), manager, op, respond);
      && (t.calls != [] <==> owner.Some? && owner.value in stores)
      && (forall i :: 0 <= i < |stores| && owner == Some(stores[i]) &&
                      (forall j :: i < j < |stores| ==> stores[j] != stores[i]) ==>
            t.calls == [Forwarded(begun[i], op)] && t.value == Propagate(respond(begun[i], op)))
      && (t.calls == [] ==> t.value == Err(InvalidCollection(ErrorName(manager, TargetClass(op)))))
  {
    var stores := manager.dataStores;
    OpenedKeys(stores, begun);
    forall i | 0 <= i < |stores| && (forall j :: i < j < |stores| ==> stores[j] != stores[i])
      ensures Opened(stores, begun).table[stores[i]] == begun[i]
    {
      OpenedValue(stores, begun, i);
    }
  }

  /** After close has cleared the map every operation throws
      InvalidCollection and calls no sub-transaction. */
  lemma RoutingAfterClose(manager: Manager, op: Op, respond: (SubTx, Op) -> Result<Value, Fault>)
    ensures Route(Empty, manager, op, respond) ==
            Traced(Err(InvalidCollection(ErrorName(manager, TargetClass(op)))), [])
  {
  }
}
