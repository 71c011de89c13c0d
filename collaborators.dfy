/**
 * The collaborators of the multiplex transaction coordinator, reduced to what
 * the coordinator observes of them: identities, opaque arguments, the outcomes
 * a sub-transaction produces, and the calls the coordinator makes on stores and
 * sub-transactions (which the model records in a ghost trace; getSubManager
 * and lookupEntityClass are given functions whose calls are not recorded).
 */
module Collaborators {

  datatype Option<T> = None | Some(value: T)

  datatype Result<T, E> = Ok(value: T) | Err(error: E)

  /** A backing data store, known to the coordinator only by its identity. */
  datatype Store = Store(id: nat)

  /** A transaction opened against one store (a DataStoreTransaction). */
  datatype SubTx = SubTx(id: nat)

  /** An entity class; `name` is what Class.getName() returns for it. */
  datatype EntityClass = EntityClass(name: string)

  /** An entity instance; `cls` is what getClass() returns for it. */
  datatype Entity = Entity(cls: EntityClass, id: nat)

  /** An argument the coordinator passes on without looking at it: an id, a
      filter scope or expression, a predicate set, a sorting, a pagination, a
      collection, a relationship type, the entity dictionary, a request scope. */
  type Arg = nat

  /** The caller's opaque user object. */
  type Opaque = nat

  /** Whatever a forwarded sub-transaction operation returns. */
  type Value = nat

  /** A security principal wrapping an opaque user object. */
  datatype User = User(opaqueUser: Opaque)

  /** What a sub-transaction can throw: an IOException, or an unchecked
      Error or RuntimeException. `tag` tells one exception from another. */
  datatype Fault = IOFault(tag: nat) | UncheckedFault(tag: nat)

  /** What an entity-scoped call or accessUser on the coordinator can throw. */
  datatype Exception =
    | Thrown(fault: Fault)             // a sub-transaction's exception, propagated as it is
    | InvalidCollection(name: string)  // no sub-transaction for the entity's store
    | NullPointer                      // accessUser found no sub-transaction for a store

  /** The multiplex manager as the coordinator uses it: the registered stores in
      registration order, getSubManager (the store owning a class, if any) and
      the dictionary's lookupEntityClass (the declared entity class, if any). */
  datatype Manager = Manager(
    dataStores: seq<Store>,
    subManager: EntityClass -> Option<Store>,
    lookupEntityClass: EntityClass -> Option<EntityClass>)

  /** One entity-scoped operation, with the arguments the caller passed.
      There is one constructor per overload the coordinator forwards. */
  datatype Op =
    | CreateObject(entityClass: EntityClass)
    | LoadObject(entityClass: EntityClass, id: Arg)
    | LoadObjects(entityClass: EntityClass)
    | LoadObjectsInScope(entityClass: EntityClass, filterScope: Arg)
    | LoadObjectFiltered(entityClass: EntityClass, id: Arg, filterExpression: Option<Arg>)
    | FilterCollection(collection: Arg, entityClass: EntityClass, predicates: Arg)
    | GetRelation(entity: Entity, relationshipType: Arg, relationName: string, relationClass: EntityClass,
                  dictionary: Arg, filterExpression: Option<Arg>, sorting: Arg, pagination: Arg)
    | GetRelationWithFilters(entity: Entity, relationshipType: Arg, relationName: string,
                             relationClass: EntityClass, dictionary: Arg, predicates: Arg)
    | GetRelationWithSortingAndPagination(entity: Entity, relationshipType: Arg, relationName: string,
                                          relationClass: EntityClass, dictionary: Arg, predicates: Arg,
                                          sorting: Arg, pagination: Arg)
    | LoadObjectsWithSortingAndPagination(entityClass: EntityClass, filterScope: Arg)
    | FilterCollectionWithSortingAndPagination(collection: Arg, entityClass: EntityClass, dictionary: Arg,
                                               optionalPredicates: Option<Arg>, optionalSorting: Option<Arg>,
                                               optionalPagination: Option<Arg>)
    | GetTotalRecords(entityClass: EntityClass)
  {
    /** The relation operations name an entity instance rather than a class. */
    predicate IsRelationOp() {
      GetRelation? || GetRelationWithFilters? || GetRelationWithSortingAndPagination?
    }
  }

  /** A lifecycle call the coordinator makes on every sub-transaction in turn. */
  datatype Phase = Flush | PreCommit | Commit | Close | SetRequestScope(requestScope: Arg)

  /** A call the coordinator makes on a store or a sub-transaction. */
  datatype Call =
    | Began(store: Store)                  // beginTransaction(store)
    | AccessedUser(tx: SubTx, opaqueUser: Opaque) // tx.accessUser(opaqueUser)
    | Forwarded(tx: SubTx, op: Op)         // the entity-scoped operation, on tx
    | Ran(tx: SubTx, phase: Phase)         // tx.flush(), tx.commit(), ...

  /** A value together with the calls made to compute it, in order. */
  datatype Traced<T> = Traced(value: T, calls: seq<Call>)

  ghost predicate Distinct(stores: seq<Store>) {
    forall i, j :: 0 <= i < j < |stores| ==> stores[i] != stores[j]
  }
}
