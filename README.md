# Multiplexed transaction coordinator

This project models Elide's `MultiplexTransaction`, the transaction that lets one logical transaction span
several data stores.

- **Construction.** It opens one sub-transaction per registered data store, in store order. It keeps them
  in an insertion-ordered map (a `LinkedHashMap`) and remembers the last one opened.
- **Routing.** Every entity-scoped operation goes to the sub-transaction of the store that owns the
  entity's class. An unknown class fails with `InvalidCollectionException`.
- **`accessUser`.** It threads the caller's identity through every sub-transaction, in store order.
- **Lifecycle.**
  - `flush`, `preCommit` and `commit` are fail-fast passes over the sub-transactions.
  - `close` tries every sub-transaction. It folds the failures into one `IOException` and clears the map.
  - `setRequestScope` reaches only the request-scoped sub-transactions.

The modules are:

- `Collaborators` (collaborators.dfy): the opaque collaborators as values. This covers stores,
  sub-transactions, entity classes, the manager's `getSubManager` and `lookupEntityClass` as functions,
  the 12 entity-scoped operations as one `Op` datatype, faults and the calls recorded in a trace.
- `LinkedMaps` (linked_maps.dfy): the `LinkedHashMap<DataStore, DataStoreTransaction>`. It is a key
  order plus a table. `put` appends a new key and keeps the place of an existing one.
- `Construction`, `Identity`, `Routing` and `Lifecycle`: what each part of the class computes, as
  functions returning a value and the calls made on collaborators. The lemmas state what the class promises.
- `Multiplex` (multiplex_transaction.dfy): the class itself.
  - `transactions` is a mutable field.
  - The constructor, `AccessUser`, the passes and `Close` are loops as in the Java code.
  - Every call made on a store or a sub-transaction is appended to the ghost field `trace`. The manager's
    `getSubManager` and the dictionary's `lookupEntityClass` are given functions, and their calls are not recorded.
  - Each method's `ensures` ties its result and its new state to the corresponding function.

Collaborator behaviour is scripted. Each method takes, as function parameters, what the sub-transactions answer
during that call:

- `fails(tx)` is the exception `tx.flush()`, `commit()`, `close()` and so on would throw, if any;
- `access(tx, o)` is the result of `tx.accessUser(o)`;
- `respond(tx, op)` is the result of forwarding `op`;
- `isScoped(tx)` says whether `tx` is a `RequestScopedTransaction`.

The constructor's `beginTransaction` hook is the sequence `begun`: its i-th call returns `begun[i]`.

Where the class's own comment and its code disagree, the model follows the code:

- The class comment (`MultiplexTransaction.java:31`) says commits already completed are reversed when a
  later commit fails. `commit` (`:108-113`) does no such thing. `Lifecycle.CommitFailureKeepsEarlierCommits`
  states the actual behaviour.

`getTransaction` (`:142-149`) does not retry the lookup through the dictionary. It looks up only
`getSubManager(cls)` and uses `lookupEntityClass` only to name the exception. Any canonicalisation of a
runtime class belongs to `getSubManager`, which is a given function here.

`Routing.TargetClass` (the class an operation is routed by: the entity's runtime class for the relation
operations at `:151-194`, the class argument otherwise) and `Routing.GetTransaction` (`:142-149`) are
definitions. `Routing.Route` composes them into one forwarded call, and the routing lemmas
`Routing.RoutingAfterConstruction` and `Routing.RoutingAfterClose` state what they amount to.

## Model

Every source cell refers to `elide-datastore/elide-datastore-multiplex/src/main/java/com/yahoo/elide/datastores/multiplex/MultiplexTransaction.java`.

| member | source | states |
|---|---|---|
| LinkedMaps.LinkedMap.Put | elide-datastore/elide-datastore-multiplex/src/main/java/com/yahoo/elide/datastores/multiplex/MultiplexTransaction.java:50 | `put` keeps the map well-formed: keys stay distinct and a key is listed exactly when it has a value |
| Construction.Opened | elide-datastore/elide-datastore-multiplex/src/main/java/com/yahoo/elide/datastores/multiplex/MultiplexTransaction.java:44-51 | Putting each store's sub-transaction in turn always yields a well-formed insertion-ordered map: keys distinct, and listed exactly when they have a value |
| Construction.OpenedKeys | elide-datastore/elide-datastore-multiplex/src/main/java/com/yahoo/elide/datastores/multiplex/MultiplexTransaction.java:48-51 | After construction the map has a sub-transaction for exactly the registered stores |
| Construction.OpenedValue | elide-datastore/elide-datastore-multiplex/src/main/java/com/yahoo/elide/datastores/multiplex/MultiplexTransaction.java:48-51 | A store's sub-transaction is the one begun at its last occurrence in the store list |
| Construction.KeysKeepFirstOccurrenceOrder | elide-datastore/elide-datastore-multiplex/src/main/java/com/yahoo/elide/datastores/multiplex/MultiplexTransaction.java:48-51 | Keys are only ever appended: the keys after any prefix of the loop are a prefix of the final keys |
| Construction.OpenedOrderDistinct | elide-datastore/elide-datastore-multiplex/src/main/java/com/yahoo/elide/datastores/multiplex/MultiplexTransaction.java:42-53 | With distinct stores the keys are exactly the stores, in store order |
| Construction.OpenedDistinct | elide-datastore/elide-datastore-multiplex/src/main/java/com/yahoo/elide/datastores/multiplex/MultiplexTransaction.java:42-53 | With distinct stores `values()` is exactly the begun sub-transactions, one per store, in store order |
| Construction.LastOpenedIsFinalStores | elide-datastore/elide-datastore-multiplex/src/main/java/com/yahoo/elide/datastores/multiplex/MultiplexTransaction.java:47-52 | `lastDataStoreTransaction` is null exactly when there is no store, and otherwise is the sub-transaction the map holds for the final store |
| Multiplex.MultiplexTransaction.constructor | elide-datastore/elide-datastore-multiplex/src/main/java/com/yahoo/elide/datastores/multiplex/MultiplexTransaction.java:42-53 | The loop builds the map `Opened(dataStores, begun)`, remembers the last sub-transaction begun, and calls `beginTransaction` once per store, in store order |
| Identity.AccessIsLeftFold | elide-datastore/elide-datastore-multiplex/src/main/java/com/yahoo/elide/datastores/multiplex/MultiplexTransaction.java:58-65 | Call i goes to the i-th store's sub-transaction. The first call gets the caller's opaque user and each later one the previous answer's. Success visits every store and returns the last answer, or `new User(opaqueUser)` with no store |
| Identity.AccessFailsOnlyByThrowing | elide-datastore/elide-datastore-multiplex/src/main/java/com/yahoo/elide/datastores/multiplex/MultiplexTransaction.java:58-65 | When every store has a sub-transaction there is no null dereference. A failure is the exception thrown by the last call made |
| Multiplex.MultiplexTransaction.AccessUser | elide-datastore/elide-datastore-multiplex/src/main/java/com/yahoo/elide/datastores/multiplex/MultiplexTransaction.java:58-65 | The loop returns the fold's result and makes exactly the fold's calls |
| Routing.RoutingAfterConstruction | elide-datastore/elide-datastore-multiplex/src/main/java/com/yahoo/elide/datastores/multiplex/MultiplexTransaction.java:67-96 | For any store list, after construction an operation calls a sub-transaction exactly when its class's owner (`getSubManager` of the entity's runtime class for relation operations, of the class argument otherwise) is a registered store. It then makes one call, to the sub-transaction begun at that store's last occurrence in the list (its only one when the stores are distinct), with the operation unchanged, and returns its answer unchanged. Otherwise it calls no sub-transaction and throws `InvalidCollectionException` naming the dictionary's class, or `cls` itself when the dictionary has none |
| Routing.RoutingAfterClose | elide-datastore/elide-datastore-multiplex/src/main/java/com/yahoo/elide/datastores/multiplex/MultiplexTransaction.java:142-147 | Once `close` has cleared the map every operation throws `InvalidCollectionException` and calls no sub-transaction |
| Multiplex.MultiplexTransaction.Forward | elide-datastore/elide-datastore-multiplex/src/main/java/com/yahoo/elide/datastores/multiplex/MultiplexTransaction.java:67-96 | Each forwarding method returns the routed result and makes exactly the routed calls |
| Lifecycle.FirstFailure | elide-datastore/elide-datastore-multiplex/src/main/java/com/yahoo/elide/datastores/multiplex/MultiplexTransaction.java:99-106 | The index of the first failing sub-transaction, or the count when none fails: every earlier one succeeds |
| Lifecycle.PassStopsAtFirstFailure | elide-datastore/elide-datastore-multiplex/src/main/java/com/yahoo/elide/datastores/multiplex/MultiplexTransaction.java:99-106 | A pass calls each sub-transaction in order up to and including the first that throws, and no later one. It throws that exception, and succeeds exactly when every call succeeds |
| Multiplex.MultiplexTransaction.RunPass | elide-datastore/elide-datastore-multiplex/src/main/java/com/yahoo/elide/datastores/multiplex/MultiplexTransaction.java:100 | The `forEach` loop returns the pass's outcome and makes exactly its calls |
| Multiplex.MultiplexTransaction.Flush | elide-datastore/elide-datastore-multiplex/src/main/java/com/yahoo/elide/datastores/multiplex/MultiplexTransaction.java:98-101 | `flush` is a fail-fast pass over `values()` in map order |
| Multiplex.MultiplexTransaction.PreCommit | elide-datastore/elide-datastore-multiplex/src/main/java/com/yahoo/elide/datastores/multiplex/MultiplexTransaction.java:103-106 | `preCommit` is a fail-fast pass over `values()` in map order |
| Lifecycle.CommitFlushesAllBeforeAnyCommit | elide-datastore/elide-datastore-multiplex/src/main/java/com/yahoo/elide/datastores/multiplex/MultiplexTransaction.java:108-113 | A failed flush stops `commit` before any commit. Otherwise every flush comes before the first commit, and commits go out in order up to the first that throws |
| Lifecycle.CommitFailureKeepsEarlierCommits | elide-datastore/elide-datastore-multiplex/src/main/java/com/yahoo/elide/datastores/multiplex/MultiplexTransaction.java:108-113 | When commit k fails after a clean flush, commits 0..k were all issued, the trace ends with commit k (nothing is rolled back, nothing later is attempted), and the exception is commit k's |
| Multiplex.MultiplexTransaction.Commit | elide-datastore/elide-datastore-multiplex/src/main/java/com/yahoo/elide/datastores/multiplex/MultiplexTransaction.java:108-113 | `commit` is a full flush pass, then, only if it succeeded, a commit pass |
| Lifecycle.CloseAggregatesFailures | elide-datastore/elide-datastore-multiplex/src/main/java/com/yahoo/elide/datastores/multiplex/MultiplexTransaction.java:118-131 | `close` throws exactly when some close failed. The primary exception is the first failure, kept when it is an `IOException` and wrapped otherwise. The suppressed ones are all later failures in order, one fewer than the failures |
| Lifecycle.FailuresAreTheFailedCloses | elide-datastore/elide-datastore-multiplex/src/main/java/com/yahoo/elide/datastores/multiplex/MultiplexTransaction.java:119-131 | The failures collected are exactly those of the closes that throw. There are none exactly when every close succeeds, and the first is that of the first one that throws |
| Lifecycle.CloseThrowsIffSomeCloseFailed | elide-datastore/elide-datastore-multiplex/src/main/java/com/yahoo/elide/datastores/multiplex/MultiplexTransaction.java:115-136 | `close` throws if and only if some sub-transaction's close throws, and its primary exception is the first such one |
| Multiplex.MultiplexTransaction.Close | elide-datastore/elide-datastore-multiplex/src/main/java/com/yahoo/elide/datastores/multiplex/MultiplexTransaction.java:115-136 | Every sub-transaction is closed in map order, even after failures. The map is empty afterwards whatever the outcome, and the result is the aggregated exception |
| Lifecycle.RequestScopedMembers | elide-datastore/elide-datastore-multiplex/src/main/java/com/yahoo/elide/datastores/multiplex/MultiplexTransaction.java:216-220 | The sub-transactions reached are exactly the request-scoped ones |
| Multiplex.MultiplexTransaction.SetRequestScope | elide-datastore/elide-datastore-multiplex/src/main/java/com/yahoo/elide/datastores/multiplex/MultiplexTransaction.java:214-221 | `setRequestScope` is a pass, in map order, over the request-scoped sub-transactions only |

## Left out

- The semantics of each sub-transaction (loading, filtering, sorting, pagination, relations, identity) are
  not modelled. Their answers and failures are scripted per call as function parameters, and a
  sub-transaction's answers do not depend on earlier calls.
- `MultiplexManager.getSubManager`, `EntityDictionary.lookupEntityClass` and the abstract
  `beginTransaction` hook are not part of this model. They are given functions, or the sequence `begun`.
- Multiplex.MultiplexTransaction.constructor: a `beginTransaction` that throws is not modelled. In Java no
  object results, so there is no state to describe.
- Multiplex.MultiplexTransaction.constructor: `beginTransaction` (`:55`) is assumed never to return null;
  every entry of `begun` is a real sub-transaction. In Java a null return is stored by `put` (`:50`), and then:
  `lastDataStoreTransaction` is null although stores exist (`:52`); `getTransaction` throws
  `InvalidCollectionException` for that registered store (`:143-146`); `flush`, `preCommit` and `commit`
  throw a NullPointerException from `forEach` when they reach it (`:100`, `:105`, `:112`); `close` wraps
  that NullPointerException in a new `IOException` when it is the first failure, and otherwise adds it as
  suppressed (`:122-128`); `accessUser` throws a NullPointerException
  (`:62`); and `setRequestScope` skips the entry (`:217`). `Construction.LastOpenedIsFinalStores` and
  `Routing.RoutingAfterConstruction` hold under this assumption.
- Identity.AccessFailsOnlyByThrowing: a sub-transaction's `accessUser` is assumed never to return null;
  every scripted `access` answer is a real `User`. In Java a null answer from any store but the last makes
  the next iteration throw a NullPointerException at `user.getOpaqueUser()` (`:62`), even when every store
  has a sub-transaction; a null answer from the last store makes `accessUser` return null (`:64`).
- Multiplex.MultiplexTransaction.Forward: the 12 Java forwarding overloads are one method over the `Op`
  datatype. Each overload differs only in the arguments it passes through unchanged.
- Java reflection and generics: classes are abstract ids, `getClass()` is a field of the entity, and
  arguments such as `FilterScope`, `Optional<FilterExpression>`, sorting, pagination and `RequestScope`
  are opaque values.
- Multiplex.MultiplexTransaction.Close: exceptions are values here, with no identity, so `addSuppressed`
  never throws in the model. In Java it throws `IllegalArgumentException` when asked to suppress `cause`
  itself. That happens when the first failure was an `IOException` kept as `cause` (`:125-126`) and the same
  instance is thrown again by a later close. A repeated non-IO exception is wrapped (`:128`), and a repeated
  later one is merely added again, so neither of those throws. The `IllegalArgumentException` escapes the
  catch, so the remaining closes and `transactions.clear()` (`:132`) are skipped; the model always closes
  every sub-transaction and clears the map.
- Multiplex.MultiplexTransaction.Close: `suppressed` holds only what `close` appends. A first `IOException`
  that already carries suppressed exceptions keeps them (`:126`), so Java's `getSuppressed()` can then
  return more than one fewer than the failures.
- Java's exception hierarchy beyond the IOException versus other distinction that `close` relies on.
  Checked non-IO exceptions cannot come out of `close()`.
- Thread safety: one thread per transaction, so there is no concurrency.
- The in-memory store's test and the audit logger of the same repository are not part of this model. They
  are not part of the coordinator.
