/**
 * The multiplex transaction: one logical transaction over several data
 * stores. It owns an insertion-ordered map from each store to the
 * sub-transaction opened against it, routes every entity-scoped call to the
 * sub-transaction of the owning store and drives flush, preCommit, commit and
 * close across all of them.
 *
 * Collaborators are scripted: each method takes, as function parameters, what
 * the sub-transactions answer during that call, and every call made on a
 * store or a sub-transaction is appended to the ghost `trace`.
 */
module Multiplex {
  import opened Collaborators
  import opened LinkedMaps
  import opened Construction
  import opened Identity
  import opened Routing
  import opened Lifecycle

  /** Regrouping a trace that is extended one call at a time. */
  lemma Regroup(a: seq<Call>, b: seq<Call>, c: seq<Call>)
    ensures (a + b) + c == a + (b + c)
  {
  }

  class MultiplexTransaction {
    const manager: Manager
    /** store -> sub-transaction, in store order; cleared by Close. */
    var transactions: LinkedMap
    const lastDataStoreTransaction: Option<SubTx>
    /** What the constructor's i-th beginTransaction call returned. */
    ghost const begun: seq<SubTx>
    /** The map as the constructor left it. */
    ghost const constructed: LinkedMap
    /** Every call made on a store or a sub-transaction, in order. */
    ghost var trace: seq<Call>

    /** The map is the one the constructor built from the stores and the
        begun sub-transactions, or empty after Close: nothing else changes it. */
    ghost predicate Valid()
      reads this
    {
      && |begun| == |manager.dataStores|
      && lastDataStoreTransaction == LastOpened(begun)
      && constructed == Opened(manager.dataStores, begun)
      && (transactions == constructed || transactions == Empty)
    }

    /** Opens one sub-transaction per store, in store order; `begun[i]` is
        what beginTransaction returns for manager.dataStores[i]. */
    constructor (manager: Manager, begun: seq<SubTx>)
      requires |begun| == |manager.dataStores|
      ensures Valid()
      ensures this.manager == manager && this.begun == begun
      ensures constructed == Opened(manager.dataStores, begun)
      ensures transactions == constructed
      ensures lastDataStoreTransaction == LastOpened(begun)
      ensures trace == Begins(manager.dataStores)
    {
      var stores := manager.dataStores;
      var m := Empty;
      var transaction: Option<SubTx> := None;
      ghost var calls: seq<Call> := [];
      var i := 0;
      while i < |stores|
        invariant 0 <= i <= |stores|
        invariant m == Opened(stores[..i], begun[..i])
        invariant transaction == LastOpened(begun[..i])
        invariant calls == Begins(stores[..i])
      {
        calls := calls + [Began(stores[i])];
        transaction := Some(begun[i]);
        m := m.Put(stores[i], begun[i]);
        OpenedStep(stores, begun, i);
        BeginsStep(stores, i);
        LastOpenedStep(begun, i);
        i := i + 1;
      }
      assert stores[..i] == stores && begun[..i] == begun;
      this.manager := manager;
      this.begun := begun;
      constructed := m;
      transactions := m;
      lastDataStoreTransaction := transaction;
      trace := calls;
    }

    /** accessUser: wraps the caller's opaque user and folds it through the
        sub-transaction of every store, in store order. */
    method AccessUser(opaqueUser: Opaque, access: (SubTx, Opaque) -> Result<User, Fault>)
      returns (r: Result<User, Exception>)
      modifies this`trace
      ensures r == AccessFold(manager.dataStores, transactions, access, User(opaqueUser)).value
      ensures trace == old(trace) + AccessFold(manager.dataStores, transactions, access, User(opaqueUser)).calls
    {
      var stores := manager.dataStores;
      var user := User(opaqueUser);
      ghost var done: seq<Call> := [];
      var i := 0;
      while i < |stores|
        invariant 0 <= i <= |stores|
        invariant trace == old(trace) + done
        invariant AccessFold(stores, transactions, access, User(opaqueUser)) ==
                  Traced(AccessFold(stores[i..], transactions, access, user).value,
                         done + AccessFold(stores[i..], transactions, access, user).calls)
      {
        AccessStep(stores, i, transactions, access, user);
        var transaction := transactions.Get(stores[i]);
        if transaction.None? {
          return Err(NullPointer);
        }
        var call := AccessedUser(transaction.value, user.opaqueUser);
        Regroup(old(trace), done, [call]);
        trace := trace + [call];
        var answer := access(transaction.value, user.opaqueUser);
        if answer.Err? {
          return Err(Thrown(answer.error));
        }
        ghost var rest := AccessFold(stores[i + 1..], transactions, access, answer.value).calls;
        Regroup(done, [call], rest);
        done := done + [call];
        user := answer.value;
        i := i + 1;
      }
      r := Ok(user);
    }

    /** Every entity-scoped operation (createObject, loadObject, loadObjects,
        filterCollection, getRelation, getTotalRecords and their variants):
        forwarded unchanged to the sub-transaction of the owning store. */
    method Forward(op: Op, respond: (SubTx, Op) -> Result<Value, Fault>) returns (r: Result<Value, Exception>)
      modifies this`trace
      ensures r == Route(transactions, manager, op, respond).value
      ensures trace == old(trace) + Route(transactions, manager, op, respond).calls
    {
      var transaction := GetTransaction(transactions, manager, TargetClass(op));
      if transaction.Err? {
        return Err(transaction.error);
      }
      trace := trace + [Forwarded(transaction.value, op)];
      var answer := respond(transaction.value, op);
      r := if answer.Ok? then Ok(answer.value) else Err(Thrown(answer.error));
    }

    /** Calls `phase` on each of `txs` in order, stopping at the first that throws. */
    method RunPass(txs: seq<SubTx>, phase: Phase, fails: SubTx -> Option<Fault>) returns (r: Option<Fault>)
      modifies this`trace
      ensures r == Pass(txs, phase, fails).value
      ensures trace == old(trace) + Pass(txs, phase, fails).calls
    {
      ghost var done: seq<Call> := [];
      var i := 0;
      while i < |txs|
        invariant 0 <= i <= |txs|
        invariant trace == old(trace) + done
        invariant Pass(txs, phase, fails) ==
                  Traced(Pass(txs[i..], phase, fails).value, done + Pass(txs[i..], phase, fails).calls)
      {
        PassStep(txs, i, phase, fails);
        var call := Ran(txs[i], phase);
        Regroup(old(trace), done, [call]);
        trace := trace + [call];
        var outcome := fails(txs[i]);
        if outcome.Some? {
          return outcome;
        }
        ghost var rest := Pass(txs[i + 1..], phase, fails).calls;
        Regroup(done, [call], rest);
        done := done + [call];
        i := i + 1;
      }
      r := None;
    }

    /** flush: every sub-transaction in map order, fail-fast. */
    method Flush(fails: SubTx -> Option<Fault>) returns (r: Option<Fault>)
      requires Valid()
      modifies this`trace
      ensures Valid()
      ensures r == Pass(transactions.Values(), Phase.Flush, fails).value
      ensures trace == old(trace) + Pass(transactions.Values(), Phase.Flush, fails).calls
    {
      r := RunPass(transactions.Values(), Phase.Flush, fails);
    }

    /** preCommit: every sub-transaction in map order, fail-fast. */
    method PreCommit(fails: SubTx -> Option<Fault>) returns (r: Option<Fault>)
      requires Valid()
      modifies this`trace
      ensures Valid()
      ensures r == Pass(transactions.Values(), Phase.PreCommit, fails).value
      ensures trace == old(trace) + Pass(transactions.Values(), Phase.PreCommit, fails).calls
    {
      r := RunPass(transactions.Values(), Phase.PreCommit, fails);
    }

    /** commit: a full flush pass, then commit on every sub-transaction in map
        order, fail-fast and with no rollback of the commits already made. */
    method Commit(flushFails: SubTx -> Option<Fault>, commitFails: SubTx -> Option<Fault>)
      returns (r: Option<Fault>)
      requires Valid()
      modifies this`trace
      ensures Valid()
      ensures r == CommitRun(transactions.Values(), flushFails, commitFails).value
      ensures trace == old(trace) + CommitRun(transactions.Values(), flushFails, commitFails).calls
    {
      r := Flush(flushFails);
      if r.Some? {
        return;
      }
      var txs := transactions.Values();
      Regroup(old(trace), Pass(txs, Phase.Flush, flushFails).calls, Pass(txs, Phase.Commit, commitFails).calls);
      r := RunPass(txs, Phase.Commit, commitFails);
    }

    /** close: tries every sub-transaction even when some throw, clears the
        map, then throws the aggregated failure if there was one. */
    method Close(fails: SubTx -> Option<Fault>) returns (r: Option<CloseException>)
      requires Valid()
      modifies this`transactions, this`trace
      ensures Valid()
      ensures transactions == Empty
      ensures r == CloseFold(old(transactions.Values()), fails)
      ensures trace == old(trace) + Invocations(old(transactions.Values()), Phase.Close)
    {
      var txs := transactions.Values();
      var cause: Option<CloseException> := None;
      var i := 0;
      while i < |txs|
        invariant 0 <= i <= |txs|
        invariant cause == CloseFold(txs[..i], fails)
        invariant trace == old(trace) + Invocations(txs[..i], Phase.Close)
      {
        CloseStep(txs, i, fails);
        Regroup(old(trace), Invocations(txs[..i], Phase.Close), [Ran(txs[i], Phase.Close)]);
        trace := trace + [Ran(txs[i], Phase.Close)];
        var thrown := fails(txs[i]);
        if thrown.Some? {
          var e := thrown.value;
          if cause.Some? {
            cause := Some(cause.value.(suppressed := cause.value.suppressed + [e]));
          } else if e.IOFault? {
            cause := Some(Rethrown(e, []));
          } else {
            cause := Some(Wrapping(e, []));
          }
        }
        i := i + 1;
      }
      assert txs[..i] == txs;
      transactions := Empty;
      r := cause;
    }

    /** setRequestScope: forwarded, in map order, to the request-scoped
        sub-transactions only. */
    method SetRequestScope(requestScope: Arg, isScoped: SubTx -> bool, fails: SubTx -> Option<Fault>)
      returns (r: Option<Fault>)
      requires Valid()
      modifies this`trace
      ensures Valid()
      ensures r == Pass(RequestScoped(transactions.Values(), isScoped), Phase.SetRequestScope(requestScope), fails).value
      ensures trace == old(trace) +
                Pass(RequestScoped(transactions.Values(), isScoped), Phase.SetRequestScope(requestScope), fails).calls
    {
      var txs := transactions.Values();
      var phase := Phase.SetRequestScope(requestScope);
      ghost var done: seq<Call> := [];
      var i := 0;
      while i < |txs|
        invariant 0 <= i <= |txs|
        invariant trace == old(trace) + done
        invariant Pass(RequestScoped(txs, isScoped), phase, fails) ==
                  Traced(Pass(RequestScoped(txs[i..], isScoped), phase, fails).value,
                         done + Pass(RequestScoped(txs[i..], isScoped), phase, fails).calls)
      {
        ScopedPassStep(txs, i, isScoped, phase, fails);
        if isScoped(txs[i]) {
          var call := Ran(txs[i], phase);
          Regroup(old(trace), done, [call]);
          trace := trace + [call];
          var outcome := fails(txs[i]);
          if outcome.Some? {
            return outcome;
          }
          ghost var rest := Pass(RequestScoped(txs[i + 1..], isScoped), phase, fails).calls;
          Regroup(done, [call], rest);
          done := done + [call];
        }
        i := i + 1;
      }
      r := None;
    }
  }
}
