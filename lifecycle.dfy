/**
 * The lifecycle passes over the sub-transactions, in map order:
 * flush, preCommit and setRequestScope stop at the first failure; commit
 * runs a whole flush pass, then commits with no rollback; close tries every
 * sub-transaction and folds the failures into one IOException carrying the
 * later ones as suppressed exceptions.
 */
module Lifecycle {
  import opened Collaborators

  /** The calls of `phase` on each of `txs`, in order. */
  function Invocations(txs: seq<SubTx>, phase: Phase): seq<Call> {
    seq(|txs|, i requires 0 <= i < |txs| => Ran(txs[i], phase))
  }

  lemma InvocationsCons(tx: SubTx, txs: seq<SubTx>, phase: Phase)
    ensures Invocations([tx] + txs, phase) == [Ran(tx, phase)] + Invocations(txs, phase)
  {
  }

  /** The index of the first of `txs` whose call fails, or |txs| when none does. */
  function FirstFailure(txs: seq<SubTx>, fails: SubTx -> Option<Fault>): (k: nat)
    ensures k <= |txs|
    ensures forall i :: 0 <= i < k ==> fails(txs[i]).None?
    ensures k < |txs| ==> fails(txs[k]).Some?
    decreases |txs|
  {
    if txs == [] || fails(txs[0]).Some? then 0 else 1 + FirstFailure(txs[1..], fails)
  }

  /** A fail-fast pass (Collection.forEach) of `phase` over `txs`, with
      `fails(tx)` the scripted exception of tx's call, if it throws one. */
  function Pass(txs: seq<SubTx>, phase: Phase, fails: SubTx -> Option<Fault>): Traced<Option<Fault>>
    decreases |txs|
  {
    if txs == [] then Traced(None, [])
    else match fails(txs[0])
      case Some(f) => Traced(Some(f), [Ran(txs[0], phase)])
      case None =>
        var rest := Pass(txs[1..], phase, fails);
        Traced(rest.value, [Ran(txs[0], phase)] + rest.calls)
  }

  /** The first step of a pass over `tx` followed by `rest`. */
  lemma PassCons(tx: SubTx, rest: seq<SubTx>, phase: Phase, fails: SubTx -> Option<Fault>)
    ensures Pass([tx] + rest, phase, fails) ==
              match fails(tx)
              case Some(f) => Traced(Some(f), [Ran(tx, phase)])
              case None => Traced(Pass(rest, phase, fails).value, [Ran(tx, phase)] + Pass(rest, phase, fails).calls)
  {
    assert ([tx] + rest)[1..] == rest;
  }

  /** The pass over txs[i..] in terms of the pass over txs[i + 1..]. */
  lemma PassStep(txs: seq<SubTx>, i: nat, phase: Phase, fails: SubTx -> Option<Fault>)
    requires i < |txs|
    ensures fails(txs[i]).Some? ==> Pass(txs[i..], phase, fails) == Traced(fails(txs[i]), [Ran(txs[i], phase)])
    ensures fails(txs[i]).None? ==>
              Pass(txs[i..], phase, fails) ==
              Traced(Pass(txs[i + 1..], phase, fails).value, [Ran(txs[i], phase)] + Pass(txs[i + 1..], phase, fails).calls)
  {
    assert txs[i..][1..] == txs[i + 1..];
  }

  /** A pass calls every sub-transaction up to and including the first that
      throws, and no later one; it throws that exception, and succeeds exactly
      when every call succeeds. */
  lemma {:induction false} PassStopsAtFirstFailure(txs: seq<SubTx>, phase: Phase, fails: SubTx -> Option<Fault>)
    ensures var k := FirstFailure(txs, fails); var t := Pass(txs, phase, fails);
      && t.calls == Invocations(txs[..if k < |txs| then k + 1 else k], phase)
      && t.value == (if k < |txs| then fails(txs[k]) else None)
      && (t.value.None? <==> forall i :: 0 <= i < |txs| ==> fails(txs[i]).None?)
    decreases |txs|
  {
    if txs != [] {
      var k := FirstFailure(txs, fails);
      var j := if k < |txs| then k + 1 else k;
      assert [txs[0]] + txs[1..] == txs;
      PassCons(txs[0], txs[1..], phase, fails);
      assert txs[..j] == [txs[0]] + txs[1..][..j - 1];
      InvocationsCons(txs[0], txs[1..][..j - 1], phase);
      if fails(txs[0]).None? {
        PassStopsAtFirstFailure(txs[1..], phase, fails);
      }
    }
  }

  /** commit(): a flush pass over all sub-transactions, then, only if it
      succeeded, a commit pass. */
  function CommitRun(txs: seq<SubTx>, flushFails: SubTx -> Option<Fault>, commitFails: SubTx -> Option<Fault>)
    : Traced<Option<Fault>>
  {
    var flushed := Pass(txs, Flush, flushFails);
    if flushed.value.Some? then flushed
    else
      var committed := Pass(txs, Commit, commitFails);
      Traced(committed.value, flushed.calls + committed.calls)
  }

  /** No commit is issued unless every sub-transaction has been flushed
      first; commits then go out in order up to the first that throws. */
  lemma CommitFlushesAllBeforeAnyCommit(txs: seq<SubTx>, flushFails: SubTx -> Option<Fault>,
                                        commitFails: SubTx -> Option<Fault>)
    ensures var f := FirstFailure(txs, flushFails); var k := FirstFailure(txs, commitFails);
            var t := CommitRun(txs, flushFails, commitFails);
      if f < |txs| then
        && t.value == flushFails(txs[f])
        && t.calls == Invocations(txs[..f + 1], Flush)
      else
        && t.value == (if k < |txs| then commitFails(txs[k]) else None)
        && t.calls == Invocations(txs, Flush) + Invocations(txs[..if k < |txs| then k + 1 else k], Commit)
  {
    PassStopsAtFirstFailure(txs, Flush, flushFails);
    if FirstFailure(txs, flushFails) == |txs| {
      assert txs[..|txs|] == txs;
      PassStopsAtFirstFailure(txs, Commit, commitFails);
    }
  }

  /** When commit k throws after a clean flush pass, the commits before it
      were made and stay made: the trace ends with commit k, and nothing
      after it undoes an earlier commit. */
  lemma CommitFailureKeepsEarlierCommits(txs: seq<SubTx>, flushFails: SubTx -> Option<Fault>,
                                         commitFails: SubTx -> Option<Fault>, k: nat)
    requires forall i :: 0 <= i < |txs| ==> flushFails(txs[i]).None?
    requires k < |txs| && commitFails(txs[k]).Some?
    requires forall i :: 0 <= i < k ==> commitFails(txs[i]).None?
    ensures var t := CommitRun(txs, flushFails, commitFails);
      && t.value == commitFails(txs[k])
      && |t.calls| == |txs| + k + 1
      && (forall j :: 0 <= j <= k ==> t.calls[|txs| + j] == Ran(txs[j], Commit))
      && t.calls[|t.calls| - 1] == Ran(txs[k], Commit)
  {
    CommitFlushesAllBeforeAnyCommit(txs, flushFails, commitFails);
  }

  /** The exception close() throws: the first failure itself when it is an
      IOException, or a new IOException wrapping it; either way carrying the
      later failures as suppressed exceptions. */
  datatype CloseException =
    | Rethrown(io: Fault, suppressed: seq<Fault>)
    | Wrapping(cause: Fault, suppressed: seq<Fault>)
  {
    function Primary(): Fault {
      match this
      case Rethrown(f, _) => f
      case Wrapping(f, _) => f
    }
  }

  /** One catch clause of close(): record failure `e` in `cause`. */
  function Absorb(cause: Option<CloseException>, e: Fault): Option<CloseException> {
    match cause
    case Some(c) => Some(c.(suppressed := c.suppressed + [e]))
    case None => Some(if e.IOFault? then Rethrown(e, []) else Wrapping(e, []))
  }

  /** The cause after closing each of `txs` in turn, `fails(tx)` being the
      scripted exception of tx.close(), if it throws one. */
  function CloseFold(txs: seq<SubTx>, fails: SubTx -> Option<Fault>): Option<CloseException>
    decreases |txs|
  {
    if txs == [] then None
    else
      var n := |txs| - 1;
      var cause := CloseFold(txs[..n], fails);
      match fails(txs[n])
      case None => cause
      case Some(e) => Absorb(cause, e)
  }

  /** One more step of close()'s loop: one more close call, and its failure,
      if any, absorbed into the cause. */
  lemma CloseStep(txs: seq<SubTx>, i: nat, fails: SubTx -> Option<Fault>)
    requires i < |txs|
    ensures Invocations(txs[..i + 1], Close) == Invocations(txs[..i], Close) + [Ran(txs[i], Close)]
    ensures CloseFold(txs[..i + 1], fails) ==
              match fails(txs[i])
              case None => CloseFold(txs[..i], fails)
              case Some(e) => Absorb(CloseFold(txs[..i], fails), e)
  {
    assert txs[..i + 1][..i] == txs[..i];
  }

  /** The exceptions the closes of `txs` throw, in order. */
  function Failures(txs: seq<SubTx>, fails: SubTx -> Option<Fault>): seq<Fault>
    decreases |txs|
  {
    if txs == [] then []
    else (match fails(txs[0]) case Some(e) => [e] case None => []) + Failures(txs[1..], fails)
  }

  lemma {:induction false} FailuresSnoc(txs: seq<SubTx>, tx: SubTx, fails: SubTx -> Option<Fault>)
    ensures Failures(txs + [tx], fails) ==
            Failures(txs, fails) + (match fails(tx) case Some(e) => [e] case None => [])
    decreases |txs|
  {
    if txs != [] {
      assert (txs + [tx])[1..] == txs[1..] + [tx];
      FailuresSnoc(txs[1..], tx, fails);
    }
  }

  /** close() throws exactly when some close failed; the primary exception
      is the first failure (kept when it is an IOException, wrapped
      otherwise) and the suppressed ones are all later failures, in order,
      one fewer than the failures. */
  lemma {:induction false} CloseAggregatesFailures(txs: seq<SubTx>, fails: SubTx -> Option<Fault>)
    ensures var fs := Failures(txs, fails); var r := CloseFold(txs, fails);
      && (r.None? <==> fs == [])
      && (r.Some? ==>
            && r.value.Primary() == fs[0]
            && (r.value.Rethrown? <==> fs[0].IOFault?)
            && r.value.suppressed == fs[1..]
            && |r.value.suppressed| == |fs| - 1)
    decreases |txs|
  {
    if txs != [] {
      var n := |txs| - 1;
      CloseAggregatesFailures(txs[..n], fails);
      FailuresSnoc(txs[..n], txs[n], fails);
      assert txs[..n] + [txs[n]] == txs;
    }
  }

  /** The failures are those of the sub-transactions whose close throws, in
      order: none exactly when every close succeeds, and the first is the
      exception of the first sub-transaction that throws. */
  lemma {:induction false} FailuresAreTheFailedCloses(txs: seq<SubTx>, fails: SubTx -> Option<Fault>)
    ensures var fs := Failures(txs, fails); var k := FirstFailure(txs, fails);
      && |fs| <= |txs|
      && (fs == [] <==> k == |txs|)
      && (fs != [] ==> fails(txs[k]) == Some(fs[0]))
      && (forall e :: e in fs <==> exists i :: 0 <= i < |txs| && fails(txs[i]) == Some(e))
    decreases |txs|
  {
    if txs != [] {
      FailuresAreTheFailedCloses(txs[1..], fails);
      var fs := Failures(txs, fails);
      forall e | e in fs
        ensures exists i :: 0 <= i < |txs| && fails(txs[i]) == Some(e)
      {
        if fails(txs[0]) != Some(e) {
          var i :| 0 <= i < |txs[1..]| && fails(txs[1..][i]) == Some(e);
          assert fails(txs[i + 1]) == Some(e);
        }
      }
      forall e | exists i :: 0 <= i < |txs| && fails(txs[i]) == Some(e)
        ensures e in fs
      {
        var i :| 0 <= i < |txs| && fails(txs[i]) == Some(e);
        if i > 0 {
          assert fails(txs[1..][i - 1]) == Some(e);
        }
      }
    }
  }

  /** close() throws exactly when the close of some sub-transaction throws,
      and its primary exception is that of the first one. */
  lemma CloseThrowsIffSomeCloseFailed(txs: seq<SubTx>, fails: SubTx -> Option<Fault>)
    ensures CloseFold(txs, fails).Some? <==> exists i :: 0 <= i < |txs| && fails(txs[i]).Some?
    ensures CloseFold(txs, fails).Some? ==>
              Some(CloseFold(txs, fails).value.Primary()) == fails(txs[FirstFailure(txs, fails)])
  {
    CloseAggregatesFailures(txs, fails);
    FailuresAreTheFailedCloses(txs, fails);
    var k := FirstFailure(txs, fails);
    if exists i :: 0 <= i < |txs| && fails(txs[i]).Some? {
      var i :| 0 <= i < |txs| && fails(txs[i]).Some?;
      assert fails(txs[i]) == Some(fails(txs[i]).value);
    }
  }

  /** The sub-transactions that are request-scoped, in order. */
  function RequestScoped(txs: seq<SubTx>, isScoped: SubTx -> bool): seq<SubTx>
    decreases |txs|
  {
    if txs == [] then []
    else (if isScoped(txs[0]) then [txs[0]] else []) + RequestScoped(txs[1..], isScoped)
  }

  /** The request-scoped ones among txs[i..] are txs[i], if it is one, then
      those among txs[i + 1..]. */
  lemma RequestScopedStep(txs: seq<SubTx>, i: nat, isScoped: SubTx -> bool)
    requires i < |txs|
    ensures isScoped(txs[i]) ==> RequestScoped(txs[i..], isScoped) == [txs[i]] + RequestScoped(txs[i + 1..], isScoped)
    ensures !isScoped(txs[i]) ==> RequestScoped(txs[i..], isScoped) == RequestScoped(txs[i + 1..], isScoped)
  {
    assert txs[i..][1..] == txs[i + 1..];
  }

  /** The pass over the request-scoped ones among txs[i..] in terms of the
      pass over those among txs[i + 1..]. */
  lemma ScopedPassStep(txs: seq<SubTx>, i: nat, isScoped: SubTx -> bool, phase: Phase,
                       fails: SubTx -> Option<Fault>)
    requires i < |txs|
    ensures var here := Pass(RequestScoped(txs[i..], isScoped), phase, fails);
            var next := Pass(RequestScoped(txs[i + 1..], isScoped), phase, fails);
      && (!isScoped(txs[i]) ==> here == next)
      && (isScoped(txs[i]) && fails(txs[i]).Some? ==> here == Traced(fails(txs[i]), [Ran(txs[i], phase)]))
      && (isScoped(txs[i]) && fails(txs[i]).None? ==> here == Traced(next.value, [Ran(txs[i], phase)] + next.calls))
  {
    RequestScopedStep(txs, i, isScoped);
    if isScoped(txs[i]) {
      PassCons(txs[i], RequestScoped(txs[i + 1..], isScoped), phase, fails);
    }
  }

  /** setRequestScope reaches exactly the request-scoped sub-transactions. */
  lemma {:induction false} RequestScopedMembers(txs: seq<SubTx>, isScoped: SubTx -> bool)
    ensures |RequestScoped(txs, isScoped)| <= |txs|
    ensures forall tx :: tx in RequestScoped(txs, isScoped) <==> tx in txs && isScoped(tx)
    decreases |txs|
  {
    if txs != [] {
      RequestScopedMembers(txs[1..], isScoped);
      assert txs == [txs[0]] + txs[1..];
    }
  }
}
