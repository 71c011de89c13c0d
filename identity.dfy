/**
 * accessUser: the caller's opaque user is wrapped in a User and threaded
 * through the sub-transaction of every registered store, in registration
 * order; each store's answer is the input of the next.
 */
module Identity {
  import opened Collaborators
  import opened LinkedMaps

  /** The fold over `stores` starting from `user`, with `access(tx, o)` the
      scripted answer of tx.accessUser(o). A store with no sub-transaction in
      `m` is a null dereference; a throwing sub-transaction ends the fold. */
  function AccessFold(stores: seq<Store>, m: LinkedMap, access: (SubTx, Opaque) -> Result<User, Fault>,
                      user: User): Traced<Result<User, Exception>>
    decreases |stores|
  {
    if stores == [] then Traced(Ok(user), [])
    else match m.Get(stores[0])
      case None => Traced(Err(NullPointer), [])
      case Some(tx) =>
        var call := AccessedUser(tx, user.opaqueUser);
        match access(tx, user.opaqueUser)
        case Err(f) => Traced(Err(Thrown(f)), [call])
        case Ok(next) =>
          var rest := AccessFold(stores[1..], m, access, next);
          Traced(rest.value, [call] + rest.calls)
  }

  /** One step of the fold, at store i. */
  lemma AccessStep(stores: seq<Store>, i: nat, m: LinkedMap, access: (SubTx, Opaque) -> Result<User, Fault>,
                   user: User)
    requires i < |stores|
    ensures AccessFold(stores[i..], m, access, user) ==
              match m.Get(stores[i])
              case None => Traced(Err(NullPointer), [])
              case Some(tx) =>
                match access(tx, user.opaqueUser)
                case Err(f) => Traced(Err(Thrown(f)), [AccessedUser(tx, user.opaqueUser)])
                case Ok(next) =>
                  Traced(AccessFold(stores[i + 1..], m, access, next).value,
                         [AccessedUser(tx, user.opaqueUser)] + AccessFold(stores[i + 1..], m, access, next).calls)
  {
    assert stores[i..][1..] == stores[i + 1..];
  }

  /** accessUser is a left fold: call i goes to the sub-transaction of the
      i-th store; the first receives the caller's opaque user, every later one
      the opaque user of the previous answer; a successful fold visits every
      store and returns the last answer, or the wrapped caller's user when
      there is no store. */
  lemma {:induction false} AccessIsLeftFold(stores: seq<Store>, m: LinkedMap,
                                            access: (SubTx, Opaque) -> Result<User, Fault>, user: User)
    ensures var t := AccessFold(stores, m, access, user);
      && |t.calls| <= |stores|
      && (forall i :: 0 <= i < |t.calls| ==> t.calls[i].AccessedUser? && m.Get(stores[i]) == Some(t.calls[i].tx))
      && (t.calls != [] ==> t.calls[0].opaqueUser == user.opaqueUser)
      && (forall i :: 0 <= i < |t.calls| - 1 ==>
            access(t.calls[i].tx, t.calls[i].opaqueUser) == Ok(User(t.calls[i + 1].opaqueUser)))
      && (t.value.Ok? ==> |t.calls| == |stores|)
      && (t.value.Ok? && t.calls == [] ==> t.value.value == user)
      && (t.value.Ok? && t.calls != [] ==>
            access(t.calls[|t.calls| - 1].tx, t.calls[|t.calls| - 1].opaqueUser) == Ok(t.value.value))
    decreases |stores|
  {
    if stores != [] && m.Get(stores[0]).Some? {
      var tx := m.Get(stores[0]).value;
      var answer := access(tx, user.opaqueUser);
      if answer.Ok? {
        AccessIsLeftFold(stores[1..], m, access, answer.value);
        var rest := AccessFold(stores[1..], m, access, answer.value);
        var t := AccessFold(stores, m, access, user);
        assert t.calls == [AccessedUser(tx, user.opaqueUser)] + rest.calls;
        forall i | 0 <= i < |t.calls| - 1
          ensures access(t.calls[i].tx, t.calls[i].opaqueUser) == Ok(User(t.calls[i + 1].opaqueUser))
        {
          if i > 0 {
            assert t.calls[i] == rest.calls[i - 1] && t.calls[i + 1] == rest.calls[i];
          }
        }
        forall i | 0 <= i < |t.calls|
          ensures t.calls[i].AccessedUser? && m.Get(stores[i]) == Some(t.calls[i].tx)
        {
          if i > 0 {
            assert t.calls[i] == rest.calls[i - 1] && stores[i] == stores[1..][i - 1];
          }
        }
      }
    }
  }

  /** Once every store has a sub-transaction (as after construction) the fold
      never dereferences null: it fails only when a sub-transaction throws,
      and then with that exception, raised by the last call made. */
  lemma {:induction false} AccessFailsOnlyByThrowing(stores: seq<Store>, m: LinkedMap,
                                                     access: (SubTx, Opaque) -> Result<User, Fault>, user: User)
    requires forall s :: s in stores ==> s in m.table
    ensures var t := AccessFold(stores, m, access, user);
      && t.value != Err(NullPointer)
      && (t.value.Err? ==>
            && t.value.error.Thrown?
            && t.calls != []
            && t.calls[|t.calls| - 1].AccessedUser?
            && access(t.calls[|t.calls| - 1].tx, t.calls[|t.calls| - 1].opaqueUser) == Err(t.value.error.fault))
    decreases |stores|
  {
    if stores != [] {
      var tx := m.Get(stores[0]).value;
      var answer := access(tx, user.opaqueUser);
      if answer.Ok? {
        assert forall s :: s in stores[1..] ==> s in stores;
        AccessFailsOnlyByThrowing(stores[1..], m, access, answer.value);
      }
    }
  }
}
