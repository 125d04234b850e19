/**
 The lease lock of lock.go, built from the store's Create and
 CompareAndSwap, and released through CompareAndDelete. One key
 (`namespace`) holds the identifier of the process that owns the lock.
 */
module Lock {
  import opened Wrappers
  import opened EtcdStore

  /** AcquireLock's and ReleaseLock's `error`: nil, ErrLockInUse, or a store
      error returned as it came. */
  datatype Outcome = Ok | LockInUse | Failed(err: Error)

  /** How each store call of one operation fares in transit: None when it
      reaches the store, Some(message) when the client reports a failure. */
  datatype Network = Network(create: Option<string>, swap: Option<string>, remove: Option<string>)

  const Reliable: Network := Network(None, None, None)

  datatype LockResult = LockResult(outcome: Outcome, entries: map<string, Entry>)

  /** The lease ReleaseLock re-acquires the lock with before deleting it. */
  const ReleaseLeaseSeconds: nat := 10

  /** How AcquireLock reads the reply to its Create: an outcome to return
      at once, or None to go on to the compare-and-swap (no error, or the
      node-exists error 105). */
  function AfterCreate(err: Option<Error>): Option<Outcome>
  {
    if err.Some? && err.value != EtcdError(ErrorNodeExist) then Some(Failed(err.value)) else None
  }

  /** How AcquireLock reads the reply to its compare-and-swap: compare-failed
      (101) is ErrLockInUse, any other error is returned as it came. */
  function AfterSwap(err: Option<Error>): Outcome
  {
    if err.None? then Ok
    else if err.value == EtcdError(ErrorCompareFailed) then LockInUse
    else Failed(err.value)
  }

  /** AcquireLock's effect on the store's contents. */
  function Acquire(entries: map<string, Entry>, identifier: string, namespace: string, durationInSeconds: nat,
                   now: int, net: Network): LockResult
  {
    var created := CreateReply(entries, namespace, identifier, durationInSeconds, now, net.create);
    var early := AfterCreate(created.err);
    if early.Some? then LockResult(early.value, created.entries)
    else
      var swapped := SwapReply(created.entries, namespace, identifier, durationInSeconds, identifier, now, net.swap);
      LockResult(AfterSwap(swapped.err), swapped.entries)
  }

  /** ReleaseLock's effect on the store's contents. */
  function Release(entries: map<string, Entry>, identifier: string, namespace: string, now: int, net: Network)
    : LockResult
  {
    var acquired := Acquire(entries, identifier, namespace, ReleaseLeaseSeconds, now, net);
    if acquired.outcome != Ok then acquired
    else
      var deleted := DeleteReply(acquired.entries, namespace, identifier, net.remove);
      LockResult(if deleted.err.None? then Ok else Failed(deleted.err.value), deleted.entries)
  }

  /** lock.go's AcquireLock against the shared store. */
  method AcquireLock(store: Store, identifier: string, namespace: string, durationInSeconds: nat, now: int, net: Network)
    returns (outcome: Outcome)
    modifies store
    ensures LockResult(outcome, store.entries) == Acquire(old(store.entries), identifier, namespace, durationInSeconds, now, net)
  {
    var err := store.Create(namespace, identifier, durationInSeconds, now, net.create);
    if err.Some? {
      if err.value.EtcdError? && err.value.code == ErrorNodeExist {
        // the key exists: fall through to the compare-and-swap
      } else {
        return Failed(err.value);
      }
    }

    err := store.CompareAndSwap(namespace, identifier, durationInSeconds, identifier, now, net.swap);
    if err.Some? {
      if err.value.EtcdError? && err.value.code == ErrorCompareFailed {
        return LockInUse;
      }
      return Failed(err.value);
    }
    return Ok;
  }

  /** lock.go's ReleaseLock: prove ownership by re-acquiring, then delete
      the key only if it still holds `identifier`. */
  method ReleaseLock(store: Store, identifier: string, namespace: string, now: int, net: Network)
    returns (outcome: Outcome)
    modifies store
    ensures LockResult(outcome, store.entries) == Release(old(store.entries), identifier, namespace, now, net)
  {
    outcome := AcquireLock(store, identifier, namespace, ReleaseLeaseSeconds, now, net);
    if outcome != Ok {
      return;
    }
    var err := store.CompareAndDelete(namespace, identifier, net.remove);
    outcome := if err.None? then Ok else Failed(err.value);
  }

  /** AcquireLock against the store as etcd serves it at time `now`: every
      lease that ended by `now` is gone before the first call arrives. */
  method AcquireLockExpiring(store: Store, identifier: string, namespace: string, durationInSeconds: nat, now: int,
                             net: Network)
    returns (outcome: Outcome)
    modifies store
    ensures LockResult(outcome, store.entries) ==
            Acquire(Unexpired(old(store.entries), now), identifier, namespace, durationInSeconds, now, net)
  {
    store.Expire(now);
    outcome := AcquireLock(store, identifier, namespace, durationInSeconds, now, net);
  }

  // ---------------------------------------------------------------------
  // Properties of one call
  // ---------------------------------------------------------------------

  /** On an absent key the lock is created holding `identifier`. */
  lemma AcquireFreshKey(entries: map<string, Entry>, identifier: string, namespace: string, durationInSeconds: nat, now: int)
    requires namespace !in entries
    ensures Acquire(entries, identifier, namespace, durationInSeconds, now, Reliable) ==
      LockResult(Ok, entries[namespace := Entry(identifier, Deadline(now, durationInSeconds))])
  {
  }

  /** The holder renews: the node-exists error is swallowed and the swap
      renews the lease with the value unchanged. */
  lemma AcquireRenews(entries: map<string, Entry>, identifier: string, namespace: string, durationInSeconds: nat, now: int)
    requires namespace in entries && entries[namespace].value == identifier
    ensures Acquire(entries, identifier, namespace, durationInSeconds, now, Reliable) ==
      LockResult(Ok, entries[namespace := Entry(identifier, Deadline(now, durationInSeconds))])
  {
  }

  /** Held by someone else: the compare fails, the caller sees ErrLockInUse
      and the store is unchanged. */
  lemma AcquireContended(entries: map<string, Entry>, identifier: string, namespace: string, durationInSeconds: nat,
                         now: int, net: Network)
    requires namespace in entries && entries[namespace].value != identifier
    requires net.create.None? && net.swap.None?
    ensures Acquire(entries, identifier, namespace, durationInSeconds, now, net) == LockResult(LockInUse, entries)
  {
  }

  /** Once the holder's lease has ended, the store drops the key and another
      process acquires it as a fresh key; every other live entry is kept. */
  lemma AcquireTakesOverEndedLease(entries: map<string, Entry>, identifier: string, namespace: string,
                                   durationInSeconds: nat, now: int)
    requires namespace in entries && !IsLive(entries[namespace], now)
    ensures var live := Unexpired(entries, now);
      namespace !in live &&
      Acquire(live, identifier, namespace, durationInSeconds, now, Reliable) ==
      LockResult(Ok, live[namespace := Entry(identifier, Deadline(now, durationInSeconds))])
  {
    AcquireFreshKey(Unexpired(entries, now), identifier, namespace, durationInSeconds, now);
  }

  /** While another process's lease is live, the expiring store still
      refuses the lock with ErrLockInUse and changes nothing but ended leases. */
  lemma AcquireContendedWhileLive(entries: map<string, Entry>, identifier: string, namespace: string,
                                  durationInSeconds: nat, now: int, net: Network)
    requires namespace in entries && entries[namespace].value != identifier && IsLive(entries[namespace], now)
    requires net.create.None? && net.swap.None?
    ensures var live := Unexpired(entries, now);
      namespace in live && live[namespace] == entries[namespace] &&
      Acquire(live, identifier, namespace, durationInSeconds, now, net) == LockResult(LockInUse, live)
  {
    AcquireContended(Unexpired(entries, now), identifier, namespace, durationInSeconds, now, net);
  }

  /** Any other failure of Create or of the swap is returned as it came. */
  lemma AcquirePassesOtherErrors(entries: map<string, Entry>, identifier: string, namespace: string,
                                 durationInSeconds: nat, now: int, net: Network)
    ensures net.create.Some? ==>
      Acquire(entries, identifier, namespace, durationInSeconds, now, net) ==
      LockResult(Failed(ClientError(net.create.value)), entries)
    ensures net.create.None? && net.swap.Some? ==>
      Acquire(entries, identifier, namespace, durationInSeconds, now, net).outcome == Failed(ClientError(net.swap.value))
  {
  }

  /** Mutual exclusion: AcquireLock never overwrites a value other than
      `identifier`, and never succeeds while another identifier holds the key. */
  lemma AcquireNeverOverwrites(entries: map<string, Entry>, identifier: string, namespace: string,
                               durationInSeconds: nat, now: int, net: Network)
    requires namespace in entries && entries[namespace].value != identifier
    ensures Acquire(entries, identifier, namespace, durationInSeconds, now, net).entries == entries
    ensures Acquire(entries, identifier, namespace, durationInSeconds, now, net).outcome != Ok
  {
  }

  /** AcquireLock succeeds exactly when the key is free or already ours and
      neither call fails in transit; then the key holds `identifier` with a
      fresh lease. */
  lemma AcquireSucceedsIff(entries: map<string, Entry>, identifier: string, namespace: string,
                           durationInSeconds: nat, now: int, net: Network)
    ensures var r := Acquire(entries, identifier, namespace, durationInSeconds, now, net);
      r.outcome == Ok <==>
        (namespace !in entries || entries[namespace].value == identifier) && net.create.None? && net.swap.None?
    ensures var r := Acquire(entries, identifier, namespace, durationInSeconds, now, net);
      r.outcome == Ok ==> r.entries == entries[namespace := Entry(identifier, Deadline(now, durationInSeconds))]
  {
  }

  /** The holder releases: a 10 s re-acquire, then the guarded delete. */
  lemma ReleaseByHolder(entries: map<string, Entry>, identifier: string, namespace: string, now: int)
    requires namespace in entries && entries[namespace].value == identifier
    ensures Release(entries, identifier, namespace, now, Reliable) == LockResult(Ok, entries - {namespace})
  {
  }

  /** A non-holder's release fails with the acquire's error and deletes
      nothing, whatever the network does. */
  lemma ReleaseByOther(entries: map<string, Entry>, identifier: string, namespace: string, now: int, net: Network)
    requires namespace in entries && entries[namespace].value != identifier
    ensures Release(entries, identifier, namespace, now, net).entries == entries
    ensures Release(entries, identifier, namespace, now, net).outcome ==
      Acquire(entries, identifier, namespace, ReleaseLeaseSeconds, now, net).outcome
    ensures Release(entries, identifier, namespace, now, net).outcome != Ok
    ensures net.create.None? && net.swap.None? ==> Release(entries, identifier, namespace, now, net).outcome == LockInUse
  {
  }

  /** Run on its own, AcquireLock never reports the key-not-found error
      (100): its swap follows a Create that either wrote the key or found
      it. Under interleaving it can (LostKeyRace). */
  lemma AcquireNeverKeyNotFound(entries: map<string, Entry>, identifier: string, namespace: string,
                                durationInSeconds: nat, now: int, net: Network)
    ensures Acquire(entries, identifier, namespace, durationInSeconds, now, net).outcome != Failed(EtcdError(ErrorKeyNotFound))
  {
  }

  // ---------------------------------------------------------------------
  // The lock under concurrency: the store calls of all processes interleave
  // ---------------------------------------------------------------------

  /** One store call on the lock key. A process always passes its own
      identifier, as the value written and as the compared previous value. */
  datatype Call =
    | CreateCall(ttl: nat, fault: Option<string>)
    | SwapCall(ttl: nat, fault: Option<string>)
    | DeleteCall(fault: Option<string>)

  /** A store call made by process `identifier` at time `now`. */
  datatype Request = Request(now: int, identifier: string, call: Call)

  /** The store serves one call; every lease that ended by the call's time
      is gone first. */
  function Serve(entries: map<string, Entry>, namespace: string, r: Request): Reply
  {
    var live := Unexpired(entries, r.now);
    match r.call
    case CreateCall(ttl, fault) => CreateReply(live, namespace, r.identifier, ttl, r.now, fault)
    case SwapCall(ttl, fault) => SwapReply(live, namespace, r.identifier, ttl, r.identifier, r.now, fault)
    case DeleteCall(fault) => DeleteReply(live, namespace, r.identifier, fault)
  }

  /** The replies to a sequence of calls, in the order the store served them,
      and the store's contents after the last. */
  datatype Trace = Trace(errors: seq<Option<Error>>, entries: map<string, Entry>)

  function Serving(entries: map<string, Entry>, namespace: string, requests: seq<Request>): (t: Trace)
    ensures |t.errors| == |requests|
    decreases |requests|
  {
    if requests == [] then Trace([], entries)
    else
      var first := Serve(entries, namespace, requests[0]);
      var rest := Serving(first.entries, namespace, requests[1..]);
      Trace([first.err] + rest.errors, rest.entries)
  }

  /** Mutual exclusion at the granularity of store calls: while the holder's
      lease is live, any interleaving of other processes' Create, swap and
      delete calls leaves the holder's entry exactly as it was, and every
      one of those calls is refused with an error other than key-not-found;
      so no other process's AcquireLock (whose Ok needs a successful swap)
      or ReleaseLock succeeds. */
  lemma {:induction false} LockExcludesOthers(entries: map<string, Entry>, namespace: string, holder: string,
                                              requests: seq<Request>)
    requires namespace in entries && entries[namespace].value == holder
    requires forall i :: 0 <= i < |requests| ==>
      requests[i].identifier != holder && IsLive(entries[namespace], requests[i].now)
    ensures var t := Serving(entries, namespace, requests);
      namespace in t.entries && t.entries[namespace] == entries[namespace]
    ensures var t := Serving(entries, namespace, requests);
      forall i :: 0 <= i < |requests| ==>
        t.errors[i].Some? && t.errors[i].value != EtcdError(ErrorKeyNotFound) && AfterSwap(t.errors[i]) != Ok
    decreases |requests|
  {
    if requests != [] {
      var first := Serve(entries, namespace, requests[0]);
      assert Unexpired(entries, requests[0].now)[namespace] == entries[namespace];
      assert namespace in first.entries && first.entries[namespace] == entries[namespace];
      assert forall i :: 1 <= i < |requests| ==> requests[1..][i - 1] == requests[i];
      LockExcludesOthers(first.entries, namespace, holder, requests[1..]);
    }
  }

  /** The race the atomic view hides: a second process's Create finds the
      key held (105, swallowed), the holder releases it with its
      compare-and-delete, and the second process's swap then finds no key
      (100), which AcquireLock returns as a plain error. */
  lemma LostKeyRace(entries: map<string, Entry>, namespace: string, holder: string, other: string, now: int)
    requires namespace in entries && entries[namespace].value == holder && IsLive(entries[namespace], now)
    requires holder != other
    ensures var t := Serving(entries, namespace,
      [Request(now, other, CreateCall(5, None)), Request(now, holder, DeleteCall(None)),
       Request(now, other, SwapCall(5, None))]);
      && t.errors == [Some(EtcdError(ErrorNodeExist)), None, Some(EtcdError(ErrorKeyNotFound))]
      && AfterCreate(t.errors[0]) == None
      && AfterSwap(t.errors[2]) == Failed(EtcdError(ErrorKeyNotFound))
      && namespace !in t.entries
  {
    var r0 := Request(now, other, CreateCall(5, None));
    var r1 := Request(now, holder, DeleteCall(None));
    var r2 := Request(now, other, SwapCall(5, None));
    assert Unexpired(entries, now)[namespace] == entries[namespace];
    var s1 := Serve(entries, namespace, r0).entries;
    assert s1 == Unexpired(entries, now);
    var s2 := Serve(s1, namespace, r1).entries;
    assert namespace !in s2;
    var s3 := Serve(s2, namespace, r2).entries;
    assert Serving(s2, namespace, [r2]) == Trace([Some(EtcdError(ErrorKeyNotFound))], s3) by {
      assert [r2][1..] == [];
    }
    assert Serving(s1, namespace, [r1, r2]) == Trace([None, Some(EtcdError(ErrorKeyNotFound))], s3) by {
      assert [r1, r2][1..] == [r2];
    }
    assert [r0, r1, r2][1..] == [r1, r2];
  }

  /** Serving two runs of calls one after the other is serving their
      concatenation. */
  lemma {:induction false} ServingAppend(entries: map<string, Entry>, namespace: string, a: seq<Request>, b: seq<Request>)
    ensures var first := Serving(entries, namespace, a);
      var second := Serving(first.entries, namespace, b);
      Serving(entries, namespace, a + b) == Trace(first.errors + second.errors, second.entries)
    decreases |a|
  {
    if a == [] {
      assert a + b == b;
    } else {
      assert (a + b)[0] == a[0];
      assert (a + b)[1..] == a[1..] + b;
      var next := Serve(entries, namespace, a[0]);
      ServingAppend(next.entries, namespace, a[1..], b);
      var rest := Serving(next.entries, namespace, a[1..]);
      var second := Serving(rest.entries, namespace, b);
      assert [next.err] + (rest.errors + second.errors) == ([next.err] + rest.errors) + second.errors;
    }
  }

  /** One uninterrupted AcquireLock of `identifier` at time `now`, as its two
      store calls with a 5-second lease. */
  function AcquireCalls(identifier: string, now: int): seq<Request>
  {
    [Request(now, identifier, CreateCall(5, None)), Request(now, identifier, SwapCall(5, None))]
  }

  /** The replies to one uninterrupted AcquireLock, by what the key holds at
      that time: absent, live and ours, or live and another's. */
  lemma AcquireCallsReplies(entries: map<string, Entry>, namespace: string, identifier: string, now: int)
    requires namespace !in entries || IsLive(entries[namespace], now)
    ensures var t := Serving(entries, namespace, AcquireCalls(identifier, now));
      && (namespace !in entries ==>
            t.errors == [None, None] && namespace in t.entries && t.entries[namespace] == Entry(identifier, Some(now + 5)))
      && (namespace in entries && entries[namespace].value == identifier ==>
            t.errors == [Some(EtcdError(ErrorNodeExist)), None] &&
            namespace in t.entries && t.entries[namespace] == Entry(identifier, Some(now + 5)))
      && (namespace in entries && entries[namespace].value != identifier ==>
            t.errors == [Some(EtcdError(ErrorNodeExist)), Some(EtcdError(ErrorCompareFailed))] &&
            namespace in t.entries && t.entries[namespace] == entries[namespace])
  {
    var rs := AcquireCalls(identifier, now);
    var s1 := Serve(entries, namespace, rs[0]).entries;
    if namespace in entries {
      assert Unexpired(entries, now)[namespace] == entries[namespace];
    }
    if namespace in s1 {
      assert IsLive(s1[namespace], now);
      assert Unexpired(s1, now)[namespace] == s1[namespace];
    }
    var s2 := Serve(s1, namespace, rs[1]).entries;
    assert Serving(s1, namespace, rs[1..]) == Trace([Serve(s1, namespace, rs[1]).err], s2) by {
      assert rs[1..][1..] == [];
    }
  }

  /** The renewal scenario, call by call: a process acquires the free lock
      (Create, swap), renews it within its lease (105 swallowed, swap), and
      a second process is then refused (105, then 101: ErrLockInUse). */
  lemma RenewThenContend(entries: map<string, Entry>, namespace: string, first: string, second: string, t0: int, t1: int)
    requires namespace !in entries && first != second
    requires t0 <= t1 < t0 + 5
    ensures var t := Serving(entries, namespace,
      AcquireCalls(first, t0) + AcquireCalls(first, t1) + AcquireCalls(second, t1));
      && t.errors == [None, None, Some(EtcdError(ErrorNodeExist)), None,
                      Some(EtcdError(ErrorNodeExist)), Some(EtcdError(ErrorCompareFailed))]
      && AfterSwap(t.errors[1]) == Ok && AfterSwap(t.errors[3]) == Ok
      && AfterCreate(t.errors[4]) == None && AfterSwap(t.errors[5]) == LockInUse
      && namespace in t.entries && t.entries[namespace] == Entry(first, Some(t1 + 5))
  {
    var a := AcquireCalls(first, t0);
    var b := AcquireCalls(first, t1);
    var c := AcquireCalls(second, t1);
    AcquireCallsReplies(entries, namespace, first, t0);
    var t1st := Serving(entries, namespace, a);
    AcquireCallsReplies(t1st.entries, namespace, first, t1);
    var t2nd := Serving(t1st.entries, namespace, b);
    AcquireCallsReplies(t2nd.entries, namespace, second, t1);
    var t3rd := Serving(t2nd.entries, namespace, c);
    ServingAppend(entries, namespace, a, b);
    ServingAppend(entries, namespace, a + b, c);
  }
}
