/**
 The scheduling loop of scheduler.go: each tick reconciles, elects, refreshes
 the master's lease and persists the result only when a master exists.
 */
module Scheduler {
  import opened Wrappers
  import opened GoMaps
  import opened Cluster

  /** Go's `(NodeState, error)` result of a master search. */
  datatype Search = Search(node: NodeState, err: Option<string>)

  const NotFound: string := "Not found"

  /** The first master met when visiting the keys in `order`. */
  function FirstMaster(nodes: map<string, NodeState>, order: seq<string>): (r: Search)
    ensures r.err.None? ==> exists i :: 0 <= i < |order| && order[i] in nodes && nodes[order[i]] == r.node && r.node.master
    ensures r.err.Some? <==> forall i :: 0 <= i < |order| && order[i] in nodes ==> !nodes[order[i]].master
    ensures r.err.Some? ==> r == Search(Zero, Some(NotFound))
  {
    if order == [] then Search(Zero, Some(NotFound))
    else if order[0] in nodes && nodes[order[0]].master then Search(nodes[order[0]], None)
    else
      var r := FirstMaster(nodes, order[1..]);
      assert forall i :: 1 <= i < |order| ==> order[1..][i - 1] == order[i];
      r
  }

  /** GetMasterNode: a record marked master whenever the map holds one;
      otherwise the zero record and a "Not found" error. */
  function GetMasterNode(nodes: map<string, NodeState>, order: seq<string>): (r: Search)
    requires IsIterationOrder(order, nodes.Keys)
    ensures r.err.None? ==> r.node.master && exists k :: k in nodes && nodes[k] == r.node
    ensures r.err.Some? <==> forall k :: k in nodes ==> !nodes[k].master
    ensures r.err.Some? ==> r.node == Zero && r.err == Some(NotFound)
  {
    FirstMaster(nodes, order)
  }

  // ---------------------------------------------------------------------
  // One tick of StartScheduler
  // ---------------------------------------------------------------------

  /** What the two etcd reads of Schedule returned. */
  datatype Snapshot = Snapshot(announcements: map<string, NodeState>, states: map<string, NodeState>)

  const NanosPerSecond: int := 1000000000

  /** The master's new deadline: `timeoutInSeconds + 3` seconds from now. */
  function LeaseDeadline(now: int, timeoutInSeconds: int): int
  {
    now + (timeoutInSeconds + 3) * NanosPerSecond
  }

  /** The keys an iteration order must list during one tick: the announced
      keys, and `""`, which the selector may add. */
  function TickKeys(read: Option<Snapshot>): set<string>
  {
    (if read.Some? then read.value.announcements.Keys else {}) + {""}
  }

  /** Schedule's result: None when a read failed. */
  function Scheduled(read: Option<Snapshot>, now: int, order: seq<string>): Option<map<string, NodeState>>
  {
    match read
    case None => None
    case Some(s) => Some(Elected(Reconcile(s.announcements, s.states, now), now, order))
  }

  lemma ElectedKeys(states: map<string, NodeState>, now: int, order: seq<string>)
    ensures Elected(states, now, order).Keys <= states.Keys + {""}
  {
  }

  /** The states a tick persists: None when Schedule failed or no master
      exists; otherwise the scheduled states with the master's record, its
      TTL refreshed, written under the master's session ID. */
  function Persisted(scheduled: Option<map<string, NodeState>>, now: int, timeoutInSeconds: int, order: seq<string>)
    : Option<map<string, NodeState>>
    requires IsIterationOrder(order, if scheduled.Some? then scheduled.value.Keys else {})
  {
    var states := if scheduled.Some? then scheduled.value else map[];
    var master := GetMasterNode(states, order);
    if master.err.None? then
      Some(states[master.node.sessionID := master.node.(ttl := LeaseDeadline(now, timeoutInSeconds))])
    else None
  }

  function TickSaves(read: Option<Snapshot>, now: int, timeoutInSeconds: int, order: seq<string>)
    : Option<map<string, NodeState>>
    requires IsIterationOrder(order, TickKeys(read))
  {
    var scheduled := Scheduled(read, now, order);
    assert scheduled.Some? ==> scheduled.value.Keys <= TickKeys(read) by {
      if read.Some? {
        ElectedKeys(Reconcile(read.value.announcements, read.value.states, now), now, order);
      }
    }
    Persisted(scheduled, now, timeoutInSeconds, order)
  }

  /** couchbase.go's Schedule with its two reads given as `read`. */
  method Schedule(read: Option<Snapshot>, now: int, order: seq<string>) returns (r: Option<map<string, NodeState>>)
    requires read.Some? ==> IsIterationOrder(order, read.value.announcements.Keys)
    ensures r == Scheduled(read, now, order)
  {
    if read.None? {
      return None;
    }
    var currentStates := ScheduleCore(read.value.announcements, read.value.states, now);
    ReconcileKeepsExactlyAnnounced(read.value.announcements, read.value.states, now);
    var selected := SelectMaster(currentStates, now, order);
    return Some(selected);
  }

  /** How the tick's wait ended: the timer fired, or a value arrived on `stop`. */
  datatype Wake = TimedOut | Stopped

  datatype TickResult = TickResult(saved: Option<map<string, NodeState>>, wake: Wake)

  /** One iteration of StartScheduler's loop body. */
  method SchedulerTick(read: Option<Snapshot>, now: int, timeoutInSeconds: int, order: seq<string>, stop: bool)
    returns (r: TickResult)
    requires IsIterationOrder(order, TickKeys(read))
    ensures r.saved == TickSaves(read, now, timeoutInSeconds, order)
    ensures r.wake == if stop then Stopped else TimedOut
  {
    var scheduled := Schedule(read, now, order);
    var currentStates: map<string, NodeState> := map[];  // Go's nil map on error
    if scheduled.Some? {
      currentStates := scheduled.value;
      if read.Some? {
        ElectedKeys(Reconcile(read.value.announcements, read.value.states, now), now, order);
      }
    }
    var master := GetMasterNode(currentStates, order);
    if master.err.None? {
      var refreshed := master.node.(ttl := LeaseDeadline(now, timeoutInSeconds));
      currentStates := currentStates[refreshed.sessionID := refreshed];
    }
    var saved := if master.err.None? then Some(currentStates) else None;
    var wake := if stop then Stopped else TimedOut;
    r := TickResult(saved, wake);
  }

  datatype TickInput = TickInput(read: Option<Snapshot>, now: int, order: seq<string>, stop: bool)

  /** StartScheduler over a finite prefix of its run: every tick is
      processed, whether or not `stop` fired in an earlier one. */
  method RunScheduler(ticks: seq<TickInput>, timeoutInSeconds: int) returns (saves: seq<Option<map<string, NodeState>>>)
    requires forall i :: 0 <= i < |ticks| ==> IsIterationOrder(ticks[i].order, TickKeys(ticks[i].read))
    ensures |saves| == |ticks|
    ensures forall i :: 0 <= i < |ticks| ==>
      saves[i] == TickSaves(ticks[i].read, ticks[i].now, timeoutInSeconds, ticks[i].order)
  {
    saves := [];
    var i := 0;
    while i < |ticks|
      invariant 0 <= i <= |ticks|
      invariant |saves| == i
      invariant forall j :: 0 <= j < i ==>
        saves[j] == TickSaves(ticks[j].read, ticks[j].now, timeoutInSeconds, ticks[j].order)
    {
      var t := ticks[i];
      var result := SchedulerTick(t.read, t.now, timeoutInSeconds, t.order, t.stop);
      saves := saves + [result.saved];
      i := i + 1;
    }
  }

  // ---------------------------------------------------------------------
  // Properties of a tick
  // ---------------------------------------------------------------------

  /** States are saved exactly when Schedule succeeded and produced a master. */
  lemma TickSavesOnlyWithMaster(read: Option<Snapshot>, now: int, timeoutInSeconds: int, order: seq<string>)
    requires IsIterationOrder(order, TickKeys(read))
    ensures read.None? ==> TickSaves(read, now, timeoutInSeconds, order).None?
    ensures read.Some? ==>
      (TickSaves(read, now, timeoutInSeconds, order).Some? <==>
       exists k :: k in Scheduled(read, now, order).value && Scheduled(read, now, order).value[k].master)
  {
  }

  /** A tick with a master writes that master back under its session ID
      with TTL `now + (timeoutInSeconds + 3)` seconds; no other entry changes. */
  lemma PersistedRefreshesMaster(states: map<string, NodeState>, now: int, timeoutInSeconds: int, order: seq<string>)
    requires IsIterationOrder(order, states.Keys)
    requires Persisted(Some(states), now, timeoutInSeconds, order).Some?
    ensures var saved := Persisted(Some(states), now, timeoutInSeconds, order).value;
      exists k :: k in states && states[k].master &&
        var sid := states[k].sessionID;
        && saved.Keys == states.Keys + {sid}
        && saved[sid] == states[k].(ttl := now + (timeoutInSeconds + 3) * 1000000000)
        && forall k' :: k' in states && k' != sid ==> saved[k'] == states[k']
  {
    var master := GetMasterNode(states, order);
    var k :| k in states && states[k] == master.node;
  }

  lemma TickRefreshesMaster(read: Option<Snapshot>, now: int, timeoutInSeconds: int, order: seq<string>)
    requires IsIterationOrder(order, TickKeys(read))
    requires TickSaves(read, now, timeoutInSeconds, order).Some?
    ensures read.Some?
    ensures var states := Scheduled(read, now, order).value;
      var saved := TickSaves(read, now, timeoutInSeconds, order).value;
      exists k :: k in states && states[k].master &&
        var sid := states[k].sessionID;
        && saved.Keys == states.Keys + {sid}
        && saved[sid] == states[k].(ttl := now + (timeoutInSeconds + 3) * 1000000000)
        && forall k' :: k' in states && k' != sid ==> saved[k'] == states[k']
  {
    var states := Scheduled(read, now, order).value;
    ElectedKeys(Reconcile(read.value.announcements, read.value.states, now), now, order);
    PersistedRefreshesMaster(states, now, timeoutInSeconds, order);
  }

  /** Refreshing the one master of a map keyed by session ID overwrites that
      master's own entry, so exactly one master remains. */
  lemma PersistedKeepsSingleMaster(states: map<string, NodeState>, now: int, timeoutInSeconds: int, order: seq<string>)
    requires IsIterationOrder(order, states.Keys)
    requires ExactlyOneMaster(states) && KeyedBySession(states)
    ensures var saved := Persisted(Some(states), now, timeoutInSeconds, order);
      saved.Some? && ExactlyOneMaster(saved.value) && KeyedBySession(saved.value)
  {
    var master := GetMasterNode(states, order);
    var k :| k in states && states[k] == master.node;
    assert master.node.sessionID == k;
    var saved := Persisted(Some(states), now, timeoutInSeconds, order).value;
    assert saved == states[k := states[k].(ttl := LeaseDeadline(now, timeoutInSeconds))];
    assert saved[k].master;
  }

  /** Stickiness: a master refreshed by a tick at time `t` and persisted is
      kept, unchanged, by the next tick's selector at any time up to
      `t + (timeoutInSeconds + 3)` seconds, as long as it is still announced
      and its saved record is still in the store (the store's own 5 s lease
      on saved records is not modelled). */
  lemma {:induction false} MasterStaysMaster(
    announcements: map<string, NodeState>, states: map<string, NodeState>,
    sid: string, t: int, timeoutInSeconds: int, now: int, order: seq<string>)
    requires sid in announcements && sid in states
    requires states[sid].master && states[sid].ttl == LeaseDeadline(t, timeoutInSeconds)
    requires now <= LeaseDeadline(t, timeoutInSeconds)
    ensures Scheduled(Some(Snapshot(announcements, states)), now, order) ==
            Some(Reconcile(announcements, states, now))
    ensures Reconcile(announcements, states, now)[sid] ==
            Reconciled(announcements[sid], Some(states[sid]), now)
    ensures Reconcile(announcements, states, now)[sid].master
  {
    var reconciled := Reconcile(announcements, states, now);
    assert reconciled[sid].master && reconciled[sid].ttl == states[sid].ttl;
    assert IsLiveMaster(reconciled[sid], now);
  }

  /** A tick keeps the single-master invariant: with announcements keyed by
      session ID and at most one persisted master, whatever a tick saves
      holds exactly one master and stays keyed by session ID. */
  lemma {:induction false} TickKeepsSingleMaster(read: Option<Snapshot>, now: int, timeoutInSeconds: int, order: seq<string>)
    requires IsIterationOrder(order, TickKeys(read))
    requires read.Some? ==> KeyedBySession(read.value.announcements) && "" !in read.value.announcements
    requires read.Some? ==> AtMostOneMaster(read.value.states)
    ensures var saved := TickSaves(read, now, timeoutInSeconds, order);
      saved.Some? ==> ExactlyOneMaster(saved.value) && KeyedBySession(saved.value)
    ensures read.Some? && |read.value.announcements| > 0 ==> TickSaves(read, now, timeoutInSeconds, order).Some?
  {
    if read.Some? {
      var a := read.value.announcements;
      var s := read.value.states;
      var reconciled := Reconcile(a, s, now);
      ReconcileKeepsExactlyAnnounced(a, s, now);
      ReconcileNeverPromotes(a, s, now);
      ReconcileKeyedBySession(a, s, now);
      assert AtMostOneMaster(reconciled);
      var elected := Elected(reconciled, now, order);
      ElectedKeys(reconciled, now, order);
      ElectedKeyedBySession(reconciled, now, order);
      if |a| > 0 {
        ElectedKeepsSingleMaster(reconciled, now, order);
        PersistedKeepsSingleMaster(elected, now, timeoutInSeconds, order);
      } else {
        assert elected == map[];
      }
    }
  }
}
