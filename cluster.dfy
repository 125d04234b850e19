/**
 The reconciler and the master selector of couchbase.go: the node lifecycle
 `""` -> `new` -> `clustered` driven from the nodes' announcements, and the
 TTL-based election of one master record.
 */
module Cluster {
  import opened Wrappers
  import opened GoMaps

  // Lifecycle values. `relax` and `deleted` are declared by the source but
  // never produced by any transition.
  const StateEmpty: string := ""
  const StateNew: string := "new"
  const StateRelax: string := "relax"
  const StateClustered: string := "clustered"
  const StateDeleted: string := "deleted"

  /** One node incarnation; `ttl` is an absolute deadline in nanoseconds. */
  datatype NodeState = NodeState(
    ipAddress: string,
    sessionID: string,
    master: bool,
    state: string,
    desiredState: string,
    ttl: int)

  /** Go's zero value of NodeState. */
  const Zero: NodeState := NodeState("", "", false, "", "", 0)

  /** Go's `m[k]`: the zero value when `k` is not a key. */
  function Get(m: map<string, NodeState>, k: string): NodeState
  {
    if k in m then m[k] else Zero
  }

  function Prior(states: map<string, NodeState>, k: string): Option<NodeState>
  {
    if k in states then Some(states[k]) else None
  }

  // ---------------------------------------------------------------------
  // Reconciler (ScheduleCore)
  // ---------------------------------------------------------------------

  /** The record the reconciler leaves under a key whose announcement is
      `announcement` and whose persisted record was `prior`. */
  function Reconciled(announcement: NodeState, prior: Option<NodeState>, now: int): NodeState
  {
    match prior
    case None =>
      NodeState(announcement.ipAddress, announcement.sessionID, false, StateNew, StateNew, now)
    case Some(s) =>
      if s.sessionID != announcement.sessionID then
        s.(desiredState := StateNew, state := StateNew, sessionID := announcement.sessionID)
      else if s.desiredState == StateNew && announcement.state == StateNew then
        s.(desiredState := StateClustered)
      else if s.desiredState == StateClustered && announcement.state == StateClustered then
        s.(state := StateClustered)
      else
        s
  }

  /** The persisted states after one reconciliation. */
  function Reconcile(announcements: map<string, NodeState>, states: map<string, NodeState>, now: int)
    : map<string, NodeState>
  {
    map k | k in announcements :: Reconciled(announcements[k], Prior(states, k), now)
  }

  /** couchbase.go's ScheduleCore: updates the caller's map in place, one
      announced key at a time, then deletes every key nobody announces. */
  method ScheduleCore(announcements: map<string, NodeState>, currentStates: map<string, NodeState>, now: int)
    returns (result: map<string, NodeState>)
    ensures result == Reconcile(announcements, currentStates, now)
  {
    result := currentStates;
    var pending := announcements.Keys;
    while pending != {}
      invariant pending <= announcements.Keys
      invariant forall k :: k in announcements && k !in pending ==>
        k in result && result[k] == Reconciled(announcements[k], Prior(currentStates, k), now)
      invariant forall k :: k in pending || k !in announcements ==>
        Prior(result, k) == Prior(currentStates, k)
      decreases pending
    {
      var key :| key in pending;
      var announcement := announcements[key];
      if key in result {
        var state := result[key];
        if state.sessionID == announcement.sessionID {
          if state.desiredState == StateNew && announcement.state == StateNew {
            state := state.(desiredState := StateClustered);
            result := result[key := state];
          }
          if state.desiredState == StateClustered && announcement.state == StateClustered {
            state := state.(state := StateClustered, desiredState := StateClustered);
            result := result[key := state];
          }
        } else {
          state := state.(desiredState := StateNew, state := StateNew, sessionID := announcement.sessionID);
          result := result[key := state];
        }
      } else {
        result := result[key := NodeState(announcement.ipAddress, announcement.sessionID, false, StateNew, StateNew, now)];
      }
      pending := pending - {key};
    }

    var visiting := result.Keys;
    while visiting != {}
      invariant forall k :: k in announcements ==>
        k in result && result[k] == Reconciled(announcements[k], Prior(currentStates, k), now)
      invariant forall k :: k in result ==> k in announcements || k in visiting
      decreases visiting
    {
      var key :| key in visiting;
      if key !in announcements {
        result := result - {key};
      }
      visiting := visiting - {key};
    }
  }

  /** Every announced key is present afterwards and every other key is gone. */
  lemma ReconcileKeepsExactlyAnnounced(announcements: map<string, NodeState>, states: map<string, NodeState>, now: int)
    ensures Reconcile(announcements, states, now).Keys == announcements.Keys
    ensures forall k :: k in states && k !in announcements ==> k !in Reconcile(announcements, states, now)
  {
  }

  /** A node seen for the first time gets a fresh record: not master, both
      states `new`, the clock's time as TTL. */
  lemma ReconcileFirstContact(announcements: map<string, NodeState>, states: map<string, NodeState>, now: int, k: string)
    requires k in announcements && k !in states
    ensures Reconcile(announcements, states, now)[k] ==
      NodeState(announcements[k].ipAddress, announcements[k].sessionID, false, StateNew, StateNew, now)
  {
  }

  /** Same session, desired `new`, node confirms `new`: desired advances to
      `clustered` and nothing else changes. */
  lemma ReconcileAdvances(announcements: map<string, NodeState>, states: map<string, NodeState>, now: int, k: string)
    requires k in announcements && k in states
    requires states[k].sessionID == announcements[k].sessionID
    requires states[k].desiredState == StateNew && announcements[k].state == StateNew
    ensures Reconcile(announcements, states, now)[k] == states[k].(desiredState := StateClustered)
  {
  }

  /** Same session, desired `clustered`, node confirms `clustered`: the
      record's state becomes `clustered`; a same-session record matching
      neither rule is left as it was. */
  lemma ReconcileConverges(announcements: map<string, NodeState>, states: map<string, NodeState>, now: int, k: string)
    requires k in announcements && k in states
    requires states[k].sessionID == announcements[k].sessionID
    ensures states[k].desiredState == StateClustered && announcements[k].state == StateClustered ==>
      Reconcile(announcements, states, now)[k] == states[k].(state := StateClustered)
    ensures !(states[k].desiredState == StateNew && announcements[k].state == StateNew) &&
            !(states[k].desiredState == StateClustered && announcements[k].state == StateClustered) ==>
      Reconcile(announcements, states, now)[k] == states[k]
  {
  }

  /** A restarted node (new session under a known key) is reset to `new`
      and takes the new session; its address, master flag and TTL stay. */
  lemma ReconcileResetsRestartedNode(announcements: map<string, NodeState>, states: map<string, NodeState>, now: int, k: string)
    requires k in announcements && k in states
    requires states[k].sessionID != announcements[k].sessionID
    ensures var r := Reconcile(announcements, states, now)[k];
      && r.state == StateNew && r.desiredState == StateNew
      && r.sessionID == announcements[k].sessionID
      && r.ipAddress == states[k].ipAddress && r.master == states[k].master && r.ttl == states[k].ttl
  {
  }

  /** The lifecycle only moves forward while the session is unchanged: the
      desired state stays or goes from `new` to `clustered`, never back. */
  lemma ReconcileIsMonotonic(announcements: map<string, NodeState>, states: map<string, NodeState>, now: int, k: string)
    requires k in announcements && k in states
    requires states[k].sessionID == announcements[k].sessionID
    ensures var r := Reconcile(announcements, states, now)[k];
      r.desiredState == states[k].desiredState ||
      (states[k].desiredState == StateNew && r.desiredState == StateClustered)
    ensures states[k].desiredState == StateClustered ==>
      Reconcile(announcements, states, now)[k].desiredState == StateClustered
  {
  }

  /** Reconciling again with the same announcements changes nothing, provided
      no key needs its first forward step: every announced key already had a
      same-session record, or its announcement does not report `new`. */
  lemma {:induction false} ReconcileIdempotent(announcements: map<string, NodeState>, states: map<string, NodeState>, now: int, later: int)
    requires forall k :: k in announcements ==>
      announcements[k].state != StateNew ||
      (k in states && states[k].sessionID == announcements[k].sessionID)
    ensures Reconcile(announcements, Reconcile(announcements, states, now), later) ==
            Reconcile(announcements, states, now)
  {
    var once := Reconcile(announcements, states, now);
    forall k | k in announcements
      ensures Reconciled(announcements[k], Prior(once, k), later) == once[k]
    {
      assert Prior(once, k) == Some(once[k]);
    }
  }

  /** Without that proviso the reconciler is not idempotent: a node first
      seen reporting `new` is created with desired `new` and advanced to
      desired `clustered` by the next call. */
  lemma ReconcileFirstContactNotIdempotent()
    ensures var a := map["s1" := NodeState("10.0.0.1", "s1", false, StateNew, "", 0)];
      Reconcile(a, Reconcile(a, map[], 7), 7) != Reconcile(a, map[], 7)
  {
    var a := map["s1" := NodeState("10.0.0.1", "s1", false, StateNew, "", 0)];
    assert Reconcile(a, map[], 7)["s1"].desiredState == StateNew;
    assert Reconcile(a, Reconcile(a, map[], 7), 7)["s1"].desiredState == StateClustered;
  }

  /** The proviso of ReconcileIdempotent is also necessary: an announced key
      that reports `new` and has no same-session record (first contact or a
      restart) gets desired `new`, which the next call advances. */
  lemma ReconcileNotIdempotentWithoutProviso(announcements: map<string, NodeState>, states: map<string, NodeState>,
                                             now: int, later: int, k: string)
    requires k in announcements && announcements[k].state == StateNew
    requires !(k in states && states[k].sessionID == announcements[k].sessionID)
    ensures Reconcile(announcements, states, now)[k].desiredState == StateNew
    ensures Reconcile(announcements, Reconcile(announcements, states, now), later)[k].desiredState == StateClustered
    ensures Reconcile(announcements, Reconcile(announcements, states, now), later) != Reconcile(announcements, states, now)
  {
    var once := Reconcile(announcements, states, now);
    assert once[k].sessionID == announcements[k].sessionID;
    assert Prior(once, k) == Some(once[k]);
  }

  /** The reconciler never makes a master: every master flag in its result
      was already set on the same key. */
  lemma ReconcileNeverPromotes(announcements: map<string, NodeState>, states: map<string, NodeState>, now: int)
    ensures forall k :: k in Reconcile(announcements, states, now) && Reconcile(announcements, states, now)[k].master ==>
      k in states && states[k].master && Reconcile(announcements, states, now)[k].ttl == states[k].ttl
  {
  }

  /** Announcements are published under their session ID; records then stay
      keyed by their session ID through reconciliation. */
  predicate KeyedBySession(m: map<string, NodeState>)
  {
    forall k :: k in m ==> m[k].sessionID == k
  }

  lemma ReconcileKeyedBySession(announcements: map<string, NodeState>, states: map<string, NodeState>, now: int)
    requires KeyedBySession(announcements)
    ensures KeyedBySession(Reconcile(announcements, states, now))
  {
  }

  // ---------------------------------------------------------------------
  // Master selector (SelectMaster)
  // ---------------------------------------------------------------------

  /** A master whose deadline has not passed (expiry is `now > ttl`). */
  predicate IsLiveMaster(s: NodeState, now: int)
  {
    s.master && now <= s.ttl
  }

  predicate HasLiveMaster(states: map<string, NodeState>, now: int)
  {
    exists k :: k in states && IsLiveMaster(states[k], now)
  }

  /** The `lastKey` of the scan: the last non-master key in `order`, or `""`. */
  function LastNonMaster(states: map<string, NodeState>, order: seq<string>): (r: string)
    ensures r == "" || (r in states && !states[r].master)
    ensures (exists i :: 0 <= i < |order| && order[i] in states && !states[order[i]].master) ==>
      r in states && !states[r].master
  {
    if order == [] then ""
    else
      var key := order[|order| - 1];
      if key in states && !states[key].master then key
      else
        var r := LastNonMaster(states, order[..|order| - 1]);
        assert forall i :: 0 <= i < |order| - 1 ==> order[..|order| - 1][i] == order[i];
        r
  }

  /** The `oldMasterKey` of the scan: the last expired master in `order`, or `""`. */
  function LastExpiredMaster(states: map<string, NodeState>, order: seq<string>, now: int): (r: string)
    ensures r == "" || (r in states && states[r].master && now > states[r].ttl)
    ensures (exists i :: 0 <= i < |order| && order[i] in states && states[order[i]].master && now > states[order[i]].ttl) ==>
      r in states && states[r].master && now > states[r].ttl
  {
    if order == [] then ""
    else
      var key := order[|order| - 1];
      if key in states && states[key].master && now > states[key].ttl then key
      else
        var r := LastExpiredMaster(states, order[..|order| - 1], now);
        assert forall i :: 0 <= i < |order| - 1 ==> order[..|order| - 1][i] == order[i];
        r
  }

  /** The states after SelectMaster visits the keys in `order`. */
  function Elected(states: map<string, NodeState>, now: int, order: seq<string>): map<string, NodeState>
  {
    if |states| == 0 || HasLiveMaster(states, now) then states
    else
      var lastKey := LastNonMaster(states, order);
      var oldMasterKey := LastExpiredMaster(states, order, now);
      var promoted := states[lastKey := Get(states, lastKey).(master := true)];
      if oldMasterKey != "" then promoted[oldMasterKey := Get(promoted, oldMasterKey).(master := false)]
      else promoted
  }

  /** couchbase.go's SelectMaster, visiting the keys in `order`. */
  method SelectMaster(currentStates: map<string, NodeState>, now: int, order: seq<string>)
    returns (result: map<string, NodeState>)
    requires IsIterationOrder(order, currentStates.Keys)
    ensures result == Elected(currentStates, now, order)
  {
    if |currentStates| == 0 {
      return currentStates;
    }
    var oldMasterKey := "";
    var lastKey := "";
    var i := 0;
    while i < |order|
      invariant 0 <= i <= |order|
      invariant lastKey == LastNonMaster(currentStates, order[..i])
      invariant oldMasterKey == LastExpiredMaster(currentStates, order[..i], now)
      invariant forall j :: 0 <= j < i && order[j] in currentStates ==> !IsLiveMaster(currentStates[order[j]], now)
    {
      var key := order[i];
      assert order[..i + 1][..i] == order[..i];
      if key in currentStates {
        var state := currentStates[key];
        if state.master {
          if now > state.ttl {
            oldMasterKey := key;
          } else {
            assert IsLiveMaster(currentStates[key], now);
            return currentStates;
          }
        } else {
          lastKey := key;
        }
      }
      i := i + 1;
    }
    assert order[..i] == order;
    assert !HasLiveMaster(currentStates, now);

    var state := Get(currentStates, lastKey);
    state := state.(master := true);
    result := currentStates[lastKey := state];

    if oldMasterKey != "" {
      state := Get(result, oldMasterKey);
      state := state.(master := false);
      result := result[oldMasterKey := state];
    }
  }

  /** A live incumbent keeps the role: the map comes back unchanged, as it
      does when it is empty. */
  lemma ElectedKeepsIncumbent(states: map<string, NodeState>, now: int, order: seq<string>, k: string)
    requires k in states && states[k].master && now <= states[k].ttl
    ensures Elected(states, now, order) == states
    ensures Elected(map[], now, order) == map[]
  {
    assert IsLiveMaster(states[k], now);
  }

  /** Failover: with no live master, the last non-master seen is promoted
      and the last expired master seen is demoted; only master flags change,
      except that key `""` is written when no non-master exists. */
  lemma ElectedFailsOver(states: map<string, NodeState>, now: int, order: seq<string>)
    requires IsIterationOrder(order, states.Keys)
    requires |states| > 0 && !HasLiveMaster(states, now)
    ensures var r := Elected(states, now, order);
      var lastKey := LastNonMaster(states, order);
      var oldMasterKey := LastExpiredMaster(states, order, now);
      && r.Keys == states.Keys + {lastKey}
      && r[lastKey] == Get(states, lastKey).(master := true)
      && (oldMasterKey != "" ==> r[oldMasterKey] == states[oldMasterKey].(master := false))
      && (forall k :: k in states && k != lastKey && k != oldMasterKey ==> r[k] == states[k])
      && (forall k :: k in states ==> r[k] == states[k].(master := r[k].master))
  {
    var lastKey := LastNonMaster(states, order);
    var oldMasterKey := LastExpiredMaster(states, order, now);
    assert oldMasterKey != "" ==> oldMasterKey != lastKey;
  }

  /** A non-master is always preferred: if one exists it is promoted, and
      the expired master (if any) is demoted. */
  lemma ElectedPromotesNonMaster(states: map<string, NodeState>, now: int, order: seq<string>, candidate: string)
    requires IsIterationOrder(order, states.Keys)
    requires !HasLiveMaster(states, now)
    requires candidate in states && !states[candidate].master
    ensures var r := Elected(states, now, order);
      var lastKey := LastNonMaster(states, order);
      && lastKey in states && !states[lastKey].master
      && r.Keys == states.Keys && r[lastKey].master
      && var oldMasterKey := LastExpiredMaster(states, order, now);
         oldMasterKey != "" ==> oldMasterKey in states && states[oldMasterKey].master && !r[oldMasterKey].master
  {
    var i :| 0 <= i < |order| && order[i] == candidate;
    var lastKey := LastNonMaster(states, order);
    assert lastKey in states && !states[lastKey].master;
  }

  /** When every record is an expired master, no non-master exists, so
      `lastKey` stays `""` and a zero record marked master is written under
      key `""`, while the last expired master seen is demoted. */
  lemma ElectedAllExpired(states: map<string, NodeState>, now: int, order: seq<string>)
    requires IsIterationOrder(order, states.Keys)
    requires |states| > 0 && "" !in states
    requires forall k :: k in states ==> states[k].master && now > states[k].ttl
    ensures var r := Elected(states, now, order);
      && LastNonMaster(states, order) == ""
      && r.Keys == states.Keys + {""}
      && r[""] == Zero.(master := true)
      && var demoted := LastExpiredMaster(states, order, now);
         demoted in states && r[demoted] == states[demoted].(master := false)
  {
    var k :| k in states;
    var i :| 0 <= i < |order| && order[i] == k;
    assert !IsLiveMaster(states[k], now);
    assert !HasLiveMaster(states, now);
  }

  predicate AtMostOneMaster(m: map<string, NodeState>)
  {
    forall k, k' :: k in m && k' in m && m[k].master && m[k'].master ==> k == k'
  }

  predicate ExactlyOneMaster(m: map<string, NodeState>)
  {
    AtMostOneMaster(m) && exists k :: k in m && m[k].master
  }

  /** Starting from no master at all, exactly one existing record becomes
      master and nothing else changes. */
  lemma ElectedFromNoMaster(states: map<string, NodeState>, now: int, order: seq<string>)
    requires IsIterationOrder(order, states.Keys)
    requires |states| > 0
    requires forall k :: k in states ==> !states[k].master
    ensures exists k :: k in states && Elected(states, now, order) == states[k := states[k].(master := true)]
    ensures ExactlyOneMaster(Elected(states, now, order))
  {
    var k0 :| k0 in states;
    var i :| 0 <= i < |order| && order[i] == k0;
    var lastKey := LastNonMaster(states, order);
    assert lastKey in states;
    var r := Elected(states, now, order);
    assert r == states[lastKey := states[lastKey].(master := true)];
    assert r[lastKey].master;
  }

  /** The selector keeps "one master" as an invariant: from at most one
      master flag (and no record under the empty key) it always ends with
      exactly one. */
  lemma ElectedKeepsSingleMaster(states: map<string, NodeState>, now: int, order: seq<string>)
    requires IsIterationOrder(order, states.Keys)
    requires |states| > 0 && "" !in states
    requires AtMostOneMaster(states)
    ensures ExactlyOneMaster(Elected(states, now, order))
  {
    var r := Elected(states, now, order);
    if HasLiveMaster(states, now) {
      var k :| k in states && IsLiveMaster(states[k], now);
      assert r == states && r[k].master;
    } else if forall k :: k in states ==> !states[k].master {
      ElectedFromNoMaster(states, now, order);
    } else {
      var m :| m in states && states[m].master;
      var i :| 0 <= i < |order| && order[i] == m;
      var oldMasterKey := LastExpiredMaster(states, order, now);
      assert oldMasterKey == m;
      var lastKey := LastNonMaster(states, order);
      assert lastKey != m;
      assert r[m] == states[m].(master := false);
      assert r[lastKey].master;
    }
  }

  /** Without the at-most-one proviso a failover can leave two masters:
      only the last expired master seen is demoted, so with expired masters
      `a` and `b` and a non-master `c` visited in that order, `b` is demoted,
      `c` promoted, and `a` stays master. */
  lemma ElectedCanLeaveTwoMasters()
    ensures var states := map[
        "a" := NodeState("10.0.0.1", "a", true, StateClustered, StateClustered, 0),
        "b" := NodeState("10.0.0.2", "b", true, StateClustered, StateClustered, 0),
        "c" := NodeState("10.0.0.3", "c", false, StateNew, StateNew, 0)];
      var r := Elected(states, 1, ["a", "b", "c"]);
      r.Keys == states.Keys && r["a"].master && !r["b"].master && r["c"].master && !AtMostOneMaster(r)
  {
    var states := map[
        "a" := NodeState("10.0.0.1", "a", true, StateClustered, StateClustered, 0),
        "b" := NodeState("10.0.0.2", "b", true, StateClustered, StateClustered, 0),
        "c" := NodeState("10.0.0.3", "c", false, StateNew, StateNew, 0)];
    assert !IsLiveMaster(states["a"], 1) && !IsLiveMaster(states["b"], 1) && !IsLiveMaster(states["c"], 1);
    assert !HasLiveMaster(states, 1);
    assert LastNonMaster(states, ["a", "b", "c"]) == "c";
    assert LastExpiredMaster(states, ["a", "b", "c"], 1) == "b";
  }

  /** The phantom record written under `""` carries session `""`, so the
      selector keeps records keyed by their session ID. */
  lemma ElectedKeyedBySession(states: map<string, NodeState>, now: int, order: seq<string>)
    requires KeyedBySession(states)
    ensures KeyedBySession(Elected(states, now, order))
  {
  }
}
