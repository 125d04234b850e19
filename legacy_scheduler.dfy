/**
 The older standalone scheduler of couchbase-scheduler/main.go: new nodes go
 straight to desired `clustered`, a known session is left alone, and the
 master is kept by EnsureMaster without any lease.
 */
module LegacyScheduler {
  import opened GoMaps

  const StateNew: string := "new"
  const StateClustered: string := "clustered"
  const StateDeleted: string := "deleted"

  datatype NodeAnnouncement = NodeAnnouncement(ipAddress: string, sessionID: string)

  /** NodeState embeds the announcement it was made from. */
  datatype NodeState = NodeState(announcement: NodeAnnouncement, master: bool, state: string, desiredState: string)

  // ---------------------------------------------------------------------
  // ScheduleCore
  // ---------------------------------------------------------------------

  function Reconciled(value: NodeAnnouncement, states: map<string, NodeState>, key: string): NodeState
  {
    if key !in states then NodeState(value, false, StateNew, StateClustered)
    else if states[key].announcement.sessionID == value.sessionID then states[key]
    else
      var state := states[key];
      state.(desiredState := StateClustered, state := StateNew,
             announcement := state.announcement.(sessionID := value.sessionID))
  }

  function Reconcile(announcements: map<string, NodeAnnouncement>, states: map<string, NodeState>)
    : map<string, NodeState>
  {
    map k | k in announcements :: Reconciled(announcements[k], states, k)
  }

  method ScheduleCore(announcements: map<string, NodeAnnouncement>, currentStates: map<string, NodeState>)
    returns (result: map<string, NodeState>)
    ensures result == Reconcile(announcements, currentStates)
  {
    result := currentStates;
    var pending := announcements.Keys;
    while pending != {}
      invariant pending <= announcements.Keys
      invariant forall k :: k in announcements && k !in pending ==>
        k in result && result[k] == Reconciled(announcements[k], currentStates, k)
      invariant forall k :: k in pending || k !in announcements ==>
        (k in result <==> k in currentStates) && (k in result ==> result[k] == currentStates[k])
      decreases pending
    {
      var key :| key in pending;
      var value := announcements[key];
      if key in result {
        var state := result[key];
        if state.announcement.sessionID != value.sessionID {
          state := state.(desiredState := StateClustered, state := StateNew,
                          announcement := state.announcement.(sessionID := value.sessionID));
          result := result[key := state];
        }
      } else {
        result := result[key := NodeState(value, false, StateNew, StateClustered)];
      }
      pending := pending - {key};
    }

    var visiting := result.Keys;
    while visiting != {}
      invariant forall k :: k in announcements ==>
        k in result && result[k] == Reconciled(announcements[k], currentStates, k)
      invariant forall k :: k in result ==> k in announcements || k in visiting
      decreases visiting
    {
      var key :| key in visiting;
      if key !in announcements {
        result := result - {key};
      }
      visiting := visiting - {key};
    }
  }

  /** The result holds exactly the announced keys. */
  lemma ReconcileKeepsExactlyAnnounced(announcements: map<string, NodeAnnouncement>, states: map<string, NodeState>)
    ensures Reconcile(announcements, states).Keys == announcements.Keys
  {
  }

  /** A new key gets the announcement, no mastership, state `new` and
      desired `clustered`; a known session is untouched. */
  lemma ReconcileNewAndKnown(announcements: map<string, NodeAnnouncement>, states: map<string, NodeState>, k: string)
    requires k in announcements
    ensures k !in states ==>
      Reconcile(announcements, states)[k] == NodeState(announcements[k], false, StateNew, StateClustered)
    ensures k in states && states[k].announcement.sessionID == announcements[k].sessionID ==>
      Reconcile(announcements, states)[k] == states[k]
  {
  }

  /** A changed session is sent back to `new` with desired `clustered`;
      address and master flag stay. */
  lemma ReconcileResetsRestartedNode(announcements: map<string, NodeAnnouncement>, states: map<string, NodeState>, k: string)
    requires k in announcements && k in states
    requires states[k].announcement.sessionID != announcements[k].sessionID
    ensures var r := Reconcile(announcements, states)[k];
      && r.state == StateNew && r.desiredState == StateClustered
      && r.announcement.sessionID == announcements[k].sessionID
      && r.announcement.ipAddress == states[k].announcement.ipAddress
      && r.master == states[k].master
  {
  }

  /** Scheduling twice with the same announcements is scheduling once. */
  lemma {:induction false} ReconcileIdempotent(announcements: map<string, NodeAnnouncement>, states: map<string, NodeState>)
    ensures Reconcile(announcements, Reconcile(announcements, states)) == Reconcile(announcements, states)
  {
    var once := Reconcile(announcements, states);
    forall k | k in announcements
      ensures Reconciled(announcements[k], once, k) == once[k]
    {
      assert k in once;
    }
  }

  // ---------------------------------------------------------------------
  // EnsureMaster
  // ---------------------------------------------------------------------

  predicate HasMaster(states: map<string, NodeState>)
  {
    exists k :: k in states && states[k].master
  }

  /** The `lastKey` of the scan: the last key of `order` in the map, or `""`. */
  function LastKey(states: map<string, NodeState>, order: seq<string>): (r: string)
    ensures r == "" || r in states
    ensures (exists i :: 0 <= i < |order| && order[i] in states) ==> r in states
  {
    if order == [] then ""
    else if order[|order| - 1] in states then order[|order| - 1]
    else
      var r := LastKey(states, order[..|order| - 1]);
      assert forall i :: 0 <= i < |order| - 1 ==> order[..|order| - 1][i] == order[i];
      r
  }

  function WithMaster(states: map<string, NodeState>, order: seq<string>): map<string, NodeState>
  {
    if |states| == 0 || HasMaster(states) then states
    else
      var lastKey := LastKey(states, order);
      states[lastKey := if lastKey in states then states[lastKey].(master := true)
                        else NodeState(NodeAnnouncement("", ""), true, "", "")]
  }

  /** couchbase-scheduler/main.go's EnsureMaster, visiting the keys in `order`. */
  method EnsureMaster(currentStates: map<string, NodeState>, order: seq<string>) returns (result: map<string, NodeState>)
    requires IsIterationOrder(order, currentStates.Keys)
    ensures result == WithMaster(currentStates, order)
  {
    if |currentStates| == 0 {
      return currentStates;
    }
    var lastKey := "";
    var i := 0;
    while i < |order|
      invariant 0 <= i <= |order|
      invariant lastKey == LastKey(currentStates, order[..i])
      invariant forall j :: 0 <= j < i && order[j] in currentStates ==> !currentStates[order[j]].master
    {
      var key := order[i];
      assert order[..i + 1][..i] == order[..i];
      if key in currentStates {
        if currentStates[key].master {
          return currentStates;
        }
        lastKey := key;
      }
      i := i + 1;
    }
    assert order[..i] == order;
    assert !HasMaster(currentStates);
    var k0 :| k0 in currentStates;
    assert exists j :: 0 <= j < |order| && order[j] == k0;
    var state := currentStates[lastKey];
    state := state.(master := true);
    result := currentStates[lastKey := state];
  }

  /** An empty map, or one that already has a master, comes back unchanged. */
  lemma WithMasterKeepsMaster(states: map<string, NodeState>, order: seq<string>, k: string)
    requires k in states && states[k].master
    ensures WithMaster(states, order) == states
    ensures WithMaster(map[], order) == map[]
  {
  }

  /** With no master, exactly one existing record is marked master and
      nothing else changes. */
  lemma WithMasterPromotesOne(states: map<string, NodeState>, order: seq<string>)
    requires IsIterationOrder(order, states.Keys)
    requires |states| > 0 && !HasMaster(states)
    ensures exists k :: k in states && WithMaster(states, order) == states[k := states[k].(master := true)]
    ensures forall k, k' ::
      (k in WithMaster(states, order) && k' in WithMaster(states, order) &&
       WithMaster(states, order)[k].master && WithMaster(states, order)[k'].master) ==> k == k'
    ensures HasMaster(WithMaster(states, order))
  {
    var k0 :| k0 in states;
    var i :| 0 <= i < |order| && order[i] == k0;
    var lastKey := LastKey(states, order);
    assert lastKey in states;
    assert WithMaster(states, order)[lastKey].master;
  }

  /** EnsureMaster is idempotent, whatever order either call visits. */
  lemma WithMasterIdempotent(states: map<string, NodeState>, order: seq<string>, order': seq<string>)
    requires IsIterationOrder(order, states.Keys)
    ensures WithMaster(WithMaster(states, order), order') == WithMaster(states, order)
  {
    if |states| > 0 && !HasMaster(states) {
      WithMasterPromotesOne(states, order);
    }
  }

  // ---------------------------------------------------------------------
  // Announcements read from etcd
  // ---------------------------------------------------------------------

  /** The last `/`-separated segment of a key: what is left after the last `/`. */
  function LastSegment(key: string): (segment: string)
    ensures '/' !in segment
    ensures |segment| <= |key|
  {
    if |key| == 0 || key[|key| - 1] == '/' then ""
    else LastSegment(key[..|key| - 1]) + [key[|key| - 1]]
  }

  /** The segment is the whole tail of the key after its last `/`. */
  lemma {:induction false} LastSegmentIsTail(key: string)
    ensures var segment := LastSegment(key);
      segment == key[|key| - |segment|..] &&
      (|segment| < |key| ==> key[|key| - |segment| - 1] == '/')
  {
    if |key| > 0 && key[|key| - 1] != '/' {
      var init := key[..|key| - 1];
      LastSegmentIsTail(init);
      var segment := LastSegment(init);
      assert key[|key| - |segment| - 1..] == init[|init| - |segment|..] + [key[|key| - 1]];
    }
  }

  /** The name written under a directory is the name read back. */
  lemma {:induction false} LastSegmentOfChild(directory: string, name: string)
    requires '/' !in name
    ensures LastSegment(directory + "/" + name) == name
  {
    var key := directory + "/" + name;
    if name != [] {
      var init := name[..|name| - 1];
      assert key[..|key| - 1] == directory + "/" + init;
      assert key[|key| - 1] == name[|name| - 1];
      LastSegmentOfChild(directory, init);
      assert name == init + [name[|name| - 1]];
    }
  }

  /** One child node of the etcd directory listing. */
  datatype KeyValue = KeyValue(key: string, value: string)

  /** The announcements map after the children in `nodes` are read in order. */
  function AnnouncementMap(nodes: seq<KeyValue>): map<string, NodeAnnouncement>
  {
    if nodes == [] then map[]
    else
      var last := nodes[|nodes| - 1];
      var nodeKey := LastSegment(last.key);
      AnnouncementMap(nodes[..|nodes| - 1])[nodeKey := NodeAnnouncement(nodeKey, last.value)]
  }

  /** The position of the last child in `nodes` whose key ends in segment
      `k`, or -1 when there is none. */
  function LastIndex(nodes: seq<KeyValue>, k: string): (r: int)
    ensures -1 <= r < |nodes|
    ensures r >= 0 ==> LastSegment(nodes[r].key) == k
    ensures forall j :: r < j < |nodes| ==> LastSegment(nodes[j].key) != k
  {
    if nodes == [] then -1
    else if LastSegment(nodes[|nodes| - 1].key) == k then |nodes| - 1
    else LastIndex(nodes[..|nodes| - 1], k)
  }

  /** A key segment is announced exactly when some child carries it, and the
      announcement is the address `k` with the value of the last such child:
      a later child with the same segment overwrites an earlier one. */
  lemma {:induction false} AnnouncementMapLastWins(nodes: seq<KeyValue>, k: string)
    ensures k in AnnouncementMap(nodes) <==> LastIndex(nodes, k) >= 0
    ensures k in AnnouncementMap(nodes) ==>
      AnnouncementMap(nodes)[k] == NodeAnnouncement(k, nodes[LastIndex(nodes, k)].value)
  {
    if nodes != [] {
      var n := |nodes| - 1;
      var init := nodes[..n];
      AnnouncementMapLastWins(init, k);
      if LastSegment(nodes[n].key) != k {
        var r := LastIndex(init, k);
        if r >= 0 {
          assert nodes[r] == init[r];
        }
      }
    }
  }

  /** The loop of GetClusterAnnouncements over the directory's children. */
  method AnnouncementsOf(nodes: seq<KeyValue>) returns (values: map<string, NodeAnnouncement>)
    ensures values == AnnouncementMap(nodes)
  {
    values := map[];
    var n := 0;
    while n < |nodes|
      invariant 0 <= n <= |nodes|
      invariant values == AnnouncementMap(nodes[..n])
    {
      var nodeKey := LastSegment(nodes[n].key);
      values := values[nodeKey := NodeAnnouncement(nodeKey, nodes[n].value)];
      assert nodes[..n + 1][..n] == nodes[..n];
      n := n + 1;
    }
    assert nodes[..n] == nodes;
  }
}
