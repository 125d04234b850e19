/**
 One tick of the node agent of couchbase-node-announce: it reads the
 announcements and the scheduler's states, and then either races for the
 scheduler lock (no master yet) or converges its own reported `State` towards
 the `DesiredState` the scheduler set for its session, calling the cluster
 manager of the master node when it has to. The tick ends by publishing the
 agent's announcement.

 The reads, the lock attempt and the cluster-management call are inputs of
 the tick: `Environment` holds what they returned.
 */
module NodeAgent {
  import opened Wrappers
  import opened GoMaps
  import opened Cluster
  import opened Scheduler
  import Lock

  /** The cluster-management call a tick makes against the master node. */
  datatype Call =
    | NoCall
    | Rebalance(masterIP: string, nodeIP: string)
    | AddNode(masterIP: string, nodeIP: string)

  /** Why a tick ends the process instead of publishing. */
  datatype Cause =
    | AnnouncementsUnreadable
    | LockFailed(outcome: Lock.Outcome)
    | UnknownState(desiredState: string)

  /** The end of a tick: the process stops, or it publishes `announcement`
      after making `call`; `startsScheduler` says whether it won the lock and
      starts the scheduler and the lock-renewal loop. */
  datatype Tick =
    | Fatal(cause: Cause)
    | Publish(announcement: NodeState, call: Call, startsScheduler: bool)

  /** The agent's identity and its what-if flag, fixed for the process. */
  datatype Agent = Agent(sessionID: string, machineIdentifier: string, whatIf: bool)

  /** What one tick is told by the outside world: the announcements read
      (None when the read failed), the scheduler's states, the outcome of the
      attempt on the scheduler lock (a 5-second lease on the
      directory's `master` key), the error of the cluster-management call
      if one is made, and the iteration orders of the two master searches. */
  datatype Environment = Environment(
    announcements: Option<map<string, NodeState>>,
    currentStates: map<string, NodeState>,
    lock: Lock.Outcome,
    external: Option<string>,
    order: seq<string>,
    reorder: seq<string>)

  predicate Valid(env: Environment)
  {
    IsIterationOrder(env.order, env.currentStates.Keys) &&
    IsIterationOrder(env.reorder, env.currentStates.Keys)
  }

  /** The announcement of a session the cluster has not heard from yet. */
  function FreshAnnouncement(agent: Agent): NodeState
  {
    NodeState(agent.machineIdentifier, agent.sessionID, false, StateEmpty, StateEmpty, 0)
  }

  /** The agent's own announcement as read, or a fresh one. */
  function OwnAnnouncement(agent: Agent, announcements: map<string, NodeState>): NodeState
  {
    if agent.sessionID in announcements then announcements[agent.sessionID] else FreshAnnouncement(agent)
  }

  /** The call made towards `master`: none when the agent is the master
      itself or in what-if mode. */
  function CallTowards(agent: Agent, master: NodeState, call: Call): Call
  {
    if master.ipAddress == agent.machineIdentifier || agent.whatIf then NoCall else call
  }

  /** Converging on `desired`: the state advances unless a call was made and
      failed. */
  function Converged(own: NodeState, desired: string, call: Call, external: Option<string>): Tick
  {
    if call == NoCall || external.None? then Publish(own.(state := desired), call, false)
    else Publish(own, call, false)
  }

  /** The decision of one tick. */
  function Step(agent: Agent, env: Environment): Tick
    requires Valid(env)
  {
    if env.announcements.None? then Fatal(AnnouncementsUnreadable)
    else
      var own := OwnAnnouncement(agent, env.announcements.value);
      var search := GetMasterNode(env.currentStates, env.order);
      if search.err.Some? then
        match env.lock
        case Ok => Publish(own, NoCall, true)
        case LockInUse => Publish(own, NoCall, false)
        case Failed(_) => Fatal(LockFailed(env.lock))
      else if agent.sessionID !in env.currentStates then Publish(own, NoCall, false)
      else
        var desired := env.currentStates[agent.sessionID].desiredState;
        if desired == own.state then Publish(own, NoCall, false)
        else if desired == StateClustered then
          var master := search.node;
          Converged(own, desired, CallTowards(agent, master, Rebalance(master.ipAddress, agent.machineIdentifier)), env.external)
        else if desired == StateNew then
          var again := GetMasterNode(env.currentStates, env.reorder);
          if again.err.Some? then Publish(own, NoCall, false)
          else
            var master := again.node;
            Converged(own, desired, CallTowards(agent, master, AddNode(master.ipAddress, agent.machineIdentifier)), env.external)
        else Fatal(UnknownState(desired))
  }

  /** The tick body: the announcement record is updated in place across the
      branches, and `err` carries the master search's error into the
      clustered branch, as in the agent's loop. */
  method AgentTick(agent: Agent, env: Environment) returns (t: Tick)
    requires Valid(env)
    ensures t == Step(agent, env)
  {
    if env.announcements.None? {
      return Fatal(AnnouncementsUnreadable);
    }
    var announcements := env.announcements.value;
    var machineState: NodeState;
    if agent.sessionID in announcements {
      machineState := announcements[agent.sessionID];
    } else {
      machineState := NodeState(agent.machineIdentifier, agent.sessionID, false, StateEmpty, StateEmpty, 0);
    }
    var currentStates := env.currentStates;
    var search := GetMasterNode(currentStates, env.order);
    var master, err := search.node, search.err;
    var call := NoCall;
    var startsScheduler := false;
    if err.Some? {
      var lockErr := env.lock;
      if lockErr == Lock.Ok {
        startsScheduler := true;
      }
      if lockErr != Lock.Ok && lockErr != Lock.LockInUse {
        return Fatal(LockFailed(lockErr));
      }
    } else if agent.sessionID in currentStates {
      var state := currentStates[agent.sessionID];
      if state.desiredState != machineState.state {
        if state.desiredState == StateClustered {
          if master.ipAddress != agent.machineIdentifier && !agent.whatIf {
            call := Rebalance(master.ipAddress, agent.machineIdentifier);
            err := env.external;
          }
          if err.None? {
            machineState := machineState.(state := state.desiredState);
          }
        } else if state.desiredState == StateNew {
          var again := GetMasterNode(currentStates, env.reorder);
          var master', err' := again.node, again.err;
          if err'.None? {
            if master'.ipAddress != agent.machineIdentifier && !agent.whatIf {
              call := AddNode(master'.ipAddress, agent.machineIdentifier);
              err' := env.external;
            }
            if err'.None? {
              machineState := machineState.(state := state.desiredState);
            }
          }
        } else {
          return Fatal(UnknownState(state.desiredState));
        }
      }
    }
    return Publish(machineState, call, startsScheduler);
  }

  // ---------------------------------------------------------------------
  // Properties of a tick
  // ---------------------------------------------------------------------

  /** Without its own announcement the agent starts from a fresh record for
      its machine and session; otherwise from the one it read. */
  lemma StartsFromOwnAnnouncement(agent: Agent, announcements: map<string, NodeState>)
    ensures agent.sessionID !in announcements ==>
      OwnAnnouncement(agent, announcements) ==
        NodeState(agent.machineIdentifier, agent.sessionID, false, StateEmpty, StateEmpty, 0)
    ensures agent.sessionID in announcements ==>
      OwnAnnouncement(agent, announcements) == announcements[agent.sessionID]
  {
  }

  /** A published announcement is the agent's own record, with at most its
      `State` moved to the `DesiredState` of its session. */
  lemma PublishesOwnRecord(agent: Agent, env: Environment)
    requires Valid(env)
    ensures Step(agent, env).Publish? ==> env.announcements.Some?
    ensures Step(agent, env).Publish? ==>
      var own := OwnAnnouncement(agent, env.announcements.value);
      var published := Step(agent, env).announcement;
      published.(state := own.state) == own &&
      (published.state == own.state ||
       (agent.sessionID in env.currentStates && published.state == env.currentStates[agent.sessionID].desiredState))
  {
  }

  /** A failed announcements read is fatal. */
  lemma UnreadableAnnouncementsAreFatal(agent: Agent, env: Environment)
    requires Valid(env)
    ensures env.announcements.None? <==> Step(agent, env) == Fatal(AnnouncementsUnreadable)
  {
  }

  /** With no master record the agent races for the lock instead of
      converging: winning starts the scheduler, a lock in use is tolerated,
      any other lock error is fatal; its announcement goes out unchanged. */
  lemma RacesForLockWithoutMaster(agent: Agent, env: Environment)
    requires Valid(env)
    requires env.announcements.Some?
    requires forall k :: k in env.currentStates ==> !env.currentStates[k].master
    ensures var own := OwnAnnouncement(agent, env.announcements.value);
      Step(agent, env) ==
        match env.lock
        case Ok => Publish(own, NoCall, true)
        case LockInUse => Publish(own, NoCall, false)
        case Failed(_) => Fatal(LockFailed(env.lock))
  {
  }

  /** The agent starts the scheduler exactly when it found no master and won
      the lock. */
  lemma StartsSchedulerIff(agent: Agent, env: Environment)
    requires Valid(env)
    ensures (Step(agent, env).Publish? && Step(agent, env).startsScheduler) <==>
      (env.announcements.Some? && (forall k :: k in env.currentStates ==> !env.currentStates[k].master) &&
       env.lock == Lock.Ok)
  {
  }

  /** With a master, the agent republishes its announcement unchanged and
      calls nobody when it has no state record or its record's desired state
      is the state it already reports. */
  lemma RepublishesWhenSettled(agent: Agent, env: Environment)
    requires Valid(env)
    requires env.announcements.Some?
    requires exists k :: k in env.currentStates && env.currentStates[k].master
    requires agent.sessionID !in env.currentStates ||
      env.currentStates[agent.sessionID].desiredState == OwnAnnouncement(agent, env.announcements.value).state
    ensures Step(agent, env) == Publish(OwnAnnouncement(agent, env.announcements.value), NoCall, false)
  {
  }

  /** Desired `clustered`: the agent rebalances itself into the master's
      cluster unless it is the master or in what-if mode, and reports
      `clustered` exactly when no call failed. */
  lemma RebalancesTowardsClustered(agent: Agent, env: Environment)
    requires Valid(env)
    requires env.announcements.Some?
    requires exists k :: k in env.currentStates && env.currentStates[k].master
    requires agent.sessionID in env.currentStates && env.currentStates[agent.sessionID].desiredState == StateClustered
    requires OwnAnnouncement(agent, env.announcements.value).state != StateClustered
    ensures var own := OwnAnnouncement(agent, env.announcements.value);
      var master := GetMasterNode(env.currentStates, env.order).node;
      var t := Step(agent, env);
      t.Publish? && !t.startsScheduler &&
      t.call == (if master.ipAddress == agent.machineIdentifier || agent.whatIf then NoCall
                 else Rebalance(master.ipAddress, agent.machineIdentifier)) &&
      (t.announcement == own.(state := StateClustered) <==> (t.call == NoCall || env.external.None?)) &&
      (t.announcement == own <==> (t.call != NoCall && env.external.Some?))
  {
  }

  /** Desired `new`: the agent looks the master up again, adds itself to it
      unless it is the master or in what-if mode, and reports `new` exactly
      when no call failed. */
  lemma JoinsTowardsNew(agent: Agent, env: Environment)
    requires Valid(env)
    requires env.announcements.Some?
    requires exists k :: k in env.currentStates && env.currentStates[k].master
    requires agent.sessionID in env.currentStates && env.currentStates[agent.sessionID].desiredState == StateNew
    requires OwnAnnouncement(agent, env.announcements.value).state != StateNew
    ensures var own := OwnAnnouncement(agent, env.announcements.value);
      var master := GetMasterNode(env.currentStates, env.reorder).node;
      var t := Step(agent, env);
      t.Publish? && !t.startsScheduler &&
      t.call == (if master.ipAddress == agent.machineIdentifier || agent.whatIf then NoCall
                 else AddNode(master.ipAddress, agent.machineIdentifier)) &&
      (t.announcement == own.(state := StateNew) <==> (t.call == NoCall || env.external.None?)) &&
      (t.announcement == own <==> (t.call != NoCall && env.external.Some?))
  {
  }

  /** The second master search of the `new` branch never fails: the map it
      searches holds the master the first search found. */
  lemma RelookupFindsMaster(agent: Agent, env: Environment)
    requires Valid(env)
    requires GetMasterNode(env.currentStates, env.order).err.None?
    ensures GetMasterNode(env.currentStates, env.reorder).err.None?
    ensures GetMasterNode(env.currentStates, env.reorder).node.master
  {
  }

  /** The tick is fatal exactly when the announcements cannot be read, the
      lock attempt fails with another error than a lock in use, or the
      session's desired state is neither `new` nor `clustered` and differs
      from the reported one. */
  lemma FatalIff(agent: Agent, env: Environment)
    requires Valid(env)
    ensures Step(agent, env).Fatal? <==>
      env.announcements.None? ||
      ((forall k :: k in env.currentStates ==> !env.currentStates[k].master) && env.lock.Failed?) ||
      ((exists k :: k in env.currentStates && env.currentStates[k].master) &&
       agent.sessionID in env.currentStates &&
       var desired := env.currentStates[agent.sessionID].desiredState;
       desired != OwnAnnouncement(agent, env.announcements.value).state &&
       desired != StateNew && desired != StateClustered)
  {
  }

  /** A call goes only from a node that is not in what-if mode, about itself,
      to a master that is another machine. */
  lemma CallsOnlyAnotherMaster(agent: Agent, env: Environment)
    requires Valid(env)
    requires Step(agent, env).Publish? && Step(agent, env).call != NoCall
    ensures !agent.whatIf
    ensures Step(agent, env).call.nodeIP == agent.machineIdentifier
    ensures Step(agent, env).call.masterIP != agent.machineIdentifier
    ensures exists k ::
      (k in env.currentStates && env.currentStates[k].master &&
       env.currentStates[k].ipAddress == Step(agent, env).call.masterIP)
  {
  }

  /** What-if mode makes no call, and publishes what a tick whose call
      succeeded would publish. */
  lemma WhatIfAdvancesLikeSuccess(agent: Agent, env: Environment)
    requires Valid(env)
    ensures var t := Step(agent.(whatIf := true), env);
      t.Publish? ==> t.call == NoCall
    ensures var t := Step(agent.(whatIf := true), env);
      var u := Step(agent.(whatIf := false), env.(external := None));
      t.Publish? == u.Publish? && (t.Publish? ==> t.announcement == u.announcement)
  {
  }

  /** Once a tick has converged, the next tick (reading back the published
      announcement against the same states) publishes it again and calls
      nobody. */
  lemma ConvergenceIsStable(agent: Agent, env: Environment)
    requires Valid(env)
    requires env.announcements.Some?
    requires exists k :: k in env.currentStates && env.currentStates[k].master
    requires agent.sessionID in env.currentStates
    requires env.external.None?
    requires Step(agent, env).Publish?
    ensures var a := Step(agent, env).announcement;
      var next := env.(announcements := Some(env.announcements.value[agent.sessionID := a]));
      Step(agent, next) == Publish(a, NoCall, false)
  {
  }
}
