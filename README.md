# couchbase-array coordination layer in Dafny

couchbase-array runs a Couchbase cluster in which every machine runs a node
agent. The agents announce themselves in an etcd directory. One of them wins a
lease lock and runs the scheduler. The scheduler reconciles the announcements
against the per-session `NodeState` records it persists (lifecycle `""` →
`new` → `clustered`), elects a master with a TTL lease, refreshes that lease on
every tick, and saves the records. Each agent reads its record and converges on
the `DesiredState` it finds there, calling the cluster manager of the master
node when it has to.

The project models that coordination layer:

- `cluster.dfy` (module `Cluster`): the `NodeState` record, the lifecycle
  constants, the reconciler `ScheduleCore` and the master selector
  `SelectMaster` of `couchbase.go`. Both are methods with the loops of the
  source, proved against the specification functions `Reconcile` and
  `Elected`, and lemmas state what those functions promise.
- `scheduler.dfy` (module `Scheduler`): `GetMasterNode`, one tick of
  `StartScheduler` (`Schedule`, TTL refresh, save only with a master, the
  stop channel), a run of ticks, and the stickiness of the master between
  ticks.
- `etcd_store.dfy` (module `EtcdStore`): the part of etcd v2 that the lock
  relies on, as a `Store` class. It has `Create` (error 105 when the key
  exists), `CompareAndSwap` with previous index 0 (100 when the key is
  absent, 101 when the value differs), `CompareAndDelete` and lease expiry.
- `lock.dfy` (module `Lock`): `AcquireLock` and `ReleaseLock` as methods on
  the store, tied to the pure `Acquire` and `Release`. Mutual exclusion is
  stated over any interleaving of the store calls of several processes.
- `legacy_scheduler.dfy` (module `LegacyScheduler`): the older standalone
  scheduler with its own `ScheduleCore` and `EnsureMaster`, and the mapping
  from directory children to `NodeAnnouncement`s.
- `node_agent.dfy` (module `NodeAgent`): one tick of the node agent. The
  agent either races for the scheduler lock or converges its announced
  `State`, and it publishes its announcement.
- `go_maps.dfy` (module `GoMaps`) and `wrappers.dfy` (module `Wrappers`):
  Go's map iteration order and an `Option` type.

Modelling choices:

- **Clock.** `time.Now()` becomes a parameter `now`. It is in nanoseconds
  for node records and in seconds for the store's leases.
- **Order-independent loops.** Go's map iteration order is
  unspecified. The loops whose result does not depend on it (both passes of
  each `ScheduleCore`) pick keys with `:|`.
- **Map iteration order that matters.** The scans where it does matter
  (`SelectMaster`, `EnsureMaster`, `GetMasterNode`) take an `order`
  parameter. This is any duplicate-free sequence that lists every key.
- **External calls.** The cluster-management calls, the etcd reads and
  the lock attempt of the agent are inputs of the agent's tick, given as
  outcomes. Network failures of store calls are a `Network` parameter.

Three properties one might expect of the reconciler and the selector do not
hold of the code:

- **Reconciler idempotence.** The reconciler of `couchbase.go` is not
  idempotent. A node seen for the first time, or seen again under a new
  session, gets desired state `new`. If its announcement already reports
  `new`, the next call advances it to `clustered`.
  `Cluster.ReconcileIdempotent` proves that a second call changes nothing
  when no announced key is in that situation, and
  `Cluster.ReconcileNotIdempotentWithoutProviso` proves that any key in it
  is changed by a second call. `Cluster.ReconcileFirstContactNotIdempotent`
  is a concrete instance.
- **One master after a failover.** `SelectMaster` demotes only the last
  expired master it visits, so a map holding two expired masters and a
  non-master ends with two masters (`Cluster.ElectedCanLeaveTwoMasters`).
  On a non-empty map without key `""`, exactly one master results when
  there was at most one before (`Cluster.ElectedKeepsSingleMaster`).
- **Phantom master.** When every record is an expired master, `SelectMaster`
  writes a zero record marked master under key `""`
  (`Cluster.ElectedAllExpired`).

## Model

| member | source | states |
|---|---|---|
| Cluster.ScheduleCore | couchbase.go:42-79 | the two passes over the maps compute exactly `Reconcile`: per announced key, the per-record decision on its prior record; every unannounced record is deleted |
| Cluster.ReconcileKeepsExactlyAnnounced | couchbase.go:43-76 | the result's keys are exactly the announced keys; a record whose key is not announced is deleted |
| Cluster.ReconcileFirstContact | couchbase.go:63-66 | an announced key with no record gets the announcement's address and session, master false, state and desired state `new`, TTL `now` |
| Cluster.ReconcileAdvances | couchbase.go:45-49 | same session, desired `new`, announced `new`: desired becomes `clustered`, every other field kept |
| Cluster.ReconcileConverges | couchbase.go:45-55 | same session, desired `clustered`, announced `clustered`: state becomes `clustered`; a same-session record matching neither rule is unchanged |
| Cluster.ReconcileResetsRestartedNode | couchbase.go:56-62 | a different session resets state and desired to `new` and takes the new session, keeping address, master flag and TTL |
| Cluster.ReconcileIsMonotonic | couchbase.go:45-62 | for a same-session record the desired state stays or goes from `new` to `clustered`, never back |
| Cluster.ReconcileIdempotent | couchbase.go:42-79 | reconciling twice equals reconciling once when every announced key has a same-session record or does not report `new` |
| Cluster.ReconcileFirstContactNotIdempotent | couchbase.go:46-66 | a node first seen reporting `new` is changed again by a second reconciliation |
| Cluster.ReconcileNotIdempotentWithoutProviso | couchbase.go:45-66 | an announced key reporting `new` without a same-session record gets desired `new`, is advanced to `clustered` by a second call, so the second call changes the map |
| Cluster.ReconcileNeverPromotes | couchbase.go:42-79 | every master in the result was a master under the same key before, with the same TTL |
| Cluster.ReconcileKeyedBySession | couchbase.go:56-66 | records stay keyed by their session ID when the announcements are |
| Cluster.LastNonMaster | couchbase.go:89-99 | the selector's `lastKey`: `""` or a non-master key, and a non-master key whenever the order visits one |
| Cluster.LastExpiredMaster | couchbase.go:89-99 | the selector's `oldMasterKey`: `""` or a master key whose TTL has passed, and such a key whenever the order visits one |
| Cluster.SelectMaster | couchbase.go:81-112 | the scan with early return computes exactly `Elected` for the given iteration order |
| Cluster.ElectedKeepsIncumbent | couchbase.go:82-96 | a master whose TTL has not passed (`now <= TTL`) leaves the map unchanged, and so does an empty map |
| Cluster.ElectedFailsOver | couchbase.go:86-111 | with no live master, the last non-master seen is promoted and the last expired master seen demoted; only master flags change, except for a possible `""` key |
| Cluster.ElectedPromotesNonMaster | couchbase.go:97-110 | when a non-master exists, one is promoted, the key set is unchanged and the expired master (if any) is demoted |
| Cluster.ElectedAllExpired | couchbase.go:86-111 | when every record is an expired master, a zero record marked master is written under key `""` and the last expired master is demoted |
| Cluster.ElectedFromNoMaster | couchbase.go:97-104 | starting with no master, exactly one record is promoted and exactly one master results |
| Cluster.ElectedKeepsSingleMaster | couchbase.go:81-112 | on a non-empty map without key `""`, at most one master before gives exactly one master after |
| Cluster.ElectedCanLeaveTwoMasters | couchbase.go:89-110 | with expired masters `a`, `b` and non-master `c` visited in that order, `b` is demoted, `c` promoted and `a` stays master: two masters result |
| Cluster.ElectedKeyedBySession | couchbase.go:102-110 | the selector keeps records keyed by session ID |
| Scheduler.FirstMaster | scheduler.go:42-48 | a record marked master that the order visits, or the zero record with "Not found" exactly when the order visits no master |
| Scheduler.GetMasterNode | scheduler.go:40-49 | a found record is marked master and is in the map; an error is returned exactly when no record is master, and then the record is zero and the error "Not found" |
| Scheduler.ElectedKeys | couchbase.go:81-112 | the selector adds no key other than `""` |
| Scheduler.Schedule | couchbase.go:27-40 | a failed read gives no states; otherwise the reconciled, then elected, states |
| Scheduler.SchedulerTick | scheduler.go:11-35 | one tick saves exactly `TickSaves`, and the stop channel only ends the wait early |
| Scheduler.RunScheduler | scheduler.go:10-37 | a run processes every tick, whether `stop` fired before or not, saving per tick what `TickSaves` says |
| Scheduler.TickSavesOnlyWithMaster | scheduler.go:12-29 | nothing is saved when `Schedule` failed; otherwise states are saved exactly when the scheduled map holds a master |
| Scheduler.PersistedRefreshesMaster | scheduler.go:17-22 | the master is written back under its session ID with TTL `now + (timeout+3)·10^9`; no other entry changes |
| Scheduler.TickRefreshesMaster | scheduler.go:12-29 | a tick that saves has read, and saves the scheduled states with only the master's TTL refreshed under its session ID |
| Scheduler.PersistedKeepsSingleMaster | scheduler.go:17-29 | refreshing the one master of a map keyed by session keeps exactly one master |
| Scheduler.MasterStaysMaster | scheduler.go:19 | a still-announced master refreshed at time `t`, while its saved record is still in the store, stays master, unchanged by the selector, on a tick at any `now <= t + (timeout+3)` s |
| Scheduler.TickKeepsSingleMaster | scheduler.go:12-29 | with at most one persisted master, what a tick saves holds exactly one master; a tick with announcements always saves |
| EtcdStore.Store.Create | lock.go:25 | writes the value with its lease when the key is absent; error 105 when it exists; a transport failure changes nothing |
| EtcdStore.Store.CompareAndSwap | lock.go:36 | replaces the value and renews the lease when the current value equals `prevValue`; 100 on an absent key, 101 on a mismatch |
| EtcdStore.Store.CompareAndDelete | lock.go:56 | deletes the key when its value equals `prevValue`; 100 on an absent key, 101 on a mismatch |
| EtcdStore.Store.Expire | lock.go:23-25 | drops every entry whose lease has ended by `now` |
| Lock.AcquireLock | lock.go:23-47 | the Create, error test and swap on the store compute exactly `Acquire` |
| Lock.ReleaseLock | lock.go:50-58 | the re-acquire and guarded delete on the store compute exactly `Release` |
| Lock.AcquireFreshKey | lock.go:25-46 | on an absent key the lock succeeds, holding `identifier` with the lease |
| Lock.AcquireRenews | lock.go:26-29 | when the key already holds `identifier`, error 105 is swallowed and the swap renews the lease |
| Lock.AcquireLockExpiring | lock.go:23-47 | AcquireLock against a store that first drops every lease ended by `now` computes `Acquire` on the unexpired entries |
| Lock.AcquireTakesOverEndedLease | lock.go:25-46 | once the holder's lease has ended the key is gone, and another process acquires it with its own lease |
| Lock.AcquireContendedWhileLive | lock.go:36-41 | while another process's lease is live, the expiring store keeps that entry and the caller gets `ErrLockInUse` |
| Lock.AcquireContended | lock.go:36-41 | when another value is held, error 101 becomes `ErrLockInUse` and the store is unchanged |
| Lock.AcquirePassesOtherErrors | lock.go:30-33 | any other Create failure or swap failure is returned as it came |
| Lock.AcquireNeverOverwrites | lock.go:25-46 | a value other than `identifier` is never overwritten and the lock is not granted |
| Lock.AcquireSucceedsIff | lock.go:23-47 | the lock is granted exactly when the key is free or already ours and no call fails; then it holds `identifier` with a fresh lease |
| Lock.ReleaseByHolder | lock.go:50-57 | the holder re-acquires with a 10 s lease and then deletes the key |
| Lock.ReleaseByOther | lock.go:51-53 | a non-holder gets the acquire error (`ErrLockInUse` on a reliable network) and nothing is deleted |
| Lock.AcquireNeverKeyNotFound | lock.go:25-46 | run without interleaving, AcquireLock never returns the key-not-found error (100) |
| Lock.LockExcludesOthers | lock.go:23-58 | while the holder's lease is live, any interleaving of other processes' Create, swap and delete calls (each served after expiring ended leases) leaves the holder's entry unchanged, and each call is refused with an error other than 100, so no other AcquireLock or ReleaseLock succeeds |
| Lock.LostKeyRace | lock.go:25-44 | another process's Create gets 105, the holder's compare-and-delete then removes the key, and that process's swap gets 100, which AcquireLock returns as a plain error |
| Lock.AcquireCallsReplies | lock.go:25-46 | the two calls of one uninterrupted AcquireLock get no error twice on an absent key, 105 then success on a key it holds (the lease renewed), and 105 then 101 on a key another process holds (unchanged) |
| Lock.Serving | lock.go:25-56 | serves an interleaving of the Create (line 25), compare-and-swap (line 36) and compare-and-delete (line 56) calls of several processes, each after the leases ended by its time are dropped; one reply per call |
| Lock.ServingAppend | lock.go:25-56 | serving two batches of calls one after the other gives the replies of both, in order, and the state after the second |
| Lock.RenewThenContend | lock.go:23-47 | call by call: acquire (Create, swap), renew within the lease (105 swallowed, swap), then a second process gets 105 and 101, i.e. lock in use; the first holds the key with the renewed lease |
| LegacyScheduler.ScheduleCore | couchbase-scheduler/main.go:55-82 | the two passes compute exactly `Reconcile` |
| LegacyScheduler.ReconcileKeepsExactlyAnnounced | couchbase-scheduler/main.go:56-79 | the result's keys are exactly the announced keys |
| LegacyScheduler.ReconcileNewAndKnown | couchbase-scheduler/main.go:57-69 | a new key gets master false, state `new`, desired `clustered`; a same-session record is untouched |
| LegacyScheduler.ReconcileResetsRestartedNode | couchbase-scheduler/main.go:60-66 | a different session gets desired `clustered`, state `new` and the new session, keeping address and master flag |
| LegacyScheduler.ReconcileIdempotent | couchbase-scheduler/main.go:55-82 | applying the legacy reconciler twice equals applying it once |
| LegacyScheduler.LastKey | couchbase-scheduler/main.go:89-96 | the last key the scan visits, which is in the map whenever the order visits any key |
| LegacyScheduler.EnsureMaster | couchbase-scheduler/main.go:84-102 | the scan with early return computes exactly `WithMaster` |
| LegacyScheduler.WithMasterKeepsMaster | couchbase-scheduler/main.go:85-93 | a map that is empty or already has a master is returned unchanged |
| LegacyScheduler.WithMasterPromotesOne | couchbase-scheduler/main.go:89-101 | a non-empty map without a master gets exactly one record marked master and nothing else changes |
| LegacyScheduler.WithMasterIdempotent | couchbase-scheduler/main.go:84-102 | applying `EnsureMaster` twice, in any orders, equals applying it once |
| LegacyScheduler.LastSegment | couchbase-scheduler/main.go:186-187 | the last `/`-separated segment holds no `/` and is no longer than the key |
| LegacyScheduler.LastSegmentIsTail | couchbase-scheduler/main.go:186-187 | the segment is a suffix of the key, preceded by `/` when shorter than the key |
| LegacyScheduler.LastSegmentOfChild | couchbase-scheduler/main.go:186-188 | a name stored under a directory is read back as that name |
| LegacyScheduler.LastIndex | couchbase-scheduler/main.go:185-189 | the position of the last child with a given segment, or -1 when none has it |
| LegacyScheduler.AnnouncementMapLastWins | couchbase-scheduler/main.go:185-189 | a segment is a key exactly when some child has it; its announcement has that segment as address and key, and the last such child's raw value as session ID |
| LegacyScheduler.AnnouncementsOf | couchbase-scheduler/main.go:185-189 | the loop over the children computes exactly `AnnouncementMap` |
| NodeAgent.AgentTick | couchbase-node-announce/main.go:44-146 | the tick body with its in-place updates of the announcement and of `err` computes exactly `Step` |
| NodeAgent.StartsFromOwnAnnouncement | couchbase-node-announce/main.go:49-57 | without its own announcement the agent starts from its machine address, its session, master false, empty state and desired state |
| NodeAgent.PublishesOwnRecord | couchbase-node-announce/main.go:90-146 | the published announcement is the agent's own with at most `State` changed, and only to its session's desired state |
| NodeAgent.UnreadableAnnouncementsAreFatal | couchbase-node-announce/main.go:44-47 | a failed announcements read, and only that, ends the tick with that cause |
| NodeAgent.RacesForLockWithoutMaster | couchbase-node-announce/main.go:61-89 | with no master the agent races for the lock: won starts the scheduler, in use is tolerated, any other error is fatal; the announcement is unchanged |
| NodeAgent.StartsSchedulerIff | couchbase-node-announce/main.go:62-65 | the scheduler starts exactly when no master was found and the lock was won |
| NodeAgent.RepublishesWhenSettled | couchbase-node-announce/main.go:90-93 | with a master, no own state record or a desired state equal to the reported one republishes the announcement unchanged without a call |
| NodeAgent.RebalancesTowardsClustered | couchbase-node-announce/main.go:96-112 | desired `clustered`: a rebalance against the master unless self or what-if; state becomes `clustered` exactly when no call failed |
| NodeAgent.JoinsTowardsNew | couchbase-node-announce/main.go:114-134 | desired `new`: the master is looked up again and the agent adds itself to it unless self or what-if; state becomes `new` exactly when no call failed |
| NodeAgent.RelookupFindsMaster | couchbase-node-announce/main.go:116-119 | the second master lookup always finds a master |
| NodeAgent.FatalIff | couchbase-node-announce/main.go:44-137 | the tick is fatal exactly on an unreadable announcements read, a lock error other than in use, or a differing desired state that is neither `new` nor `clustered` |
| NodeAgent.CallsOnlyAnotherMaster | couchbase-node-announce/main.go:99-127 | a call is made only outside what-if mode, about this machine, to a master record's address that is not this machine |
| NodeAgent.WhatIfAdvancesLikeSuccess | couchbase-node-announce/main.go:103-130 | what-if mode makes no call and publishes what a tick with a successful call publishes |
| NodeAgent.ConvergenceIsStable | couchbase-node-announce/main.go:90-146 | after a tick whose call succeeded, reading back the published announcement gives a tick that republishes it without a call |

## Left out

- etcd I/O and JSON are not modelled. `GetClusterStates`, `SaveClusterStates`, `ClearClusterStates`, `ClearAnnouncments`, `GetClusterAnnouncements`, `SetClusterAnnouncement` and `NewEtcdClient` are represented by the maps they return or receive. Only the part of the store that the lock needs is modelled.
- The agent's failed read of the states is modelled by the map that read returns: the code discards that read's error.
- Goroutines, sleeps and timers are not modelled: the lock-renewal goroutine, `time.Sleep`, and `time.After` in `StartScheduler` (modelled only by which wake-up ended the wait).
- Signal handling and the failover at shutdown (couchbase-node-announce/main.go:152-173) are not modelled, because they are OS-driven.
- The HTTP calls of `couchbase-node-announce/cli.go` are not modelled; `rebalanceNode` and `addNodeToCluster` appear only as a success or failure input. "Already part of cluster" counts as success.
- Machine-IP discovery and uuid generation are not modelled; the machine address and session ID are inputs.
- `NodeState.String` is not modelled: it only formats a record for logging.
- The legacy scheduler's `main` loop and `Schedule` are not modelled: they only chain the reads, the two modelled functions and the save.
- NodeAgent.AgentTick: the source calls `StartScheduler` with two arguments where it takes three (couchbase-node-announce/main.go:65), and assigns the two results of `addNodeToCluster` to one variable (main.go:125). The model starts the scheduler as a flag, and uses the call's error.
- The failover-setting loop that tests `err` instead of `failOverErr` (couchbase-node-announce/main.go:75) is not modelled; it runs in the renewal goroutine.
- Scheduler.SchedulerTick: every clock read of a tick is the one `now`: the read per first-seen key in `ScheduleCore` (couchbase.go:65), the read in `SelectMaster` (couchbase.go:86) and the refresh's read (scheduler.go:19). So every record created in one tick gets the same TTL, and the refreshed lease starts at the same instant as the selection.
- The `TTL` field is an unbounded `int`, so int64 overflow of `now + (timeout+3)·10^9` is not modelled.
- The `relax` and `deleted` lifecycle values are declared and never produced; no transitions are invented for them.
- Scheduler.MasterStaysMaster: in the program, `SaveClusterStates` writes every state record with a 5 s etcd lease (couchbase.go:19, 144), and the agent runs the scheduler with a 3 s timeout, so a record saved at `t` is gone from `GetClusterStates` after `t + 5` s. A later tick then treats every node as first contact and elects afresh. The lemma's hypothesis that the record is among the read states covers only ticks before `t + min(5, timeout + 3)` s; the store's lease on saved states is not modelled.
- Lock.Acquire: the single-process functions `Acquire` and `Release` (and the methods proved against them) see no lease end and no other process between their store calls. Interleaving and expiry are modelled by `Lock.Serving`, which expires ended leases before serving each call; `Lock.AcquireLockExpiring` runs `EtcdStore.Store.Expire` before `AcquireLock`, and `Lock.AcquireTakesOverEndedLease` and `Lock.AcquireContendedWhileLive` state what that changes.
- The test files are not modelled. couchbase_test.go:43 expects state `""` after the first schedule, while couchbase.go:66 sets `new`; the model follows the code.
- The agent's own `getMasterNode` (couchbase-node-announce/main.go:175-184) is the same loop as scheduler.go:40-49 and is modelled by `Scheduler.GetMasterNode`, which the agent calls.
