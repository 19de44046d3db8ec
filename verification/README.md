# Shard distributor: a verified model

This project models the on-demand shard assignment path of a shard distributor, and the arithmetic and caching around
it, and proves what the design relies on.

Executors own shards. Each executor's assignments are one persisted record with the revision of its last write. A
caller asks for a shard's owner; a miss is coalesced with other misses into a batch. Each batch is flushed by an
optimistic transaction: read the namespace, place the unowned shards, and commit under a guard on the revision of every
record that was listed, writing only the records that changed. Any number of hosts do this at once with no leader
guard, while a leader rebalances the same records under the same kind of guard. Caches on every host show the newest
snapshot they were offered and wake watch streams.

The main results:

* **One owner per shard.** A run of any number of assigners, leaders and operators has one owner per shard in all its
  states if and only if no assigner commit places a shard that an executor outside its guard already holds
  (`Protocol.RunIsUniqueExactlyWhen`). Guarding every record suffices (`RunKeepsUnique`); a fleet of executors that all
  have records, and that only shrinks, gives that for free (`ProvisionedFleetKeepsUnique`); and a concrete run of two
  assigners, with the plans the planner makes, shows the guard alone is not enough (`TwoOwnersRun`). The leader's
  commits in an ephemeral namespace never need the condition.
* **Repair of double ownership.** A leader's commit leaves one owner per shard exactly when no executor it did not list
  holds a shard the plan hands out, and no two of those share one (`LeaderCommit.LeaderCommitUniqueExactlyWhen`). A
  whole rebalance of an undisturbed store, early return included, repairs exactly the states its guard does not skip
  (`RebalanceOnce`). The guard is exact too (`SkipExactlyWhen`): it skips when, among other things, each assignable
  executor is the first to hold some shard, and in every iteration order when each has a shard of its own
  (`SkippedInEveryOrderExactlyWhen`), shared shards or not.
* **Delta writes are full writes** under the guard (`Store.DeltaWriteEqualsFullWrite`), for assigner and leader
  requests.
* **The batcher** answers each request it takes exactly once, in every run including shutdown, and strands nobody; an
  answer is the error of its batch or that batch's own owner for the key (`BatcherSpec.AnswersMean`); stopping works
  from everywhere (`BatcherSpec.ShutdownAnswersAll`); its code reaches the states of that machine
  (`Batcher.ShardBatcher.Loop`).
* **End to end**, with the batcher and everything that happens to the store interleaved, a caller of a successful batch
  is told its shard is drained exactly when it was in the state its flush read, no earlier than the call, and otherwise
  gets an owner in a later state of the same history (`EndToEnd.CallerLearnsCommittedOwner`). Conversely any commit of
  one placement that passes, in any run of the protocol, serves a caller in some run of the joint system
  (`EndToEnd.EveryCommitServesSomeone`).
* **The cache** always shows the highest revision offered, in whatever order refreshers race, and a lookup answers from
  one applied snapshot. **Watch streams** lose no update: a quiet stream last sent the newest snapshot the cache was
  ever offered (`Streams.QuietStreamIsCurrent`).
* **The leader's redistribution** neither loses nor duplicates a shard, never steals from an empty list, and leaves no
  donor below the share it hands out; each shard that changes hands is reported as handed over once.
* **Histogram subsetting** equals building directly at the lower scale, with exact boundaries, and boundaries are
  distinct exactly from a smallest start per scale.
* **Backoff, retry, configuration lookup and imbalance statistics** have whole-run bounds, a pigeonhole argument and
  inequalities over lists of any length.

Five expected properties are false of the code and are replaced by the exact condition: unique ownership under the
guard alone and repair of double ownership by every rebalance (above), boundedly many delays before an expiration
(`Backoff.BoundedExactlyWhen`), the documented lower end of the jitter range (`RefreshLoop.LowerEndExactlyWhen`), and
the harmlessness of the length shortcut in configuration matching (`DynamicConfig.ShortcutHarmlessExactlyWhen`).

## Layout

| file | contents |
|---|---|
| `Arith.dfy` | small non-linear facts |
| `Store.dfy` | persisted state, transactions and their guard |
| `Planner.dfy`, `Assigner.dfy`, `Flush.dfy` | planning, one attempt, a whole flush |
| `EndToEnd.dfy` | batcher, flushes and store interleaved |
| `Leader.dfy`, `LeaderCommit.dfy` | redistribution and its commit |
| `Protocol.dfy` | all processes interleaved |
| `Batcher.dfy` | the batching loop: state machine, then its code |
| `Cache.dfy`, `Watch.dfy`, `Streams.dfy` | cache; notification channels; cache and watch streams together |
| `Histogram.dfy` | exact powers, roots and buckets |
| `Backoff.dfy`, `Retry.dfy` | delays, refresh loop, retry loop |
| `DynamicConfig.dfy`, `Imbalance.dfy` | filtered lookup; load statistics |

Anything the code gets from outside (clock, random draws, store faults, context cancellation, interleaving) is a
parameter or a step, so every statement is over all of its values.

## Model

| member | source | states |
|---|---|---|
| Store.AssignShardsKeepsHistory | service/sharddistributor/store/etcd/executorstore/etcdstore.go:459-569 | whatever request is tried, a state read earlier stays a past state: any record not written since is still the one read |
| Store.DisturbKeepsHistory | service/sharddistributor/store/etcd/executorstore/etcdstore.go:649-664 | the same for transactions that write no record (heartbeat, drain, deletion, reset), which also keep ownership unique, drop exactly the removed records and leave the others as they were |
| Store.GuardedRecordsAreCurrent | service/sharddistributor/store/store.go:46-59 | a passing guard means each listed record is present or absent, and equal, exactly as it was read |
| Store.DeltaWriteEqualsFullWrite | service/sharddistributor/store/store.go:53-58 | under the guard, writing only the changed executors leaves the same assignments as writing all listed ones |
| Store.GuardedAssignIsApply | service/sharddistributor/store/etcd/executorstore/etcdstore.go:459-569 | a request with nothing to write makes no transaction, yet leaves the records the transaction would |
| Store.AssignShardsEffects | service/sharddistributor/store/etcd/executorstore/etcdstore.go:459-569 | a conflict changes nothing and means lost leadership or a listed executor whose record moved; a commit gives each changed executor its listed shards under a new revision, removes deleted executors with their heartbeats, and leaves everyone else |
| Planner.DedupeShardIDs | service/sharddistributor/loadbalancer/loadbalancer.go:43-54 | same elements, none twice, in order of first occurrence |
| Planner.ChooseExecutor | service/sharddistributor/loadbalancer/strategy/greedy/placement.go:61-72 | the minimum by load, then shard count, then identifier, each tie broken by the next; none exactly when there are no executors |
| Planner.PrecedesTotal | service/sharddistributor/loadbalancer/strategy/greedy/placement.go:65-72 | that order is total and antisymmetric, so the choice does not depend on iteration order |
| Planner.InOrderExactly | service/sharddistributor/loadbalancer/strategy/greedy/placement.go:65-72 | identifiers are ordered as strings: a prefix first, else by the first differing character |
| Planner.ChooseExecutorAndUpdateLoads | service/sharddistributor/loadbalancer/strategy/greedy/placement.go:61-78 | extends a batch in which every placement went to the least executor of its turn, with loads kept in step |
| Planner.BalancedStep | service/sharddistributor/loadbalancer/strategy/greedy/placement.go:61-78 | choosing a least-loaded executor keeps the batch balanced |
| Planner.LeastChoicesBalance | service/sharddistributor/loadbalancer/strategy/greedy/placement.go:18-33 | a batch of least choices leaves each executor that received something at most one average shard above any other |
| Planner.AverageMeasuredShardLoad | service/sharddistributor/loadbalancer/strategy/greedy/load.go:7-27 | the average times the number of measured loads is their sum, in whatever order they are visited; zero when nothing is measured |
| Planner.AverageIsNonNegative | service/sharddistributor/loadbalancer/strategy/greedy/load.go:7-27 | non-negative loads have a non-negative average |
| Planner.ExecutorLoads | service/sharddistributor/loadbalancer/strategy/greedy/placement.go:35-59 | exactly the active executors on hosts that are not drained start, each with the number of its shards and the loads they reported plus one average per shard that never did; all zero in naive mode |
| Planner.StartingLoadExactly | service/sharddistributor/loadbalancer/strategy/greedy/placement.go:35-59 | the same for the loads the plans are judged by |
| Planner.SilentExecutorLoad | service/sharddistributor/loadbalancer/strategy/greedy/load.go:31-41 | an executor whose shards never reported starts at its number of shards times the average |
| Planner.UniformLoads | service/sharddistributor/loadbalancer/strategy/greedy/load.go:7-41 | when all reports say x, the average is x and every executor starts at its number of shards times x |
| Planner.PlansBalance | service/sharddistributor/loadbalancer/strategy/greedy/placement.go:18-33 | so for non-negative measured loads every plan is balanced, with no condition on the average |
| Planner.PlaceEach | service/sharddistributor/loadbalancer/strategy/naive/placement.go:13-28 | one placement per shard in order, each to the executor least at its turn; an error exactly when shards but no executors |
| Planner.PlanInitialPlacement | service/sharddistributor/loadbalancer/loadbalancer.go:24-40 | exactly one placement per distinct requested shard, on active executors with undrained hosts, each the least at its turn starting from the loads the state implies; both error cases exactly |
| Assigner.ShardOwners | service/sharddistributor/store/state.go:181-189 | maps exactly the held shards, each to an executor holding it |
| Assigner.ResolveOwners | service/sharddistributor/ephemeralassigner/assigner.go:219-233 | splits the requested keys into drained, owned (with an owner) and to be placed, both directions |
| Assigner.PlacementsByExecutor | service/sharddistributor/ephemeralassigner/assigner.go:303-309 | groups the placements by receiving executor, neither losing nor adding one |
| Assigner.NamespaceState.MergePlacements | service/sharddistributor/ephemeralassigner/assigner.go:239-260 | the in-place edit yields the merged assignments and marks exactly the receivers as changed |
| Assigner.MergedHolds | service/sharddistributor/ephemeralassigner/assigner.go:239-260 | after the merge an executor holds a shard exactly when it did before or the plan places it there |
| Assigner.CommitRequestIsDelta | service/sharddistributor/ephemeralassigner/assigner.go:174-180 | the request lists every executor read and every receiver with the revision read, and leaves unchanged ones as read |
| Assigner.CommitHolds | service/sharddistributor/ephemeralassigner/assigner.go:174-180 | a guarded commit adds exactly the planned placements to whatever the store holds at that moment |
| Assigner.ReceiverRecord | service/sharddistributor/ephemeralassigner/assigner.go:239-260 | after the commit a receiver has the shards it had at that moment and the placed ones, ready, stamped with the time and the new revision |
| Assigner.BystanderRecord | service/sharddistributor/ephemeralassigner/assigner.go:174-180 | every other record is untouched |
| Assigner.FetchExecutorMetadata | service/sharddistributor/ephemeralassigner/assigner.go:265-278 | one cache entry per owning executor; fails only when an owner is unknown to the cache |
| Assigner.BuildResults | service/sharddistributor/ephemeralassigner/assigner.go:284-300 | a response for exactly the requested keys with an owner, carrying that owner |
| Assigner.PlanKeys | service/sharddistributor/ephemeralassigner/assigner.go:168-172 | a plan places exactly the keys to place, once each; none exactly for an unsupported mode or without an active executor on an undrained host |
| Assigner.PlaceAndCommit | service/sharddistributor/ephemeralassigner/assigner.go:168-194 | a write happens exactly when there is a plan, the write is not lost and the guard holds, and is then the guarded commit of that plan; a version conflict is reported exactly for a plan whose guard failed |
| Assigner.OwnersAreCommitted | service/sharddistributor/ephemeralassigner/assigner.go:191-193 | owners resolved before the commit and owners planned in it are all owners in the committed state |
| Assigner.AnswerBatch | service/sharddistributor/ephemeralassigner/assigner.go:196-201 | given resolved owners, every requested key is answered with its owner, in this namespace with the metadata the cache has for it, or as drained; an error exactly when an owner is unknown to the cache |
| Assigner.TryAssign | service/sharddistributor/ephemeralassigner/assigner.go:160-202 | what is placed was asked for, unheld, not drained, and goes to the least-loaded active executor on an undrained host at its turn; it writes exactly when that commit passes, reports a conflict exactly when it fails, and a success answers each key with an owner in the committed (or read) state, or as drained exactly when drained in the state read |
| Leader.PartitionPlace | service/sharddistributor/leader/process/processor.go:720-724 | appending a shard that is nowhere keeps every available shard in exactly one place |
| Leader.PartitionTake | service/sharddistributor/leader/process/processor.go:736-738 | taking a shard off one executor keeps the others in exactly one place |
| Leader.FindShardsToReassign | service/sharddistributor/leader/process/processor.go:645-685 | every available shard ends in exactly one place, and an executor keeps one exactly when it is assignable and the first in iteration order to hold it |
| Leader.SortExecutor | service/sharddistributor/leader/process/processor.go:666-679 | one executor of the loop: kept if assignable and not held by anyone before it, else set aside |
| Leader.StolenStep | service/sharddistributor/leader/process/processor.go:906-907 | closed form for how often the round-robin has hit each donor |
| Leader.ShareFits | service/sharddistributor/leader/process/processor.go:901 | rounding the even share down leaves the donors enough for all the empty executors |
| Leader.StealBounds | service/sharddistributor/leader/process/processor.go:903-914 | no steal meets an empty list, and no donor falls below the share |
| Leader.ClassifyExecutors | service/sharddistributor/leader/process/processor.go:868-887 | splits executors into empty and donors, with the true minimum and counts |
| Leader.StealNext | service/sharddistributor/leader/process/processor.go:905-912 | one steal keeps the partition and all list lengths as predicted |
| Leader.StealRound | service/sharddistributor/leader/process/processor.go:904-914 | one round gives every empty executor one more shard |
| Leader.StealShares | service/sharddistributor/leader/process/processor.go:903-914 | after all rounds empties hold exactly the share, donors at least the share and the end of the list they had, nothing lost or duplicated |
| Leader.AssignShardsToEmptyExecutors | service/sharddistributor/leader/process/processor.go:867-917 | acts exactly when there are both empty and non-empty executors, with the share the minimum load implies, conserving all shards |
| Leader.DealtEvenly | service/sharddistributor/leader/process/processor.go:719-724 | dealing in turn from any start gives any two executors gains that differ by at most one |
| Leader.UpdateAssignments | service/sharddistributor/leader/process/processor.go:714-727 | the n-th deferred shard goes to executor start + n, around and around; nothing else moves, and each executor gains its round-robin count |
| Leader.SourceExactlyWhenFits | service/sharddistributor/leader/process/processor.go:731-734 | a move finds its shard exactly when the earlier moves left it at that source |
| Leader.ApplyMove | service/sharddistributor/leader/process/processor.go:731-738 | swap-with-last removal and append move exactly one shard; fails exactly when the source lacks it |
| Leader.ApplyMoves | service/sharddistributor/leader/process/processor.go:729-741 | every shard ends where its last move sends it, on a new entry if need be; an error exactly when some move does not fit |
| Leader.SwapRemove | service/sharddistributor/leader/process/processor.go:736-737 | overwriting with the last element and truncating removes just that element |
| LeaderCommit.Rebalance | service/sharddistributor/leader/process/processor.go:420-525 | fixed or ephemeral: exactly the active executors on undrained hosts that are not stale get shards, a shard is on one of them exactly when it is a given one (fixed) or held and not finished (ephemeral), and not drained; the commit is skipped exactly when the guard, stated on the state read, holds, and never after a finished shard, a stale executor or a move |
| LeaderCommit.AvailableExactly | service/sharddistributor/leader/process/processor.go:919-935 | which shards remain: given or held, not finished, not drained |
| LeaderCommit.Redistribute | service/sharddistributor/leader/process/processor.go:462-496 | first holders keep, executors that kept nothing get an equal share off the front of the others' lists, the rest is dealt in turn, and the moves are applied, an error exactly when one does not fit; available shards are conserved, and a shift is reported exactly when there are moves, some shard is not kept, or some but not all executors kept nothing |
| LeaderCommit.KeptDecides | service/sharddistributor/leader/process/processor.go:645-685 | first holders alone decide whether anything is reassigned and whether anyone is fed |
| LeaderCommit.RebalanceOnce | service/sharddistributor/leader/process/processor.go:420-525 | plan, then skip or commit against whatever the store then is: one owner per shard afterwards exactly when the commit lands with harmless unlisted executors, or nothing lands and there was one; on an undisturbed store under leadership, exactly when there was one or the guard does not skip |
| LeaderCommit.SkipExactlyWhen | service/sharddistributor/leader/process/processor.go:501-511 | for any arguments and both kinds: skipped exactly when nothing is finished, stale or moved, all holders can take shards and hold nothing drained, all that remains is held, and nothing remains or each executor that can take shards is the first to hold a remaining one |
| LeaderCommit.EphemeralSkipExactlyWhen | service/sharddistributor/leader/process/processor.go:501-511 | the same for an ephemeral namespace with nothing else to do, in terms of who holds what |
| LeaderCommit.SkippedInEveryOrderExactlyWhen | service/sharddistributor/leader/process/processor.go:501-511 | skipped in every iteration order exactly when, besides, nothing is held or each assignable executor has a shard of its own |
| LeaderCommit.DoubleOwnerIsLeft | service/sharddistributor/leader/process/processor.go:501-511 | a doubly owned state that every rebalance skips, in any iteration order |
| LeaderCommit.OnlySharedIsRepaired | service/sharddistributor/leader/process/processor.go:501-511 | the same two owners without shards of their own are never skipped |
| LeaderCommit.BuildHandoverStats | service/sharddistributor/leader/process/processor.go:808-857 | reports exactly the undrained shards whose previous owner is another executor that still heartbeats, with its last heartbeat, as graceful exactly when its status is draining or drained or its host is drained |
| LeaderCommit.HandedOverOnce | service/sharddistributor/leader/process/processor.go:808-857 | over a whole plan, a shard is reported by at most one record, that of its new owner, and exactly when it changed hands from an executor still known; from an active one as an emergency exactly when that could still take shards |
| LeaderCommit.BuildNewRecord | service/sharddistributor/leader/process/processor.go:755-780 | a record with the same shards is kept with its revision and time, any other is replaced and marked changed; with the handovers to this executor |
| LeaderCommit.BuildNewAssignmentsState | service/sharddistributor/leader/process/processor.go:744-793 | the loops build the request that keeps, replaces and empties records, with exactly the changed ones marked |
| LeaderCommit.LeaderRequestIsDelta | service/sharddistributor/leader/process/processor.go:744-793 | every listed record carries the revision read, and unmarked ones are as read |
| LeaderCommit.PlannedRecord | service/sharddistributor/leader/process/processor.go:755-780 | after the commit a planned executor has exactly the planned shards, all ready, in its old record if that had them, else stamped with the time and the new revision |
| LeaderCommit.OtherRecord | service/sharddistributor/leader/process/processor.go:782-793 | a cleared executor has an empty stamped record, a stale one neither record nor heartbeat, any other its own record |
| LeaderCommit.LeaderCommitHolds | service/sharddistributor/leader/process/processor.go:521-525 | ownership after the commit is the plan on planned executors and the store's current word elsewhere |
| LeaderCommit.LeaderCommitUniqueExactlyWhen | service/sharddistributor/leader/process/processor.go:521-525 | a leader commit leaves one owner per shard if and only if the executors it did not list hold nothing twice and nothing it hands out, however many owners there were |
| LeaderCommit.AssignShardsUniqueExactlyWhen | service/sharddistributor/leader/process/processor.go:521-525 | the same for the storage call, also when it has nothing to write |
| LeaderCommit.UndisturbedIsHarmless | service/sharddistributor/leader/process/processor.go:521-525 | without writes in between the guard holds and nobody who holds anything is unlisted |
| LeaderCommit.PlannedShardIsHeldByListed | service/sharddistributor/leader/process/processor.go:922-932 | in an ephemeral namespace, a shard the plan hands out is still held by a guarded executor when the commit lands |
| LeaderCommit.LeaderCommitKeepsUnique | service/sharddistributor/leader/process/processor.go:521-525 | a leader commit in an ephemeral namespace never gives a shard a second owner, with no condition on unlisted executors |
| LeaderCommit.LeaderCommitConserves | service/sharddistributor/leader/process/processor.go:919-935 | after the commit a planned executor owns a shard exactly when it remains: given or held, not finished, not drained |
| Protocol.StepKeepsConsistent | service/sharddistributor/ephemeralassigner/assigner.go:160-202 | in every step, what each process remembers stays a past state with a valid plan for it |
| Protocol.CoveredCommitSeesPlannedState | service/sharddistributor/store/store.go:53-58 | a covered commit that passes finds exactly the assignments it was planned from |
| Protocol.CommitKeepsUniqueExactlyWhen | service/sharddistributor/ephemeralassigner/assigner.go:174-180 | a passing commit keeps ownership unique if and only if no unguarded executor holds a shard it places |
| Protocol.StepKeepsUniqueExactlyWhen | service/sharddistributor/ephemeralassigner/assigner.go:174-180 | every kind of step keeps ownership unique, except exactly a commit violating that condition |
| Protocol.RunIsUniqueExactlyWhen | service/sharddistributor/ephemeralassigner/assigner.go:160-202 | a whole run has one owner per shard throughout if and only if all its assigner commits meet the condition |
| Protocol.RunKeepsUnique | service/sharddistributor/ephemeralassigner/assigner.go:160-202 | one owner per shard throughout every run whose assigner commits list every record present |
| Protocol.FixedFleetIsCovered | service/sharddistributor/store/etcd/executorstore/etcdstore.go:217-273 | when no executor gains its first record during the run, every commit lists every record |
| Protocol.FixedFleetKeepsUnique | service/sharddistributor/ephemeralassigner/assigner.go:160-202 | hence one owner per shard throughout, from any initial state |
| Protocol.FleetAddsNoRecord | service/sharddistributor/store/etcd/executorstore/etcdstore.go:459-569 | while only executors that have a record heartbeat, no commit of anyone adds a record |
| Protocol.ProvisionedFleetIsFixed | service/sharddistributor/store/etcd/executorstore/etcdstore.go:217-273 | so no run of a fleet that only shrinks adds one, whatever assigners and leaders do |
| Protocol.ProvisionedFleetKeepsUnique | service/sharddistributor/ephemeralassigner/assigner.go:160-202 | hence one owner per shard throughout such a run, from a condition on heartbeats alone |
| Protocol.CommitOnFreshExecutor | service/sharddistributor/store/etcd/executorstore/etcdstore.go:459-569 | placing on an executor without a record passes the guard whatever other executors gained meanwhile |
| Protocol.TwoOwnersRun | service/sharddistributor/ephemeralassigner/assigner.go:174-180 | a run of two assigners from a unique state that ends with two owners of one shard |
| Protocol.TwoOwnersPlansAreLeast | service/sharddistributor/loadbalancer/strategy/naive/placement.go:13-28 | both plans of that run are the ones the planner makes |
| Protocol.CommitStepWrites | service/sharddistributor/ephemeralassigner/assigner.go:174-180 | the commit step of a planned process is the write of an attempt with that plan |
| Protocol.LeaderStepWrites | service/sharddistributor/leader/process/processor.go:521-525 | the leader's step changes the records exactly by its request, and only with the leadership and a passing guard |
| Protocol.NextAttemptReadsAfresh | service/sharddistributor/ephemeralassigner/assigner.go:160-164 | however an attempt ends, the next of the same process can start and reads the store as it is then |
| PubSub.ExecutorStatePubSub.Subscribe | service/sharddistributor/cache/pubsub.go:32-45 | is the subscribe step of the watch system and keeps its wake-up invariant: the newcomer has an empty channel and still has to read, every other channel is as it was |
| PubSub.ExecutorStatePubSub.Unsubscribe | service/sharddistributor/cache/pubsub.go:47-51 | is the leave step, or nothing when already gone; keeps the invariant and every other channel |
| PubSub.ExecutorStatePubSub.Receive | service/sharddistributor/handler/handler.go:332-338 | taking a notification is the receive step and keeps the invariant |
| PubSub.ExecutorStatePubSub.QuietMeansCurrent | service/sharddistributor/handler/handler.go:303-341 | for the channels themselves: empty, waiting and owed nothing means the snapshot the cache shows was sent |
| PubSub.ExecutorStatePubSub.NotifyOneSubscriber | service/sharddistributor/cache/pubsub.go:58-63 | the non-blocking send to one subscriber is one notification step |
| PubSub.ExecutorStatePubSub.NotifySubscribers | service/sharddistributor/cache/pubsub.go:54-64 | is a run of the refresher's notification steps: afterwards it owes nobody, every channel holds exactly one notification, and the invariant holds |
| Watch.OwedAfter | service/sharddistributor/cache/pubsub.go:54-64 | a notification owed to a watcher stays owed until it is in its channel |
| Watch.StepKeepsInvariant | service/sharddistributor/handler/handler.go:303-341 | a watcher whose last snapshot is not the one shown always has a notification pending or owed, and sends snapshots in order of revision |
| Watch.RunKeepsInvariant | service/sharddistributor/handler/handler.go:303-341 | the same over every run |
| Watch.NoLostUpdate | service/sharddistributor/handler/handler.go:303-341 | a watcher waiting with an empty channel and nothing owed has sent the newest of all snapshots applied; sent revisions never decrease |
| Watch.WakeUpCatchesUp | service/sharddistributor/handler/handler.go:289-301 | receiving, reading and sending is always possible and sends exactly the newest snapshot applied |
| Watch.WriteReachesWatcher | service/sharddistributor/handler/handler.go:303-341 | from any reachable state with an idle refresher and a waiting watcher, the next write can be fetched, applied and notified, and the watcher then sends exactly its snapshot |
| Watch.FailedFetchIsRetried | service/sharddistributor/cache/namespaceshardcache.go:233-237 | a refresher whose fetch failed can fetch again, and the cache is as it was |
| Watch.ApplyingMovesOn | service/sharddistributor/cache/namespaceshardcache.go:303-329 | applying a snapshot leaves what is shown alone, or shows it and makes the refresher owe everyone a notification |
| Streams.Refresh | service/sharddistributor/cache/namespaceshardcache.go:233-243 | cache and channels stay in step with the watch system; notifies every stream exactly when the revision advanced, and then owes nobody |
| Streams.SendWatchResponse | service/sharddistributor/handler/handler.go:289-301 | the response describes exactly the snapshot recorded as sent, the newest applied |
| Streams.OnNotification | service/sharddistributor/handler/handler.go:332-338 | a wake-up empties the channel and sends the newest snapshot |
| Streams.QuietStreamIsCurrent | service/sharddistributor/handler/handler.go:303-341 | a waiting stream with an empty channel and nothing owed last sent what the cache shows, and no snapshot ever offered is newer |
| BatcherSpec.AnswerAllFills | service/sharddistributor/ephemeralassigner/batcher.go:217-223 | delivering a stretch of requests appends one answer to exactly their channels |
| BatcherSpec.AnsweringKeepsBooks | service/sharddistributor/ephemeralassigner/batcher.go:217-223 | answering the oldest outstanding requests keeps "answered once or outstanding and unanswered" |
| BatcherSpec.DeliveringKeepsAccounts | service/sharddistributor/ephemeralassigner/batcher.go:169-171 | delivering a batch answers each member from a batch that contained its key |
| BatcherSpec.ShutdownKeepsAccounts | service/sharddistributor/ephemeralassigner/batcher.go:247-267 | shutdown keeps the accounting: flush in flight delivered, the rest cancelled once |
| BatcherSpec.FlushKeepsAccounts | service/sharddistributor/ephemeralassigner/batcher.go:164-175 | starting and finishing a flush loses and overwrites no batch |
| BatcherSpec.StepKeepsAccounts | service/sharddistributor/ephemeralassigner/batcher.go:147-182 | every event keeps the accounting |
| BatcherSpec.StepKeepsLoopOk | service/sharddistributor/ephemeralassigner/batcher.go:145-197 | every event keeps: one flush at a time, a timer or token exactly while scheduled (until cancelled), scheduled only with pending and no flush, pending never unscheduled |
| BatcherSpec.InvariantConserves | service/sharddistributor/ephemeralassigner/batcher.go:121-267 | the invariant means each request is answered at most once, unanswered exactly while held, and answered from a batch with its key |
| BatcherSpec.RunKeepsInvariant | service/sharddistributor/ephemeralassigner/batcher.go:147-182 | both, over every run |
| BatcherSpec.Conservation | service/sharddistributor/ephemeralassigner/batcher.go:121-267 | in every run each request has at most one response ever written, none exactly while it is held, and exactly one if the stopped loop had taken it |
| BatcherSpec.AnswersMean | service/sharddistributor/ephemeralassigner/batcher.go:226-245 | in every run an answer from a failed batch is that batch's error, an owner is the one its batch has for a key that is not drained, and a drained key gets the drained error |
| Api.BatchResponseSettles | service/sharddistributor/ephemeralassigner/batcher.go:226-245 | those conditions leave exactly one response |
| BatcherSpec.ShutdownAnswersAll | service/sharddistributor/ephemeralassigner/batcher.go:247-267 | from any state not yet stopped there is a run that stops the batcher with every request ever submitted answered once, whatever its flush in flight comes to |
| BatcherSpec.LateRequestIsReleasedByContextOnly | service/sharddistributor/ephemeralassigner/batcher.go:135-142 | in every continuation the only ready branches of a late submitter's select are the batcher's cancelled context and the caller's own, and the first always is |
| BatcherSpec.EverythingTakenIsAnswered | service/sharddistributor/ephemeralassigner/batcher.go:147-182 | from any running state a fixed number of timer and flush events answers everything taken |
| Batcher.ShardBatcher.Submit | service/sharddistributor/ephemeralassigner/batcher.go:121-133 | the first select: either the request is enqueued, or nothing changes and a context has ended; the invariant is kept |
| Batcher.ShardBatcher.Await | service/sharddistributor/ephemeralassigner/batcher.go:135-142 | the second select ends with a ready branch; a response handed out is the only one ever written for the request: the error of a failed batch, the batch's own owner for an undrained key, the drained error, or a cancellation |
| Batcher.ShardBatcher.OnRequest | service/sharddistributor/ephemeralassigner/batcher.go:157-162 | the request case of the loop is the event of that name |
| Batcher.ShardBatcher.OnFlushReady | service/sharddistributor/ephemeralassigner/batcher.go:164-167 | the ready case is the event that starts a flush of all pending keys |
| Batcher.ShardBatcher.BeginFlush | service/sharddistributor/ephemeralassigner/batcher.go:201-214 | the flush gets exactly the in-flight keys in order |
| Batcher.ShardBatcher.DeliverResults | service/sharddistributor/ephemeralassigner/batcher.go:217-223 | the loop gives each in-flight request one more answer that settles its key, and changes no other channel |
| Batcher.ShardBatcher.OnFlushDone | service/sharddistributor/ephemeralassigner/batcher.go:169-175 | the done case delivers and starts the next flush when requests are pending |
| Batcher.ShardBatcher.CancelUnflushed | service/sharddistributor/ephemeralassigner/batcher.go:247-256 | the first half of shutdown delivers the flush in flight, then cancels pending requests |
| Batcher.ShardBatcher.DrainRequest | service/sharddistributor/ephemeralassigner/batcher.go:258-266 | the drain loop cancels the oldest queued request |
| Batcher.ShardBatcher.OnOther | service/sharddistributor/ephemeralassigner/batcher.go:184-214 | what the timer, the flush goroutine and stopping do are the remaining events |
| Batcher.ShardBatcher.Handle | service/sharddistributor/ephemeralassigner/batcher.go:147-182 | whatever happens next, the code does what the machine does and keeps its invariant |
| Batcher.ShardBatcher.Loop | service/sharddistributor/ephemeralassigner/batcher.go:147-182 | over any interleaving the code reaches the machine's state, and every request of the object is conserved |
| Flush.MakeAttempt | service/sharddistributor/ephemeralassigner/assigner.go:160-202 | one attempt as the retry loop sees it: what it read is a past state of what it met, what it placed was asked for, its answers are about the state committed or read, and losing the race is what it reports as a conflict |
| Flush.AssignEphemeralBatch | service/sharddistributor/ephemeralassigner/assigner.go:135-158 | the retry loop around the attempts: at most four, only the last can have changed the store, earlier ones lost a version race; a lost race is the end exactly at the fourth, on cancellation, or with less than 50ms of the minute left; success answers from the last attempt |
| Flush.RetryConflicts | service/sharddistributor/ephemeralassigner/assigner.go:138-156 | retries exactly while it may, waiting between four fifths and the whole of 50ms doubled each time, or of what is left of the minute |
| EndToEnd.EarlierIsPast | service/sharddistributor/store/etcd/executorstore/etcdstore.go:217-273 | any state of a history is a past state of every later one |
| EndToEnd.FlushInHistory | service/sharddistributor/ephemeralassigner/assigner.go:135-158 | a flush whose attempts read and meet states of a history is a flush of the log, and has happened in that history when its writes are steps of it |
| EndToEnd.CommittedStateIsNext | service/sharddistributor/ephemeralassigner/assigner.go:174-180 | what an attempt commits is the next state of the history |
| EndToEnd.FlightAnswers | service/sharddistributor/ephemeralassigner/assigner.go:160-202 | a successful flush decides drained by the state it read and names an owner in the state it committed, both named states of the history |
| EndToEnd.EveryCommitCanServe | service/sharddistributor/ephemeralassigner/assigner.go:174-201 | conversely every passing commit of a process is the write of a flush that can happen |
| EndToEnd.EveryCommitServesSomeone | service/sharddistributor/ephemeralassigner/assigner.go:174-201 | for any passing single-placement commit in any protocol run, a run of batcher and store with that history in which a caller asking for the shard is served by it |
| EndToEnd.MoveKeepsInvariant | service/sharddistributor/ephemeralassigner/batcher.go:147-182 | store steps, batcher events and completions keep every answer traced to a logged flush that read no earlier than the request was made |
| EndToEnd.RunKeepsInvariant | service/sharddistributor/ephemeralassigner/batcher.go:147-182 | the same over every interleaving |
| EndToEnd.CallerLearnsCommittedOwner | service/sharddistributor/ephemeralassigner/batcher.go:226-245 | a caller of a successful batch has one answer: drained exactly when drained in the state its flush read, else the batch's own response for its key, an owner in a state of the history at or after its call, and the only one when ownership is unique throughout; the missing-result error is unreachable |
| EndToEnd.CallerLearnsTheError | service/sharddistributor/ephemeralassigner/batcher.go:226-229 | a caller of a failed batch has one answer too: the error of that batch, traced to its only attempt, or a version conflict after several |
| EndToEnd.CallIsTimed | service/sharddistributor/ephemeralassigner/batcher.go:121-133 | the position kept for a call is that of the history when it was made, for good |
| EndToEnd.SameBatchSameAnswer | service/sharddistributor/ephemeralassigner/batcher.go:226-245 | callers with the same key in one batch get the same answer, from one shared log entry |
| Cache.IndexesAgree | service/sharddistributor/cache/namespaceshardcache.go:278-329 | with unique ownership the shard and executor indexes are inverse, owners are keyed by their own identifier and distinct, and both equal the flattened assignments |
| Cache.ViewExactly | service/sharddistributor/cache/namespaceshardcache.go:278-301 | all five structures in the snapshot's own terms: owners with the metadata stored for them, shards on a holder, lists of what is held, revisions of the records, drained shards |
| Cache.NewestIsHighest | service/sharddistributor/cache/namespaceshardcache.go:303-329 | the snapshot shown is the first of the highest revision among all ever offered, in any order |
| Cache.NewestOnlyAdvances | service/sharddistributor/cache/namespaceshardcache.go:303-329 | the revision shown never decreases |
| Cache.BuildView | service/sharddistributor/cache/namespaceshardcache.go:278-301 | the loops build all five structures of one snapshot |
| Cache.AddExecutor | service/sharddistributor/cache/namespaceshardcache.go:284-298 | one iteration extends the structures by one executor |
| Cache.ShardList | service/sharddistributor/cache/namespaceshardcache.go:288-292 | an executor's list has each of its shards once |
| Cache.ShardCache.ReplaceNamespaceState | service/sharddistributor/cache/namespaceshardcache.go:303-329 | after any history the contents are the view of the newest snapshot; reports an update exactly when the revision advanced |
| Cache.ShardCache.ApplyNamespaceState | service/sharddistributor/cache/namespaceshardcache.go:278-301 | the same, starting from a raw snapshot |
| Cache.ShardCache.RefreshSingleFlight | service/sharddistributor/cache/namespaceshardcache.go:373-384 | a successful flight, own, joined or joined after it applied its snapshot, has reached the cache when the call returns |
| Cache.ShardCache.IsShardDrained | service/sharddistributor/cache/namespaceshardcache.go:133-154 | the answer is membership in one applied snapshot's drained set, never that of an unloaded cache |
| Cache.ShardCache.FindAnswers | service/sharddistributor/cache/namespaceshardcache.go:346-352 | a lookup under the lock is right about the newest snapshot, for hits and misses, in either index |
| Cache.ShardCache.RefreshAndFind | service/sharddistributor/cache/namespaceshardcache.go:355-364 | after a miss the answer is right about a state reached once this call's own refresh completed |
| Cache.ShardCache.GetShardOwnerInMap | service/sharddistributor/cache/namespaceshardcache.go:346-365 | a hit is right about one applied snapshot; a miss is right about one applied after the refresh this call made had completed |
| Cache.ShardCache.GetShardOwner | service/sharddistributor/cache/namespaceshardcache.go:112-130 | the owner holds the shard in one applied snapshot and carries the metadata it has there, the drained check is from one no newer, and not-found, true of that snapshot, only when the refresh made after the miss completed within the call |
| Cache.ShardCache.GetExecutor | service/sharddistributor/cache/namespaceshardcache.go:156-166 | found exactly when the snapshot has the executor, with its identifier and metadata; unknown only when the refresh made after the miss completed within the call |
| Cache.ShardCache.GetShardAssignments | service/sharddistributor/cache/namespaceshardcache.go:252-265 | the shards of each owner and the drained shards, all of the one snapshot shown |
| Histogram.TwoStepsAreOne | common/metrics/histograms.go:267-274 | two steps at one scale are one step at the scale below, exactly |
| Histogram.CoarseBoundaryIsFine | common/metrics/histograms.go:104-147 | every boundary at a scale is a boundary at every finer scale |
| Histogram.RowStartsAreExact | common/metrics/histograms.go:267-274 | every 2^scale-th boundary is the start times a power of two, with no rounding |
| Histogram.BoundariesNeverDecrease | common/metrics/histograms.go:267-274 | boundaries are in order for every start and scale |
| Histogram.DistinctExactlyWhen | common/metrics/histograms.go:65-67 | all neighbouring boundaries differ from start 1, 3, 6, 12 on (scales 0 to 3); below that the first two coincide |
| Histogram.StrictFromThreshold | common/metrics/histograms.go:65-67 | strict order at every index from the threshold on |
| Histogram.CoincideBelowThreshold | common/metrics/histograms.go:65-67 | a duplicate boundary for every smaller start |
| Histogram.MakeSubsettableHistogram | common/metrics/histograms.go:200-260 | accepts exactly the documented arguments and then holds exactly the boundaries of its scale |
| Histogram.HalveBuckets | common/metrics/histograms.go:133-144 | keeps the zero bucket, every other boundary and the last |
| Histogram.HalvedList | common/metrics/histograms.go:104-147 | halving the list of one scale gives the list of the scale below |
| Histogram.SubsetTo | common/metrics/histograms.go:104-147 | for a constructed histogram no bucket-count panic is reachable and the result is the list built directly at the lower scale |
| Histogram.SubsetLength | common/metrics/histograms.go:200-260 | full rows mean the length divides by 2^(scale difference) exactly |
| Histogram.MakeThenSubset | common/metrics/histograms.go:104-147 | for every histogram the constructor accepts and every lower scale, the list built directly there with the length divided by 2^(difference) |
| Histogram.CountsTelescope | common/metrics/histograms.go:104-147 | counts of consecutive buckets add up to the count between their ends |
| Histogram.MergingCountsLosesNothing | common/metrics/histograms.go:104-147 | a coarse bucket counts exactly what its fine buckets count together |
| Backoff.JitterRange | common/backoff/retrypolicy.go:186-194 | the jittered delay lies between four fifths of the interval, rounded down, and the interval |
| Backoff.PowerAdds | common/backoff/retrypolicy.go:166 | the growth factor is repeated multiplication by the coefficient: exponents add |
| Backoff.ExhaustedExactlyWhen | common/backoff/retrypolicy.go:155-184 | for a whole coefficient, exactly why a policy gives up, in whole nanoseconds |
| Backoff.DelaysExactly | common/backoff/retrypolicy.go:155-195 | for a whole coefficient, the delays over all draws are exactly the whole numbers from four fifths of min(initial * b^attempt, maximum, remaining) on, a fifth of it many; none when it gives up |
| Backoff.DelayGrows | common/backoff/retrypolicy.go:164-195 | so each delay lies between four fifths of that grown and limited interval, rounded down, and the interval |
| Backoff.DelayBounds | common/backoff/retrypolicy.go:155-195 | a delay never passes the expiration, and respects a set maximum interval exactly when that is not negative |
| Backoff.TooShortExactly | common/backoff/retrypolicy.go:171-184 | the three reasons an interval falls below the initial one, both directions |
| Backoff.DoneIsAbsorbing | common/backoff/retrypolicy.go:155-195 | with a monotone clock and positive coefficient, giving up is final until a reset |
| Backoff.DelaysAreBounded | common/backoff/retrypolicy.go:155-195 | a caller that sleeps as told gets at most expiration / (0.8 initial) + 1 delays |
| Backoff.BoundedExactlyWhen | common/backoff/retrypolicy.go:155-195 | with an expiration and no attempt limit the number of delays is bounded exactly when the policy is not a growing one-nanosecond policy |
| Backoff.StallingRun | common/backoff/retrypolicy.go:155-195 | such a policy has runs of any length, with zero delays |
| Backoff.Retrier.Reset | common/backoff/retrypolicy.go:211-214 | restarts the clock and the attempt count |
| Backoff.Retrier.NextBackOff | common/backoff/retrypolicy.go:217-223 | the policy's delay for this attempt, and one attempt used |
| RefreshLoop.JitterBelowUpperEnd | common/backoff/jitter.go:36-45 | the documented exclusive upper end always holds |
| RefreshLoop.JitterExactly | common/backoff/jitter.go:36-45 | exactly the numbers from the lower end, rounded down, to as far above the input can be drawn |
| RefreshLoop.LowerEndExactlyWhen | common/backoff/jitter.go:36-45 | the documented inclusive lower end holds for every draw exactly when it is a whole number |
| RefreshLoop.LowerEndCanFail | common/backoff/jitter.go:36-45 | half a jitter around 1 can give 0 |
| RefreshLoop.ReconcileDelayRange | common/backoff/jitter.go:29-45 | after a success the wait is in [8s, 12s) |
| RefreshLoop.ReconcileDelayExactly | common/backoff/jitter.go:29-45 | and every wait in that range can occur |
| RefreshLoop.RetryNeverGivesUp | service/sharddistributor/cache/namespaceshardcache.go:173-178 | for any number of failures and any elapsed time the retry delay is in [8ms, 1s] and never "done" |
| RefreshLoop.RetryRange | service/sharddistributor/cache/namespaceshardcache.go:173-178 | after k failures the retry delay is between four fifths and the whole of min(10ms * 2^k, 1s), so in [800ms, 1s] from the seventh on |
| RefreshLoop.GrownToMaximum | service/sharddistributor/cache/namespaceshardcache.go:173-178 | the maximum is reached exactly from seven earlier failures on |
| RefreshLoop.NextDelay | service/sharddistributor/cache/namespaceshardcache.go:214-231 | both ranges, the retry delay grown by the failures so far, with the retrier reset or advanced |
| RefreshLoop.NamespaceRefreshLoop | service/sharddistributor/cache/namespaceshardcache.go:180-211 | the loop ends exactly on stop or a closed channel; every wait is in the range its last refresh allows, doubling with each failure in a row |
| Retry.SleepFor | common/backoff/retry.go:208-214 | the policy's own delay, or after a throttle error that the throttle policy has a delay for the larger of the two; one throttle attempt used exactly for a throttle error |
| Retry.AfterFailure | common/backoff/retry.go:191-223 | stops exactly on a non-retryable error, an exhausted policy or a cancelled wait; otherwise the wait is the longer delay and both attempt counts move as they should |
| Retry.RetriesAreCounted | common/backoff/retry.go:201-206 | each retry uses one attempt |
| Retry.Do | common/backoff/retry.go:171-225 | for any policies: succeeds exactly when its last call did; every earlier call failed with a retryable error, before cancellation and within the policy, and was waited for as the two policies say; gives up only for one of those three reasons; the earlier error is preferred |
| Retry.SleepAfterWaits | common/backoff/retry.go:208-214 | the throttle policy is asked with the number of earlier throttle errors |
| Retry.RetryOrStop | common/backoff/retry.go:191-223 | one iteration: stop, or one more wait with both retriers in step |
| Retry.ExpirationBoundsRetries | common/backoff/retry.go:171-225 | without an attempt limit, a loop that sleeps as decided retries at most expiration + 1 times, unless the policy stalls |
| Retry.DoExponential | common/backoff/retry.go:171-225 | at most maximumAttempts + 1 calls, and at most expiration + 2 when it sleeps as decided |
| DynamicConfig.ParseFilterInverts | common/dynamicconfig/dynamicproperties/filter.go:40-65 | printing undoes parsing on known names, so parsing is injective there |
| DynamicConfig.FilterNameInverts | common/dynamicconfig/dynamicproperties/filter.go:40-65 | parsing undoes printing on known filters |
| DynamicConfig.NamesInFiles | common/dynamicconfig/dynamicproperties/filter.go:40-65 | the names a configuration file uses |
| DynamicConfig.SatisfiesExactlyWhen | common/dynamicconfig/file_based_client.go:316-321 | constraints are met exactly when each known filter named has just the required value and every other name asks for what is filed under the unknown filter |
| DynamicConfig.DifferentValueNeverMatches | common/dynamicconfig/file_based_client.go:318 | one differing value rules a constrained value out |
| DynamicConfig.Match | common/dynamicconfig/file_based_client.go:311-323 | true exactly when there are no more constraints than filters, each known filter named is present with the required value, and every unknown name asks for what is filed under the unknown filter |
| DynamicConfig.Pigeonhole | common/dynamicconfig/dynamicproperties/filter.go:40-65 | distinct known names cannot outnumber the filters they name |
| DynamicConfig.ShortcutHarmlessExactlyWhen | common/dynamicconfig/file_based_client.go:312-314 | the length shortcut changes no result for any constraints exactly when nothing is filed under the unknown filter |
| DynamicConfig.GetValueWithFilters | common/dynamicconfig/file_based_client.go:289-308 | the first matching constrained value, else the last unconstrained one, else the default reported as not found; a value found never differs from a filter it names |
| DynamicConfig.FirstMatchWins | common/dynamicconfig/file_based_client.go:293-303 | the first constrained value that matches is the answer, whatever else there is |
| DynamicConfig.LastDefaultWins | common/dynamicconfig/file_based_client.go:294-299 | without a match the last unconstrained value is |
| DynamicConfig.NotFoundExactlyWhen | common/dynamicconfig/file_based_client.go:304-307 | not-found exactly when there is neither |
| Imbalance.VariationBounds | service/sharddistributor/loadbalancer/imbalance_metrics.go:107-129 | for non-negative loads with positive mean the squared coefficient of variation is in [0, n-1] and zero exactly when all loads are equal |
| Imbalance.VariationClosedForm | service/sharddistributor/loadbalancer/imbalance_metrics.go:107-129 | for any loads the squared coefficient of variation is n Q / S^2 - 1, from their number, sum of squares and sum |
| Imbalance.RootOverMean | service/sharddistributor/loadbalancer/imbalance_metrics.go:122-128 | root of the variance over the mean squares to variance over squared mean, with the mean's sign |
| Imbalance.MaxOverMeanRange | service/sharddistributor/loadbalancer/imbalance_metrics.go:87-105 | the largest load over the mean is between 1 and the number of loads |
| Imbalance.MaxOverMean | service/sharddistributor/loadbalancer/imbalance_metrics.go:87-105 | the largest of the loads and zero over the mean for any loads, that ratio's range for non-negative ones, and zero for no loads or a zero mean |
| Imbalance.CoefficientOfVariation | service/sharddistributor/loadbalancer/imbalance_metrics.go:107-129 | for any square root: a number with the mean's sign whose square is n Q / S^2 - 1, at most n-1 for non-negative loads, and zero exactly when all loads are equal |

## Left out

- Imbalance.CoefficientOfVariation: the square root is a parameter, so what is stated holds for an exact root; rounding of the root is not modelled.
- Assigner.ShardOwners: with two owners in the state the source keeps the last one iterated; the contract allows any holder.
- Cache.IndexesAgree: owner objects are values, so pointer identity between the indexes is value equality.
- Planner.PlanInitialPlacement: which shards have reported, and their smoothed loads, are inputs; the naive strategy is the same loop with all loads zero.
- Planner.AverageMeasuredShardLoad: the nested loops over executors and shards are one loop over the pairs they visit.
- LeaderCommit.Rebalance: deletion of stale executors when nobody is active (an environment step in the protocol) and the strategies that propose moves are not modelled; moves are any whose targets are assignable, and a fixed namespace's shards, the finished shards and the stale executors are any sets.
- LeaderCommit.BuildNewAssignmentsState: handover statistics are computed for each record but not stored in it, since nothing that decides ownership reads them.
- Protocol.ProvisionedFleetKeepsUnique: an executor that joins during the run is outside it; the exact condition is that of `RunIsUniqueExactlyWhen`.
- Flush.AssignEphemeralBatch: what each attempt would do is worked out for every environment given, and the retry loop decides how many are made; a list that ends early is a loop still running.
- EndToEnd.CallerLearnsCommittedOwner: a flush completes with attempts positioned in the history of the store; the order of the flush goroutine's own reads and writes is that order of positions, and its deadline is not modelled.
- Batcher.ShardBatcher.Submit: a select with no ready branch blocks, which is a precondition here; which of several ready branches is taken is left open.
- BatcherSpec.EverythingTakenIsAnswered: progress is stated for the events it names; that the timer and flush goroutines get to run is assumed of the scheduler.
- Backoff.DelayBounds: arithmetic is exact over the reals, so overflow and rounding of floating point numbers are not modelled; this holds for histograms, jitter and imbalance too.
- A claim that a drained shard is never persisted as assigned: the commit does not guard the drained set, so only the statement about the state read is made.
- A claim that a miss sees every write made before the call: it may join a refresh that has already read the store.
- The drain, undrain, heartbeat, deletion and reset transactions appear only as the changes they can make to a namespace.
- Shard statistics updates, executor metadata writes and size limits of the store are not modelled.
- Leader election is a boolean that says whether the leadership guard holds at commit.
- The request handler's choice between cache and assigner, error mapping and fixed namespaces would only add easy branching.
- Smoothed load calculation, which rests on the exponential function, and the multi-phase retry policy.
- Protocol mappers, client wrappers, command line tools, wiring, logging, metrics emission and file loading.
