/** The leader's rebalance: its plan, when its commit is skipped, and what the commit does to shard ownership. */
module LeaderCommit {
  import opened Common
  import opened Store
  import opened Planner
  import opened Leader

  /** A fixed namespace has a given set of shards; an ephemeral one has those that some executor holds. */
  datatype Kind = Fixed(shards: set<ShardId>) | Ephemeral

  /** `stale` executors are deleted and `unassign`ed ones emptied; both map to the record revision that was read. */
  datatype LeaderPlan = LeaderPlan(current: Distribution, stale: map<ExecId, nat>, unassign: map<ExecId, nat>)

  function AllShards(r: Records): set<ShardId> {
    set e, s | e in r && s in r[e].shards :: s
  }

  /** The shards the namespace is to have: a finished shard leaves an ephemeral namespace, a drained one either kind. */
  function Available(kind: Kind, snap: Namespace, deleted: set<ShardId>): set<ShardId> {
    (match kind
     case Fixed(shards) => shards
     case Ephemeral => AllShards(snap.records) - deleted) - snap.drainedShards
  }

  /** What that comes to: in a fixed namespace the given shards, in an ephemeral one those that some executor holds and
      nobody finished, except drained ones in both. */
  ghost predicate Remains(kind: Kind, snap: Namespace, deleted: set<ShardId>, s: ShardId) {
    && s !in snap.drainedShards
    && (kind.Fixed? ==> s in kind.shards)
    && (kind.Ephemeral? ==> s !in deleted && exists e :: Holds(snap.records, e, s))
  }

  lemma AvailableExactly(kind: Kind, snap: Namespace, deleted: set<ShardId>, s: ShardId)
    ensures s in Available(kind, snap, deleted) <==> Remains(kind, snap, deleted, s)
  {
    AllShardsExactly(snap.records, s);
  }

  function ExecutorsToUnassign(snap: Namespace, assignable: set<ExecId>, stale: set<ExecId>): map<ExecId, nat> {
    map e | e in snap.records && snap.records[e].shards != map[] && e !in assignable && e !in stale ::
      snap.records[e].modRevision
  }

  /** What the rebalance produces: the available shards split over the assignable executors, every other holder
      cleared. */
  ghost predicate ValidLeaderPlan(kind: Kind, snap: Namespace, deleted: set<ShardId>, p: LeaderPlan) {
    && Partition(p.current, [], Available(kind, snap, deleted)) && p.current.Keys == Assignable(snap, p.stale.Keys)
    && p.unassign.Keys <= snap.records.Keys
    && p.current.Keys !! p.stale.Keys && p.current.Keys !! p.unassign.Keys && p.stale.Keys !! p.unassign.Keys
    && (forall e :: e in p.stale ==> p.stale[e] == ModRevisionOf(snap, e))
    && (forall e :: e in p.unassign ==> p.unassign[e] == ModRevisionOf(snap, e))
    && (forall e, s :: Holds(snap.records, e, s) ==> e in p.current || e in p.stale || e in p.unassign)
  }

  /** Drained shards that are still on these executors. */
  function DrainedAssigned(snap: Namespace, executors: set<ExecId>): set<ShardId> {
    set e, s | e in executors && e in snap.records && s in snap.records[e].shards && s in snap.drainedShards :: s
  }

  /** Every available shard is first held by an assignable executor, so there is none to reassign. */
  ghost predicate AllKept(r: Records, order: seq<ExecId>, assignable: set<ExecId>, available: set<ShardId>) {
    forall s :: s in available ==> exists e :: e in assignable && FirstHolder(r, order, e, s)
  }

  ghost predicate Keeps(r: Records, order: seq<ExecId>, available: set<ShardId>, e: ExecId) {
    exists s :: s in available && FirstHolder(r, order, e, s)
  }

  /** Some assignable executor keeps a shard and some keeps none, so the latter are fed. */
  ghost predicate SomeAreEmpty(r: Records, order: seq<ExecId>, assignable: set<ExecId>, available: set<ShardId>) {
    && (exists e :: e in assignable && Keeps(r, order, available, e))
    && (exists e :: e in assignable && !Keeps(r, order, available, e))
  }

  /** What is kept decides whether anything is reassigned and whether anyone is fed. */
  lemma KeptDecides(r: Records, order: seq<ExecId>, assignable: set<ExecId>, available: set<ShardId>,
                    toReassign: seq<ShardId>, kept: Distribution)
    requires Partition(kept, toReassign, available) && kept.Keys == assignable
    requires forall e, s :: At(kept, e, s) <==> e in assignable && s in available && FirstHolder(r, order, e, s)
    ensures toReassign == [] <==> AllKept(r, order, assignable, available)
    ensures Donors(kept) != {} && Donors(kept) != kept.Keys <==> SomeAreEmpty(r, order, assignable, available)
  {
    forall s | s in available
      ensures s !in toReassign <==> exists e :: e in assignable && FirstHolder(r, order, e, s)
    {
      assert forall e :: e in assignable && FirstHolder(r, order, e, s) <==> At(kept, e, s);
    }
    if toReassign != [] {
      assert toReassign[0] in toReassign;
    }
    forall e | e in assignable
      ensures e in Donors(kept) <==> Keeps(r, order, available, e)
    {
      DonorKeeps(r, order, assignable, available, kept, e);
    }
  }

  lemma DonorKeeps(r: Records, order: seq<ExecId>, assignable: set<ExecId>, available: set<ShardId>, kept: Distribution,
                   e: ExecId)
    requires e in assignable && kept.Keys == assignable
    requires forall e, s :: At(kept, e, s) <==> e in assignable && s in available && FirstHolder(r, order, e, s)
    ensures e in Donors(kept) <==> Keeps(r, order, available, e)
  {
    assert forall s :: At(kept, e, s) <==> s in available && FirstHolder(r, order, e, s);
    assert kept[e] != [] ==> At(kept, e, kept[e][0]);
  }

  /** The distributions between the passes: what first holders keep, after feeding the empty executors, and after
      spreading the rest; and how many were left to spread. */
  datatype Passes = Passes(kept: Distribution, fed: Distribution, spread: Distribution, rest: nat)

  /** An executor keeps what it is the first to hold. */
  ghost predicate KeepsFirst(kept: Distribution, r: Records, order: seq<ExecId>, assignable: set<ExecId>,
                             available: set<ShardId>) {
    && kept.Keys == assignable
    && forall e, s :: At(kept, e, s) <==> e in assignable && s in available && FirstHolder(r, order, e, s)
  }

  /** Feeding gives every executor that kept nothing the same share, taken from the front of the others' lists, which
      leaves each of them at least as much; it does nothing when all or none kept something. */
  ghost predicate Feeds(kept: Distribution, fed: Distribution) {
    && fed.Keys == kept.Keys
    && if Donors(kept) == {} || Donors(kept) == kept.Keys then fed == kept
       else exists least: nat :: IsLeastLoad(kept, least) && FeedsShare(kept, fed, least * |Donors(kept)| / |kept|)
  }

  ghost predicate FeedsShare(kept: Distribution, fed: Distribution, share: nat)
    requires fed.Keys == kept.Keys
  {
    && (forall e :: e in kept && kept[e] == [] ==> |fed[e]| == share)
    && (forall e :: e in kept && kept[e] != [] ==> share <= |fed[e]| && Suffix(fed[e], kept[e]))
  }

  /** What each pass did, and that the last one applied the moves. */
  ghost predicate Redistributes(passes: Passes, snap: Namespace, assignable: set<ExecId>, available: set<ShardId>,
                                order: seq<ExecId>, active: seq<ExecId>, start: nat) {
    && KeepsFirst(passes.kept, snap.records, order, assignable, available)
    && Feeds(passes.kept, passes.fed)
    && (forall e, s :: At(passes.fed, e, s) ==> At(passes.spread, e, s))
    && DealtTo(passes.fed, passes.spread, active, start, start + passes.rest)
  }

  /** Keep what assignable executors hold, feed empty executors, spread the rest from a random start, then apply the
      load balancer's moves. */
  method Redistribute(snap: Namespace, assignable: set<ExecId>, available: set<ShardId>, order: seq<ExecId>,
                      active: seq<ExecId>, start: nat, moves: seq<Move>)
    returns (r: Option<Distribution>, shifted: bool, ghost passes: Passes)
    requires active != [] && NoDuplicates(active) && forall e :: e in active <==> e in assignable
    requires Enumerates(order, snap.records) && forall m :: m in moves ==> m.to in active
    ensures r.Some? ==> Partition(r.value, [], available) && r.value.Keys == assignable
    ensures moves == [] ==> r.Some?
    ensures shifted <==>
      || moves != []
      || !AllKept(snap.records, order, assignable, available)
      || SomeAreEmpty(snap.records, order, assignable, available)
    ensures r.Some? && !shifted ==> forall e, s :: At(r.value, e, s) ==> Holds(snap.records, e, s)
    ensures Redistributes(passes, snap, assignable, available, order, active, start)
    ensures r.Some? <==> AllFit(passes.spread, moves, |moves|)
    ensures r.Some? ==> Moved(passes.spread, r.value, moves, available)
    ensures moves == [] ==> r == Some(passes.spread)
  {
    var spread, updated;
    spread, updated, passes := KeepFeedSpread(snap, assignable, available, order, active, start);
    r := ApplyMoves(spread, moves, available);
    shifted := moves != [] || updated;
    assert Targets(moves) <= assignable;
  }

  /** The passes before the moves; `updated` is whether any shard was fed to an empty executor or spread. */
  method KeepFeedSpread(snap: Namespace, assignable: set<ExecId>, available: set<ShardId>, order: seq<ExecId>,
                        active: seq<ExecId>, start: nat)
    returns (spread: Distribution, updated: bool, ghost passes: Passes)
    requires active != [] && NoDuplicates(active) && forall e :: e in active <==> e in assignable
    requires Enumerates(order, snap.records)
    ensures Partition(spread, [], available) && spread.Keys == assignable && passes.spread == spread
    ensures updated <==>
      || !AllKept(snap.records, order, assignable, available)
      || SomeAreEmpty(snap.records, order, assignable, available)
    ensures !updated ==> forall e, s :: At(spread, e, s) ==> Holds(snap.records, e, s)
    ensures Redistributes(passes, snap, assignable, available, order, active, start)
  {
    var toReassign, kept := FindShardsToReassign(snap.records, assignable, available, order);
    KeptDecides(snap.records, order, assignable, available, toReassign, kept);
    var fed, fedEmpty := FeedEmpties(kept, toReassign, available);
    spread := UpdateAssignments(toReassign, active, fed, start, available);
    passes := Passes(kept, fed, spread, |toReassign|);
    updated := fedEmpty || toReassign != [];
    assert KeepsFirst(kept, snap.records, order, assignable, available);
  }

  method FeedEmpties(kept: Distribution, ghost toReassign: seq<ShardId>, ghost available: set<ShardId>)
    returns (fed: Distribution, fedEmpty: bool)
    requires Partition(kept, toReassign, available)
    ensures Partition(fed, toReassign, available) && Feeds(kept, fed)
    ensures fedEmpty <==> Donors(kept) != {} && Donors(kept) != kept.Keys
  {
    var share;
    fed, fedEmpty, share := AssignShardsToEmptyExecutors(kept, toReassign, available);
    if fedEmpty {
      ghost var least: nat :| IsLeastLoad(kept, least) && share == least * |Donors(kept)| / |kept|;
      assert FeedsShare(kept, fed, share);
    }
  }

  /** The guard of the early return: nothing finished, stale, drained, cleared, moved, reassigned or fed. */
  ghost predicate SkipGuard(kind: Kind, snap: Namespace, stale: set<ExecId>, deleted: set<ShardId>, moves: seq<Move>,
                            order: seq<ExecId>) {
    var assignable, available := Assignable(snap, stale), Available(kind, snap, deleted);
    && deleted == {} && stale == {} && moves == []
    && DrainedAssigned(snap, assignable) == {} && ExecutorsToUnassign(snap, assignable, stale) == map[]
    && AllKept(snap.records, order, assignable, available)
    && !SomeAreEmpty(snap.records, order, assignable, available)
  }

  /** One rebalance of the state read, up to its commit, which is skipped exactly when the guard says so. `order` is
      the order in which the records happen to be iterated. */
  method Rebalance(kind: Kind, snap: Namespace, staleExecutors: set<ExecId>, deleted: set<ShardId>, order: seq<ExecId>,
                   active: seq<ExecId>, start: nat, moves: seq<Move>)
    returns (r: Option<LeaderPlan>, changed: bool, ghost passes: Passes)
    requires NoDuplicates(active) && forall e :: e in active <==> e in Assignable(snap, staleExecutors)
    requires Enumerates(order, snap.records) && forall m :: m in moves ==> m.to in active
    ensures r.Some? ==> ValidLeaderPlan(kind, snap, deleted, r.value) && r.value.stale.Keys == staleExecutors
    ensures r.Some? ==>
      r.value.unassign == ExecutorsToUnassign(snap, Assignable(snap, staleExecutors), staleExecutors)
    ensures active != [] && moves == [] ==> r.Some?
    ensures r.Some? ==> active != [] && (changed <==> !SkipGuard(kind, snap, staleExecutors, deleted, moves, order))
    ensures r.Some? ==> forall e :: e in r.value.current <==> Takes(snap, e) && e !in staleExecutors
    ensures r.Some? ==> forall s :: (exists e :: At(r.value.current, e, s)) <==> Remains(kind, snap, deleted, s)
    ensures r.Some? && (deleted != {} || staleExecutors != {} || moves != []) ==> changed
    ensures active != [] ==> Redistributes(passes, snap, Assignable(snap, staleExecutors),
                                           Available(kind, snap, deleted), order, active, start)
    ensures r.Some? <==> active != [] && AllFit(passes.spread, moves, |moves|)
    ensures r.Some? ==> Moved(passes.spread, r.value.current, moves, Available(kind, snap, deleted))
    ensures r.Some? && moves == [] ==> r.value.current == passes.spread
  {
    if active == [] {
      return None, false, Passes(map[], map[], map[], 0);
    }
    var assignable := Assignable(snap, staleExecutors);
    var current, shifted;
    current, shifted, passes :=
      Redistribute(snap, assignable, Available(kind, snap, deleted), order, active, start, moves);
    if current.None? {
      return None, false, passes;
    }
    var stale := map e | e in staleExecutors :: ModRevisionOf(snap, e);
    assert stale.Keys == staleExecutors;
    var unassign := ExecutorsToUnassign(snap, assignable, staleExecutors);
    changed := shifted || deleted != {} || stale != map[] || DrainedAssigned(snap, assignable) != {} ||
      unassign != map[];
    assert stale == map[] <==> staleExecutors == {};
    PlanHoldsWhatRemains(kind, snap, deleted, current.value);
    return Some(LeaderPlan(current.value, stale, unassign)), changed, passes;
  }

  lemma PlanHoldsWhatRemains(kind: Kind, snap: Namespace, deleted: set<ShardId>, current: Distribution)
    requires Partition(current, [], Available(kind, snap, deleted))
    ensures forall s :: (exists e :: At(current, e, s)) <==> Remains(kind, snap, deleted, s)
  {
    forall s
      ensures (exists e :: At(current, e, s)) <==> Remains(kind, snap, deleted, s)
    {
      AvailableExactly(kind, snap, deleted, s);
    }
  }

  function ReadyShards(shards: seq<ShardId>): map<ShardId, AssignmentStatus> {
    map s | s in shards :: Ready
  }

  predicate Same(snap: Namespace, e: ExecId, shards: seq<ShardId>) {
    e in snap.records && snap.records[e].shards == ReadyShards(shards)
  }

  function NewRecord(snap: Namespace, p: LeaderPlan, now: int, e: ExecId): AssignedState
    requires e in p.current || e in p.unassign
  {
    if e in p.unassign then AssignedState(map[], now, p.unassign[e])
    else if Same(snap, e, p.current[e]) then snap.records[e]
    else AssignedState(ReadyShards(p.current[e]), now, ModRevisionOf(snap, e))
  }

  function LeaderRequest(snap: Namespace, p: LeaderPlan, now: int): Request {
    Request(map e | e in p.current.Keys + p.unassign.Keys :: NewRecord(snap, p, now, e),
            p.stale,
            Some(p.unassign.Keys + set e | e in p.current && !Same(snap, e, p.current[e])))
  }

  /** What a record says about a shard that came from another executor. */
  datatype HandoverType = Emergency | Graceful
  datatype Handover = Handover(handoverType: HandoverType, previousHeartbeat: int)

  predicate IsDraining(ns: Namespace, e: ExecId)
    requires e in ns.executors
  {
    || ns.executors[e].status == Draining || ns.executors[e].status == Drained
    || (ns.executors[e].hostname != "" && ns.executors[e].hostname in ns.drainedHosts)
  }

  /** The shard had another owner, still known by its heartbeat, and is not drained. */
  predicate HandedOver(snap: Namespace, owners: map<ShardId, ExecId>, e: ExecId, s: ShardId) {
    s in owners && owners[s] != e && s !in snap.drainedShards && owners[s] in snap.executors
  }

  function HandoverOf(snap: Namespace, previous: ExecId): Handover
    requires previous in snap.executors
  {
    Handover(if IsDraining(snap, previous) then Graceful else Emergency, snap.executors[previous].lastHeartbeat)
  }

  method BuildHandoverStats(snap: Namespace, owners: map<ShardId, ExecId>, e: ExecId, list: seq<ShardId>)
    returns (stats: map<ShardId, Handover>)
    ensures HandoversOf(snap, owners, e, list, stats)
    ensures forall s :: s in stats <==>
      s in list && s in owners && owners[s] != e && owners[s] in snap.executors && s !in snap.drainedShards
    ensures forall s :: s in stats ==>
      var previous := snap.executors[owners[s]];
      && stats[s].previousHeartbeat == previous.lastHeartbeat
      && (stats[s].handoverType.Graceful? <==>
            || previous.status.Draining? || previous.status.Drained?
            || (previous.hostname != "" && previous.hostname in snap.drainedHosts))
  {
    stats := map[];
    for n := 0 to |list|
      invariant HandoversOf(snap, owners, e, list[..n], stats)
    {
      var s := list[n];
      assert list[..n + 1] == list[..n] + [s];
      if s !in owners || owners[s] == e || s in snap.drainedShards || owners[s] !in snap.executors {
        continue;
      }
      stats := stats[s := HandoverOf(snap, owners[s])];
    }
    assert list[..|list|] == list;
  }

  /** The statistics of one executor's new record. */
  ghost predicate HandoversOf(snap: Namespace, owners: map<ShardId, ExecId>, e: ExecId, list: seq<ShardId>,
                              stats: map<ShardId, Handover>) {
    && (forall s :: s in stats <==> s in list && HandedOver(snap, owners, e, s))
    && (forall s :: s in stats ==> stats[s] == HandoverOf(snap, owners[s]))
  }

  /** A planned shard is reported as handed over by exactly one record, the new owner's, and only if it had an owner
      that still heartbeats and is not the new one. */
  lemma HandedOverOnce(kind: Kind, snap: Namespace, deleted: set<ShardId>, p: LeaderPlan, owners: map<ShardId, ExecId>,
                       stats: map<ExecId, map<ShardId, Handover>>, e: ExecId, s: ShardId)
    requires ValidLeaderPlan(kind, snap, deleted, p) && stats.Keys == p.current.Keys
    requires forall x :: x in stats ==> HandoversOf(snap, owners, x, p.current[x], stats[x])
    ensures e in stats && s in stats[e] <==>
      At(p.current, e, s) && s in owners && owners[s] != e && owners[s] in snap.executors
    ensures e in stats && s in stats[e] ==> forall x :: x in stats && s in stats[x] ==> x == e
    ensures e in stats && s in stats[e] && snap.executors[owners[s]].status.Active? ==>
      (stats[e][s].handoverType.Emergency? <==> Takes(snap, owners[s]))
  {
    assert At(p.current, e, s) ==> s !in snap.drainedShards;
    forall x | x in stats && s in stats[x]
      ensures At(p.current, x, s)
    {
    }
  }

  method BuildNewRecord(snap: Namespace, e: ExecId, list: seq<ShardId>, now: int, owners: map<ShardId, ExecId>)
    returns (state: AssignedState, stats: map<ShardId, Handover>, changed: bool)
    ensures changed <==> !Same(snap, e, list)
    ensures state == if changed then AssignedState(ReadyShards(list), now, ModRevisionOf(snap, e)) else snap.records[e]
    ensures HandoversOf(snap, owners, e, list, stats)
  {
    var shards := ReadyShards(list);
    var modRevision, lastUpdated := 0, now;
    changed := false;
    if e in snap.records && snap.records[e].shards == shards {
      modRevision, lastUpdated := snap.records[e].modRevision, snap.records[e].lastUpdated;
    } else {
      changed := true;
      if e in snap.records {
        modRevision := snap.records[e].modRevision;
      }
    }
    state := AssignedState(shards, lastUpdated, modRevision);
    stats := BuildHandoverStats(snap, owners, e, list);
  }

  method BuildPlannedRecords(snap: Namespace, p: LeaderPlan, now: int, owners: map<ShardId, ExecId>)
    returns (r: Records, changed: set<ExecId>, stats: map<ExecId, map<ShardId, Handover>>)
    requires p.current.Keys !! p.unassign.Keys
    ensures r.Keys == p.current.Keys && forall e :: e in r ==> r[e] == NewRecord(snap, p, now, e)
    ensures forall e :: e in changed <==> e in p.current && !Same(snap, e, p.current[e])
    ensures stats.Keys == p.current.Keys && forall e :: e in stats ==>
      HandoversOf(snap, owners, e, p.current[e], stats[e])
  {
    r, changed, stats := map[], {}, map[];
    var executors := p.current.Keys;
    while executors != {}
      invariant executors <= p.current.Keys
      invariant r.Keys == p.current.Keys - executors && stats.Keys == r.Keys
      invariant forall e :: e in r ==> r[e] == NewRecord(snap, p, now, e)
      invariant forall e :: e in stats ==> HandoversOf(snap, owners, e, p.current[e], stats[e])
      invariant forall e :: e in changed <==> e in r && !Same(snap, e, p.current[e])
    {
      var e :| e in executors;
      var state, handovers, different := BuildNewRecord(snap, e, p.current[e], now, owners);
      if different {
        changed := changed + {e};
      }
      r, stats := r[e := state], stats[e := handovers];
      executors := executors - {e};
    }
  }

  /** Keep what is the same, replace what differs, empty what must be unassigned. */
  method BuildNewAssignmentsState(snap: Namespace, p: LeaderPlan, now: int, owners: map<ShardId, ExecId>)
    returns (r: Records, changed: set<ExecId>, stats: map<ExecId, map<ShardId, Handover>>)
    requires p.current.Keys !! p.unassign.Keys
    ensures Request(r, p.stale, Some(changed)) == LeaderRequest(snap, p, now)
    ensures stats.Keys == p.current.Keys && forall e :: e in stats ==>
      HandoversOf(snap, owners, e, p.current[e], stats[e])
  {
    r, changed, stats := BuildPlannedRecords(snap, p, now, owners);
    r, changed := ClearUnassigned(snap, p, now, r, changed);
    RequestIs(snap, p, now, r, changed);
  }

  lemma RequestIs(snap: Namespace, p: LeaderPlan, now: int, r: Records, changed: set<ExecId>)
    requires r.Keys == p.current.Keys + p.unassign.Keys && forall e :: e in r ==> r[e] == NewRecord(snap, p, now, e)
    requires forall e :: e in changed <==> e in p.unassign || (e in p.current && !Same(snap, e, p.current[e]))
    ensures Request(r, p.stale, Some(changed)) == LeaderRequest(snap, p, now)
  {
    assert r == LeaderRequest(snap, p, now).assignments;
    assert changed == LeaderRequest(snap, p, now).changed.value;
  }

  method ClearUnassigned(snap: Namespace, p: LeaderPlan, now: int, r0: Records, changed0: set<ExecId>)
    returns (r: Records, changed: set<ExecId>)
    requires p.current.Keys !! p.unassign.Keys
    requires r0.Keys == p.current.Keys && forall e :: e in r0 ==> r0[e] == NewRecord(snap, p, now, e)
    requires forall e :: e in changed0 <==> e in p.current && !Same(snap, e, p.current[e])
    ensures r.Keys == p.current.Keys + p.unassign.Keys && forall e :: e in r ==> r[e] == NewRecord(snap, p, now, e)
    ensures forall e :: e in changed <==> e in p.unassign || (e in p.current && !Same(snap, e, p.current[e]))
  {
    r, changed := r0, changed0;
    var executors := p.unassign.Keys;
    while executors != {}
      invariant executors <= p.unassign.Keys
      invariant r.Keys == p.current.Keys + (p.unassign.Keys - executors)
      invariant forall e :: e in r ==> r[e] == NewRecord(snap, p, now, e)
      invariant forall e :: e in changed <==>
        e in p.unassign.Keys - executors || (e in p.current && !Same(snap, e, p.current[e]))
    {
      var e :| e in executors;
      changed := changed + {e};
      r := r[e := AssignedState(map[], now, p.unassign[e])];
      executors := executors - {e};
    }
  }

  /** The leader's request is a delta in the sense of the store: what it lists but does not write is as it was read. */
  lemma LeaderRequestIsDelta(kind: Kind, snap: Namespace, deleted: set<ShardId>, p: LeaderPlan, now: int)
    requires ValidLeaderPlan(kind, snap, deleted, p)
    ensures UnchangedAsRead(snap, LeaderRequest(snap, p, now))
    ensures forall e :: e in LeaderRequest(snap, p, now).assignments <==> e in p.current || e in p.unassign
    ensures forall e :: e in LeaderRequest(snap, p, now).assignments ==>
      LeaderRequest(snap, p, now).assignments[e].modRevision == ModRevisionOf(snap, e)
  {
  }

  /** The record a leader commit leaves a planned executor with: the planned shards, all ready, and either the record it
      has at that moment or one stamped with the time and the new revision. */
  lemma PlannedRecord(kind: Kind, snap: Namespace, ns: Namespace, deleted: set<ShardId>, p: LeaderPlan, now: int,
                      e: ExecId)
    requires Since(snap, ns) && ValidLeaderPlan(kind, snap, deleted, p) && GuardHolds(ns, LeaderRequest(snap, p, now))
    requires e in p.current
    ensures var next := Apply(ns, LeaderRequest(snap, p, now));
      && e in next.records && (forall s :: s in next.records[e].shards <==> s in p.current[e])
      && (forall s :: s in next.records[e].shards ==> next.records[e].shards[s] == Ready)
      && if e in ns.records && ns.records[e].shards == next.records[e].shards then next.records[e] == ns.records[e]
         else next.records[e].lastUpdated == now && next.records[e].modRevision == next.revision == ns.revision + 1
  {
    LeaderRequestIsDelta(kind, snap, deleted, p, now);
    GuardedRecordsAreCurrent(snap, ns, LeaderRequest(snap, p, now), e);
    assert e in Written(LeaderRequest(snap, p, now)) <==> !Same(snap, e, p.current[e]);
  }

  /** An executor to be cleared keeps an empty record, a stale one loses its record and its heartbeat, and one the plan
      does not mention keeps both. */
  lemma OtherRecord(kind: Kind, snap: Namespace, ns: Namespace, deleted: set<ShardId>, p: LeaderPlan, now: int,
                    e: ExecId)
    requires ValidLeaderPlan(kind, snap, deleted, p) && e !in p.current
    ensures var next := Apply(ns, LeaderRequest(snap, p, now));
      if e in p.unassign then e in next.records && next.records[e] == AssignedState(map[], now, ns.revision + 1)
      else if e in p.stale then e !in next.records && e !in next.executors
      else (e in next.records <==> e in ns.records) && (e in next.records ==> next.records[e] == ns.records[e])
  {
    assert e in Written(LeaderRequest(snap, p, now)) <==> e in p.unassign;
  }

  /** Ownership after the commit: the plan on listed executors, the store's current word on the others. */
  lemma LeaderCommitHolds(kind: Kind, snap: Namespace, ns: Namespace, deleted: set<ShardId>, p: LeaderPlan, now: int,
                          e: ExecId, s: ShardId)
    requires Since(snap, ns) && ValidLeaderPlan(kind, snap, deleted, p) && GuardHolds(ns, LeaderRequest(snap, p, now))
    ensures Holds(Apply(ns, LeaderRequest(snap, p, now)).records, e, s)
       <==> if e in p.current then s in p.current[e]
            else e !in p.unassign && e !in p.stale && Holds(ns.records, e, s)
  {
    if e in p.current {
      PlannedRecord(kind, snap, ns, deleted, p, now, e);
    } else {
      OtherRecord(kind, snap, ns, deleted, p, now, e);
    }
  }

  /** A shard the plan hands out is, right up to the commit, held by an executor the plan lists or deletes. */
  lemma PlannedShardIsHeldByListed(kind: Kind, snap: Namespace, ns: Namespace, deleted: set<ShardId>, p: LeaderPlan,
                                   now: int, e: ExecId, s: ShardId)
    returns (holder: ExecId)
    requires Since(snap, ns) && ValidLeaderPlan(kind, snap, deleted, p) && GuardHolds(ns, LeaderRequest(snap, p, now))
    requires kind.Ephemeral? && At(p.current, e, s)
    ensures Holds(ns.records, holder, s) && (holder in p.current || holder in p.stale || holder in p.unassign)
  {
    assert s in Available(kind, snap, deleted);
    holder :| holder in snap.records && s in snap.records[holder].shards;
    assert Holds(snap.records, holder, s);
    LeaderRequestIsDelta(kind, snap, deleted, p, now);
    GuardedRecordsAreCurrent(snap, ns, LeaderRequest(snap, p, now), holder);
  }

  predicate Unlisted(p: LeaderPlan, e: ExecId) {
    e !in p.current && e !in p.stale && e !in p.unassign
  }

  /** The executors the leader does not list hold no shard it has handed out, and share none among themselves. */
  ghost predicate UnlistedHarmless(ns: Namespace, p: LeaderPlan, available: set<ShardId>) {
    && (forall e, s :: Unlisted(p, e) && Holds(ns.records, e, s) ==> s !in available)
    && (forall e1, e2, s | Unlisted(p, e1) && Unlisted(p, e2) ::
          Holds(ns.records, e1, s) && Holds(ns.records, e2, s) ==> e1 == e2)
  }

  /** Exactly when a leader commit leaves one owner per shard, whatever the store held before. */
  lemma LeaderCommitUniqueExactlyWhen(kind: Kind, snap: Namespace, ns: Namespace, deleted: set<ShardId>, p: LeaderPlan,
                                      now: int)
    requires Since(snap, ns) && ValidLeaderPlan(kind, snap, deleted, p) && GuardHolds(ns, LeaderRequest(snap, p, now))
    ensures Unique(Apply(ns, LeaderRequest(snap, p, now)).records)
       <==> UnlistedHarmless(ns, p, Available(kind, snap, deleted))
  {
    var next := Apply(ns, LeaderRequest(snap, p, now)).records;
    forall e, s
      ensures Holds(next, e, s) <==> At(p.current, e, s) || (Unlisted(p, e) && Holds(ns.records, e, s))
    {
      LeaderCommitHolds(kind, snap, ns, deleted, p, now, e, s);
    }
    UniqueOverUnlisted(next, ns, p, Available(kind, snap, deleted));
  }

  lemma UniqueOverUnlisted(next: Records, ns: Namespace, p: LeaderPlan, available: set<ShardId>)
    requires Partition(p.current, [], available)
    requires forall e, s :: Holds(next, e, s) <==> At(p.current, e, s) || (Unlisted(p, e) && Holds(ns.records, e, s))
    ensures Unique(next) <==> UnlistedHarmless(ns, p, available)
  {
    if Unique(next) {
      forall e, s | Unlisted(p, e) && Holds(ns.records, e, s)
        ensures s !in available
      {
        assert Holds(next, e, s);
        assert s in available ==> exists x :: At(p.current, x, s) && Holds(next, x, s);
      }
      forall e1, e2, s | Unlisted(p, e1) && Unlisted(p, e2) && Holds(ns.records, e1, s) && Holds(ns.records, e2, s)
        ensures e1 == e2
      {
        assert Holds(next, e1, s) && Holds(next, e2, s);
      }
    }
  }

  /** A rebalance of an ephemeral namespace never gives a shard a second owner, whatever executors it failed to list. */
  lemma LeaderCommitKeepsUnique(snap: Namespace, ns: Namespace, deleted: set<ShardId>, p: LeaderPlan, now: int)
    requires Since(snap, ns) && ValidLeaderPlan(Ephemeral, snap, deleted, p)
    requires GuardHolds(ns, LeaderRequest(snap, p, now)) && Unique(ns.records)
    ensures Unique(Apply(ns, LeaderRequest(snap, p, now)).records)
  {
    LeaderCommitUniqueExactlyWhen(Ephemeral, snap, ns, deleted, p, now);
    forall e, s | Unlisted(p, e) && Holds(ns.records, e, s)
      ensures s !in Available(Ephemeral, snap, deleted)
    {
      if s in Available(Ephemeral, snap, deleted) {
        var x :| At(p.current, x, s);
        var _ := PlannedShardIsHeldByListed(Ephemeral, snap, ns, deleted, p, now, x, s);
      }
    }
  }

  /** Conservation: after the commit every shard that was available has an owner among the planned executors, and no
      planned executor holds anything else. */
  lemma LeaderCommitConserves(kind: Kind, snap: Namespace, ns: Namespace, deleted: set<ShardId>, p: LeaderPlan,
                              now: int, s: ShardId)
    requires Since(snap, ns) && ValidLeaderPlan(kind, snap, deleted, p) && GuardHolds(ns, LeaderRequest(snap, p, now))
    ensures Remains(kind, snap, deleted, s)
       <==> exists e :: e in p.current && Holds(Apply(ns, LeaderRequest(snap, p, now)).records, e, s)
  {
    AvailableExactly(kind, snap, deleted, s);
    var next := Apply(ns, LeaderRequest(snap, p, now)).records;
    forall e
      ensures e in p.current ==> (Holds(next, e, s) <==> At(p.current, e, s))
    {
      LeaderCommitHolds(kind, snap, ns, deleted, p, now, e, s);
    }
    if s in Available(kind, snap, deleted) {
      var e :| At(p.current, e, s);
      assert Holds(next, e, s);
    }
  }

  /** The same for the storage call, which makes no transaction when there is nothing to write or delete. */
  lemma AssignShardsUniqueExactlyWhen(kind: Kind, snap: Namespace, ns: Namespace, deleted: set<ShardId>, p: LeaderPlan,
                                      now: int)
    requires Since(snap, ns) && ValidLeaderPlan(kind, snap, deleted, p) && GuardHolds(ns, LeaderRequest(snap, p, now))
    ensures Unique(AssignShards(ns, LeaderRequest(snap, p, now), true).0.records)
       <==> UnlistedHarmless(ns, p, Available(kind, snap, deleted))
  {
    GuardedAssignIsApply(ns, LeaderRequest(snap, p, now));
    LeaderCommitUniqueExactlyWhen(kind, snap, ns, deleted, p, now);
  }

  /** When nobody wrote between the read and the commit, the guard holds and every holder is listed. */
  lemma UndisturbedIsHarmless(kind: Kind, snap: Namespace, deleted: set<ShardId>, p: LeaderPlan, now: int)
    requires Stored(snap) && ValidLeaderPlan(kind, snap, deleted, p)
    ensures GuardHolds(snap, LeaderRequest(snap, p, now))
    ensures UnlistedHarmless(snap, p, Available(kind, snap, deleted))
  {
    LeaderRequestIsDelta(kind, snap, deleted, p, now);
  }

  /** The rebalance gets to change the store: it has a plan, does not skip, and passes both guards. */
  ghost predicate Reaches(kind: Kind, snap: Namespace, ns: Namespace, stale: set<ExecId>, deleted: set<ShardId>,
                          moves: seq<Move>, order: seq<ExecId>, plan: Option<LeaderPlan>, now: int, leadership: bool) {
    && plan.Some? && !SkipGuard(kind, snap, stale, deleted, moves, order)
    && leadership && GuardHolds(ns, LeaderRequest(snap, plan.value, now))
  }

  /**
   A whole rebalance: plan from the state read, skip or commit against the store as it then is, and exactly when that
   leaves one owner per shard.  On an undisturbed store with the leadership, a planned rebalance does so exactly when
   there was one or the guard of the early return does not hold: that guard decides which double owners are repaired.
   */
  method RebalanceOnce(kind: Kind, snap: Namespace, ns: Namespace, staleExecutors: set<ExecId>, deleted: set<ShardId>,
                       order: seq<ExecId>, active: seq<ExecId>, start: nat, moves: seq<Move>,
                       owners: map<ShardId, ExecId>, now: int, leadership: bool)
    returns (next: Namespace, plan: Option<LeaderPlan>)
    requires Since(snap, ns) && Enumerates(order, snap.records)
    requires NoDuplicates(active) && forall e :: e in active <==> e in Assignable(snap, staleExecutors)
    requires forall m :: m in moves ==> m.to in active
    ensures plan.Some? ==> ValidLeaderPlan(kind, snap, deleted, plan.value)
    ensures active != [] && moves == [] ==> plan.Some?
    ensures plan.None? || SkipGuard(kind, snap, staleExecutors, deleted, moves, order) ==> next == ns
    ensures plan.Some? && !SkipGuard(kind, snap, staleExecutors, deleted, moves, order) ==>
      next == AssignShards(ns, LeaderRequest(snap, plan.value, now), leadership).0
    ensures Unique(next.records) <==>
      if Reaches(kind, snap, ns, staleExecutors, deleted, moves, order, plan, now, leadership) then
        UnlistedHarmless(ns, plan.value, Available(kind, snap, deleted))
      else Unique(ns.records)
    ensures plan.Some? && ns == snap && leadership ==>
      (Unique(next.records) <==>
        Unique(snap.records) || !SkipGuard(kind, snap, staleExecutors, deleted, moves, order))
  {
    var changed;
    ghost var passes;
    plan, changed, passes := Rebalance(kind, snap, staleExecutors, deleted, order, active, start, moves);
    if plan.None? || !changed {
      return ns, plan;
    }
    var r, written, _ := BuildNewAssignmentsState(snap, plan.value, now, owners);
    next := AssignShards(ns, Request(r, plan.value.stale, Some(written)), leadership).0;
    if ns == snap {
      UndisturbedIsHarmless(kind, snap, deleted, plan.value, now);
    }
    if leadership && GuardHolds(ns, LeaderRequest(snap, plan.value, now)) {
      AssignShardsUniqueExactlyWhen(kind, snap, ns, deleted, plan.value, now);
    }
  }

  /**
   The guard in terms of who holds what.  Nothing is finished, stale or to be moved; whoever holds anything can take
   shards and holds nothing drained; a fixed namespace has all its shards held; and either nothing remains or each
   executor that can take shards holds a remaining one that none before it in the order holds.
   */
  lemma SkipExactlyWhen(kind: Kind, snap: Namespace, stale: set<ExecId>, deleted: set<ShardId>, moves: seq<Move>,
                        order: seq<ExecId>)
    requires Enumerates(order, snap.records)
    ensures SkipGuard(kind, snap, stale, deleted, moves, order) <==>
      && deleted == {} && stale == {} && moves == []
      && HoldersFit(snap) && AllHeld(kind, snap) && (NothingRemains(kind, snap) || EachIsFirst(kind, snap, order))
  {
    if deleted == {} && stale == {} && moves == [] {
      SkipBySets(kind, snap, order);
      HoldersByTheShard(snap);
      AvailableByTheShard(kind, snap);
      KeepingIsBeingFirst(kind, snap, order);
    }
  }

  ghost predicate HoldersFit(snap: Namespace) {
    forall e, s :: Holds(snap.records, e, s) ==> Takes(snap, e) && s !in snap.drainedShards
  }

  ghost predicate AllHeld(kind: Kind, snap: Namespace) {
    forall s :: Remains(kind, snap, {}, s) ==> exists e :: Holds(snap.records, e, s)
  }

  ghost predicate NothingRemains(kind: Kind, snap: Namespace) {
    forall s :: !Remains(kind, snap, {}, s)
  }

  ghost predicate EachIsFirst(kind: Kind, snap: Namespace, order: seq<ExecId>) {
    forall e :: Takes(snap, e) ==> exists s :: FirstRemaining(kind, snap, order, e, s)
  }

  ghost predicate EachKeeps(kind: Kind, snap: Namespace, order: seq<ExecId>) {
    forall e :: e in Assignable(snap, {}) ==> Keeps(snap.records, order, Available(kind, snap, {}), e)
  }

  lemma KeepingIsBeingFirst(kind: Kind, snap: Namespace, order: seq<ExecId>)
    ensures EachKeeps(kind, snap, order) <==> EachIsFirst(kind, snap, order)
  {
    forall e
      ensures Keeps(snap.records, order, Available(kind, snap, {}), e) <==>
        exists s :: FirstRemaining(kind, snap, order, e, s)
      ensures e in Assignable(snap, {}) <==> Takes(snap, e)
    {
      KeepsByTheShard(kind, snap, order, e);
    }
  }

  lemma SkipBySets(kind: Kind, snap: Namespace, order: seq<ExecId>)
    requires Enumerates(order, snap.records)
    ensures var available := Available(kind, snap, {});
      SkipGuard(kind, snap, {}, {}, [], order) <==>
        && HoldersAssignable(snap) && AllShards(snap.records) !! snap.drainedShards
        && available <= AllShards(snap.records)
        && (available == {} || EachKeeps(kind, snap, order))
  {
    HoldersAssignableExactly(snap);
    if HoldersAssignable(snap) {
      DrainedExactly(snap);
      HeldIsKept(kind, snap, order);
      if Available(kind, snap, {}) <= AllShards(snap.records) {
        KeepsExactly(kind, snap, order);
      }
    }
  }

  lemma HoldersByTheShard(snap: Namespace)
    ensures HoldersAssignable(snap) && AllShards(snap.records) !! snap.drainedShards <==>
      HoldersFit(snap)
  {
    forall s
      ensures s in AllShards(snap.records) <==> exists e :: Holds(snap.records, e, s)
    {
      AllShardsExactly(snap.records, s);
    }
  }

  lemma AvailableByTheShard(kind: Kind, snap: Namespace)
    ensures Available(kind, snap, {}) <= AllShards(snap.records) <==> AllHeld(kind, snap)
    ensures Available(kind, snap, {}) == {} <==> NothingRemains(kind, snap)
  {
    forall s
      ensures s in Available(kind, snap, {}) <==> Remains(kind, snap, {}, s)
      ensures s in AllShards(snap.records) <==> exists e :: Holds(snap.records, e, s)
    {
      AvailableExactly(kind, snap, {}, s);
      AllShardsExactly(snap.records, s);
    }
  }

  lemma KeepsByTheShard(kind: Kind, snap: Namespace, order: seq<ExecId>, e: ExecId)
    ensures Keeps(snap.records, order, Available(kind, snap, {}), e) <==>
      exists s :: FirstRemaining(kind, snap, order, e, s)
  {
    forall s
      ensures s in Available(kind, snap, {}) && FirstHolder(snap.records, order, e, s) <==>
        FirstRemaining(kind, snap, order, e, s)
    {
      AvailableExactly(kind, snap, {}, s);
    }
  }

  /** A remaining shard that `e` is the first to hold. */
  ghost predicate FirstRemaining(kind: Kind, snap: Namespace, order: seq<ExecId>, e: ExecId, s: ShardId) {
    Remains(kind, snap, {}, s) && FirstHolder(snap.records, order, e, s)
  }

  lemma AllShardsExactly(r: Records, s: ShardId)
    ensures s in AllShards(r) <==> exists e :: Holds(r, e, s)
  {
    if s in AllShards(r) {
      var e :| e in r && s in r[e].shards;
      assert Holds(r, e, s);
    }
  }

  /** The guard for an ephemeral namespace with nothing finished, stale or moved: all holders assignable, nothing held
      drained, and either nothing is held or each assignable executor is the first holder of some shard. */
  lemma EphemeralSkipExactlyWhen(snap: Namespace, order: seq<ExecId>)
    requires Enumerates(order, snap.records)
    ensures SkipGuard(Ephemeral, snap, {}, {}, [], order) <==>
      && HoldersAssignable(snap) && AllShards(snap.records) !! snap.drainedShards
      && (AllShards(snap.records) == {} || EachIsFirstSomewhere(snap, order))
  {
    SkipBySets(Ephemeral, snap, order);
    if AllShards(snap.records) !! snap.drainedShards {
      assert Available(Ephemeral, snap, {}) == AllShards(snap.records);
      FirstIsHeld(snap, order);
    }
  }

  lemma FirstIsHeld(snap: Namespace, order: seq<ExecId>)
    ensures forall e, s :: FirstHolder(snap.records, order, e, s) ==> s in AllShards(snap.records)
  {
    forall e, s | FirstHolder(snap.records, order, e, s)
      ensures s in AllShards(snap.records)
    {
      assert Holds(snap.records, e, s);
    }
  }

  ghost predicate HoldersAssignable(snap: Namespace) {
    forall e, s :: Holds(snap.records, e, s) ==> e in Assignable(snap, {})
  }

  /** Each assignable executor holds a shard that nobody before it in the order holds. */
  ghost predicate EachIsFirstSomewhere(snap: Namespace, order: seq<ExecId>) {
    forall e :: e in Assignable(snap, {}) ==> exists s :: FirstHolder(snap.records, order, e, s)
  }

  lemma HoldersAssignableExactly(snap: Namespace)
    ensures HoldersAssignable(snap) <==> ExecutorsToUnassign(snap, Assignable(snap, {}), {}) == map[]
  {
    var unassign := ExecutorsToUnassign(snap, Assignable(snap, {}), {});
    if HoldersAssignable(snap) {
      forall e
        ensures e !in unassign
      {
        if e in unassign {
          var s :| s in snap.records[e].shards;
          assert Holds(snap.records, e, s);
        }
      }
    } else {
      var e, s :| Holds(snap.records, e, s) && e !in Assignable(snap, {});
      assert e in unassign;
    }
  }

  lemma DrainedExactly(snap: Namespace)
    requires HoldersAssignable(snap)
    ensures DrainedAssigned(snap, Assignable(snap, {})) == {} <==> AllShards(snap.records) !! snap.drainedShards
  {
    forall s
      ensures s in DrainedAssigned(snap, Assignable(snap, {})) <==>
        s in AllShards(snap.records) && s in snap.drainedShards
    {
      if s in AllShards(snap.records) {
        var e :| e in snap.records && s in snap.records[e].shards;
        assert Holds(snap.records, e, s);
      }
    }
  }

  /** Every held shard has a first holder. */
  lemma {:induction false} SomeoneIsFirst(r: Records, order: seq<ExecId>, n: nat, s: ShardId)
    requires n < |order| && Holds(r, order[n], s)
    ensures exists k: nat :: k <= n && FirstAt(r, order, k, s)
  {
    if m: nat :| m < n && Holds(r, order[m], s) {
      SomeoneIsFirst(r, order, m, s);
    } else {
      assert FirstAt(r, order, n, s);
    }
  }

  /** With all holders assignable, everything is kept exactly when everything available is held. */
  lemma HeldIsKept(kind: Kind, snap: Namespace, order: seq<ExecId>)
    requires Enumerates(order, snap.records) && HoldersAssignable(snap)
    ensures AllKept(snap.records, order, Assignable(snap, {}), Available(kind, snap, {})) <==>
      Available(kind, snap, {}) <= AllShards(snap.records)
  {
    var r := snap.records;
    FirstIsHeld(snap, order);
    forall s | s in AllShards(r)
      ensures exists e :: e in Assignable(snap, {}) && FirstHolder(r, order, e, s)
    {
      var e :| e in r && s in r[e].shards;
      assert e in order && Holds(r, e, s);
      var n :| 0 <= n < |order| && order[n] == e;
      SomeoneIsFirst(r, order, n, s);
      var k: nat :| k <= n && FirstAt(r, order, k, s);
      assert FirstHolder(r, order, order[k], s) && Holds(r, order[k], s);
    }
  }

  /** With everything available held, either nobody keeps anything or it comes down to who is first somewhere. */
  lemma KeepsExactly(kind: Kind, snap: Namespace, order: seq<ExecId>)
    requires Enumerates(order, snap.records) && HoldersAssignable(snap)
    requires Available(kind, snap, {}) <= AllShards(snap.records)
    ensures var r, available := snap.records, Available(kind, snap, {});
      !SomeAreEmpty(r, order, Assignable(snap, {}), available) <==> available == {} || EachKeeps(kind, snap, order)
  {
    var r, available := snap.records, Available(kind, snap, {});
    if available != {} {
      HeldIsKept(kind, snap, order);
      var s :| s in available;
      var e :| e in Assignable(snap, {}) && FirstHolder(r, order, e, s);
      assert Keeps(r, order, available, e);
    }
  }

  /** Each assignable executor holds a shard that nobody else holds. */
  ghost predicate EachHasItsOwn(snap: Namespace) {
    forall e :: e in Assignable(snap, {}) ==> exists s :: HoldsAlone(snap.records, e, s)
  }

  ghost predicate HoldsAlone(r: Records, e: ExecId, s: ShardId) {
    Holds(r, e, s) && forall x :: Holds(r, x, s) ==> x == e
  }

  lemma AloneIsFirst(r: Records, order: seq<ExecId>, e: ExecId, s: ShardId)
    requires Enumerates(order, r) && HoldsAlone(r, e, s)
    ensures FirstHolder(r, order, e, s)
  {
    assert e in order;
    var n :| 0 <= n < |order| && order[n] == e;
    assert FirstAt(r, order, n, s);
  }

  lemma {:induction false} ListOfSet(xs: set<ExecId>) returns (list: seq<ExecId>)
    ensures NoDuplicates(list) && forall e :: e in list <==> e in xs
    decreases |xs|
  {
    if xs == {} {
      list := [];
    } else {
      var x :| x in xs;
      var rest := ListOfSet(xs - {x});
      list := rest + [x];
    }
  }

  /** An order that comes to `e` last lets it keep only what it holds alone. */
  lemma OrderWithLast(r: Records, e: ExecId) returns (order: seq<ExecId>)
    requires e in r
    ensures Enumerates(order, r) && forall s :: FirstHolder(r, order, e, s) ==> HoldsAlone(r, e, s)
  {
    var rest := ListOfSet(r.Keys - {e});
    order := rest + [e];
    forall s | FirstHolder(r, order, e, s)
      ensures HoldsAlone(r, e, s)
    {
      var k: nat :| k < |order| && FirstAt(r, order, k, s) && order[k] == e;
      assert k == |rest| && forall x :: Holds(r, x, s) && x != e ==> x in rest;
      forall m | 0 <= m < |rest|
        ensures !Holds(r, rest[m], s)
      {
        assert order[m] == rest[m];
      }
    }
  }

  /** Which states are skipped whatever the order of iteration: nothing is held, or each assignable executor has a shard
      of its own.  Shared shards do not matter, so doubly owned ones stay. */
  lemma SkippedInEveryOrderExactlyWhen(snap: Namespace)
    ensures (forall order :: Enumerates(order, snap.records) ==> SkipGuard(Ephemeral, snap, {}, {}, [], order)) <==>
      && HoldersAssignable(snap) && AllShards(snap.records) !! snap.drainedShards
      && (AllShards(snap.records) == {} || EachHasItsOwn(snap))
  {
    var r := snap.records;
    var some := ListOfSet(r.Keys);
    assert Enumerates(some, r);
    EphemeralSkipExactlyWhen(snap, some);
    if AllShards(r) == {} || EachHasItsOwn(snap) {
      forall order | Enumerates(order, r)
        ensures SkipGuard(Ephemeral, snap, {}, {}, [], order) <==>
          HoldersAssignable(snap) && AllShards(r) !! snap.drainedShards
      {
        EphemeralSkipExactlyWhen(snap, order);
        forall e, s | HoldsAlone(r, e, s)
          ensures FirstHolder(r, order, e, s)
        {
          AloneIsFirst(r, order, e, s);
        }
      }
    } else {
      var e :| e in Assignable(snap, {}) && !exists s :: HoldsAlone(r, e, s);
      var order := SkipFailsFor(snap, e);
    }
  }

  lemma SkipFailsFor(snap: Namespace, e: ExecId) returns (order: seq<ExecId>)
    requires AllShards(snap.records) != {} && e in Assignable(snap, {}) && !exists s :: HoldsAlone(snap.records, e, s)
    ensures Enumerates(order, snap.records) && !SkipGuard(Ephemeral, snap, {}, {}, [], order)
  {
    var r := snap.records;
    if e in r {
      order := OrderWithLast(r, e);
    } else {
      order := ListOfSet(r.Keys);
    }
    forall s
      ensures !FirstHolder(r, order, e, s)
    {
      assert FirstHolder(r, order, e, s) ==> Holds(r, e, s);
    }
    EphemeralSkipExactlyWhen(snap, order);
  }

  const TWICE_OWNED := Namespace(
    map["e1" := AssignedState(map["a" := Ready, "s" := Ready], 0, 1),
        "e2" := AssignedState(map["b" := Ready, "s" := Ready], 0, 2)],
    map["e1" := HeartbeatState(Active, "", 0), "e2" := HeartbeatState(Active, "", 0)], {}, {}, 2)

  lemma TwiceOwnedHolds(e: ExecId, s: ShardId)
    ensures Holds(TWICE_OWNED.records, e, s) <==>
      || (e == "e1" && (s == "a" || s == "s"))
      || (e == "e2" && (s == "b" || s == "s"))
  {
  }

  /** Two active owners of one shard, each with another shard of its own: every rebalance skips its commit. */
  lemma DoubleOwnerIsLeft(order: seq<ExecId>)
    requires Enumerates(order, TWICE_OWNED.records)
    ensures !Unique(TWICE_OWNED.records) && SkipGuard(Ephemeral, TWICE_OWNED, {}, {}, [], order)
  {
    var r := TWICE_OWNED.records;
    assert Holds(r, "e1", "s") && Holds(r, "e2", "s");
    assert Assignable(TWICE_OWNED, {}) == {"e1", "e2"};
    forall e, s | Holds(r, e, s)
      ensures e in Assignable(TWICE_OWNED, {})
    {
      TwiceOwnedHolds(e, s);
    }
    forall x
      ensures (Holds(r, x, "a") ==> x == "e1") && (Holds(r, x, "b") ==> x == "e2")
    {
      TwiceOwnedHolds(x, "a");
      TwiceOwnedHolds(x, "b");
    }
    assert HoldsAlone(r, "e1", "a") && HoldsAlone(r, "e2", "b");
    SkippedInEveryOrderExactlyWhen(TWICE_OWNED);
  }

  /** The same two owners with nothing else: whoever is iterated second is left without shards, is fed, and so the
      commit is made and repairs the shard. */
  const ONLY_SHARED := TWICE_OWNED.(
    records := map["e1" := AssignedState(map["s" := Ready], 0, 1), "e2" := AssignedState(map["s" := Ready], 0, 2)])

  lemma OnlySharedHolds(e: ExecId, s: ShardId)
    ensures Holds(ONLY_SHARED.records, e, s) <==> (e == "e1" || e == "e2") && s == "s"
  {
  }

  lemma OneIsFirst(r: Records, order: seq<ExecId>, e1: ExecId, e2: ExecId, s: ShardId)
    requires FirstHolder(r, order, e1, s) && FirstHolder(r, order, e2, s)
    ensures e1 == e2
  {
    var j: nat :| j < |order| && FirstAt(r, order, j, s) && order[j] == e1;
    var k: nat :| k < |order| && FirstAt(r, order, k, s) && order[k] == e2;
    assert j == k;
  }

  lemma OnlySharedIsRepaired(order: seq<ExecId>)
    requires Enumerates(order, ONLY_SHARED.records)
    ensures !Unique(ONLY_SHARED.records) && !SkipGuard(Ephemeral, ONLY_SHARED, {}, {}, [], order)
  {
    var r := ONLY_SHARED.records;
    OnlySharedHolds("e1", "s");
    OnlySharedHolds("e2", "s");
    assert "s" in AllShards(r);
    assert "e1" in Assignable(ONLY_SHARED, {}) && "e2" in Assignable(ONLY_SHARED, {});
    forall s
      ensures FirstHolder(r, order, "e1", s) || FirstHolder(r, order, "e2", s) ==> s == "s"
    {
      OnlySharedHolds("e1", s);
      OnlySharedHolds("e2", s);
    }
    if FirstHolder(r, order, "e1", "s") && FirstHolder(r, order, "e2", "s") {
      OneIsFirst(r, order, "e1", "e2", "s");
    }
    EphemeralSkipExactlyWhen(ONLY_SHARED, order);
  }
}
