/** What callers of the shard distributor see. */
module Api {
  import opened Common

  datatype ShardOwner = ShardOwner(executorID: ExecId, metadata: map<string, string>)

  datatype Response = Response(owner: ExecId, namespace: string, metadata: map<string, string>)

  datatype ApiError = ShardDrained(namespace: string, shardKey: ShardId) | VersionConflictError | Internal | Cancelled

  /** A flushed batch: owners by shard key, and the drained set of the state it was resolved against. */
  datatype Batch = Batch(results: map<ShardId, Response>, drained: set<ShardId>)

  type FlushResult = Result<Batch, ApiError>

  function ToBatchResponse(res: FlushResult, namespace: string, shardKey: ShardId): Result<Response, ApiError> {
    match res
    case Err(e) => Err(e)
    case Ok(batch) =>
      if shardKey in batch.drained then Err(ShardDrained(namespace, shardKey))
      else if shardKey in batch.results then Ok(batch.results[shardKey])
      else Err(Internal)
  }

  /** One caller's outcome of a batch: a failed batch passes its error on; otherwise an owner is given exactly when the
      batch has one and the key is not drained, and drained and missing keys get errors of their own. */
  predicate Settles(res: FlushResult, namespace: string, key: ShardId, response: Result<Response, ApiError>) {
    && (res.Err? ==> response == Err(res.error))
    && (response.Ok? <==> res.Ok? && key !in res.value.drained && key in res.value.results)
    && (response.Ok? ==> response.value == res.value.results[key])
    && (res.Ok? && key in res.value.drained ==> response == Err(ShardDrained(namespace, key)))
    && (res.Ok? && key !in res.value.drained && key !in res.value.results ==> response == Err(Internal))
  }

  lemma BatchResponseSettles(res: FlushResult, namespace: string, key: ShardId, response: Result<Response, ApiError>)
    ensures Settles(res, namespace, key, response) <==> response == ToBatchResponse(res, namespace, key)
  {
  }
}

/** One attempt to assign a batch of shard keys: read, resolve, plan, merge, commit, answer. */
module Assigner {
  import opened Common
  import opened Store
  import opened Planner
  import opened Api

  /** With two owners in the state the one found depends on iteration order; the contract allows either. */
  method ShardOwners(r: Records) returns (owners: map<ShardId, ExecId>)
    ensures forall s :: s in owners <==> Held(r, s)
    ensures forall s :: s in owners ==> Holds(r, owners[s], s)
  {
    owners := map[];
    var executors := r.Keys;
    while executors != {}
      invariant executors <= r.Keys
      invariant forall s :: s in owners <==> exists e :: e in r.Keys - executors && s in r[e].shards
      invariant forall s :: s in owners ==> Holds(r, owners[s], s)
    {
      var e :| e in executors;
      owners := owners + map s | s in r[e].shards :: e;
      executors := executors - {e};
    }
    assert forall s, e :: Holds(r, e, s) ==> e in r.Keys - executors;
  }

  /** The requested keys that the state leaves to be placed. */
  predicate NeedsPlacement(ns: Namespace, s: ShardId) {
    s !in ns.drainedShards && !Held(ns.records, s)
  }

  method ResolveOwners(ns: Namespace, shardKeys: seq<ShardId>)
    returns (executorByShard: map<ShardId, ExecId>, toPlace: seq<ShardId>)
    ensures forall s :: s in executorByShard <==> s in shardKeys && s !in ns.drainedShards && Held(ns.records, s)
    ensures forall s :: s in executorByShard ==> Holds(ns.records, executorByShard[s], s)
    ensures forall s :: s in toPlace <==> s in shardKeys && NeedsPlacement(ns, s)
  {
    var owners := ShardOwners(ns.records);
    executorByShard, toPlace := map[], [];
    for n := 0 to |shardKeys|
      invariant forall s :: s in executorByShard <==>
        s in shardKeys[..n] && s !in ns.drainedShards && Held(ns.records, s)
      invariant forall s :: s in executorByShard ==> Holds(ns.records, executorByShard[s], s)
      invariant forall s :: s in toPlace <==> s in shardKeys[..n] && NeedsPlacement(ns, s)
    {
      var key := shardKeys[n];
      assert shardKeys[..n + 1] == shardKeys[..n] + [key];
      if key in ns.drainedShards {
        continue;
      }
      if key in owners {
        executorByShard := executorByShard[key := owners[key]];
        continue;
      }
      toPlace := toPlace + [key];
    }
    assert shardKeys[..|shardKeys|] == shardKeys;
  }

  function Receivers(placements: seq<Placement>): set<ExecId> {
    set p | p in placements :: p.executor
  }

  function ShardsFor(placements: seq<Placement>, e: ExecId): set<ShardId> {
    set p | p in placements && p.executor == e :: p.shard
  }

  function RecordOf(r: Records, e: ExecId): AssignedState {
    if e in r then r[e] else AssignedState(map[], 0, 0)
  }

  /** The assignments after folding the placements in: every receiver keeps what it had and gains its placements. */
  function Merged(r: Records, placements: seq<Placement>, now: int): Records {
    map e | e in r.Keys + Receivers(placements) ::
      if e in Receivers(placements) then
        RecordOf(r, e).(shards := RecordOf(r, e).shards + (map s | s in ShardsFor(placements, e) :: Ready),
            lastUpdated := now)
      else r[e]
  }

  method PlacementsByExecutor(placements: seq<Placement>) returns (out: map<ExecId, seq<ShardId>>)
    ensures out.Keys == Receivers(placements)
    ensures forall e, s :: e in out ==> (s in out[e] <==> s in ShardsFor(placements, e))
  {
    out := map[];
    for n := 0 to |placements|
      invariant out.Keys == Receivers(placements[..n])
      invariant forall e, s :: e in out ==> (s in out[e] <==> s in ShardsFor(placements[..n], e))
    {
      var p := placements[n];
      assert placements[..n + 1] == placements[..n] + [p];
      assert p.executor !in out ==> ShardsFor(placements[..n], p.executor) == {};
      out := out[p.executor := (if p.executor in out then out[p.executor] else []) + [p.shard]];
    }
    assert placements[..|placements|] == placements;
  }

  /** The state read from the store, whose assignments are edited in place before being written back. */
  class NamespaceState {
    var shardAssignments: Records

    constructor (r: Records)
      ensures shardAssignments == r
    {
      shardAssignments := r;
    }

    method MergePlacements(placements: seq<Placement>, now: int) returns (changedExecutors: set<ExecId>)
      modifies this
      ensures shardAssignments == Merged(old(shardAssignments), placements, now)
      ensures changedExecutors == Receivers(placements)
    {
      ghost var before := shardAssignments;
      changedExecutors := {};
      var byExecutor := PlacementsByExecutor(placements);
      var remaining := byExecutor.Keys;
      while remaining != {}
        invariant remaining <= byExecutor.Keys
        invariant changedExecutors == byExecutor.Keys - remaining
        invariant shardAssignments.Keys == before.Keys + changedExecutors
        invariant forall e :: e in shardAssignments ==>
          shardAssignments[e] == if e in changedExecutors then Merged(before, placements, now)[e] else before[e]
      {
        var e :| e in remaining;
        var existing := RecordOf(shardAssignments, e);
        var newShards := existing.shards + map s | s in byExecutor[e] :: Ready;
        assert newShards == Merged(before, placements, now)[e].shards by {
          assert (map s | s in byExecutor[e] :: Ready) == map s | s in ShardsFor(placements, e) :: Ready;
        }
        shardAssignments := shardAssignments[e := existing.(shards := newShards, lastUpdated := now)];
        changedExecutors := changedExecutors + {e};
        remaining := remaining - {e};
      }
      assert shardAssignments.Keys == Merged(before, placements, now).Keys;
    }
  }

  /** Every old assignment is kept and exactly the planned ones are added. */
  lemma MergedHolds(r: Records, placements: seq<Placement>, now: int, e: ExecId, s: ShardId)
    ensures Holds(Merged(r, placements, now), e, s) <==> Holds(r, e, s) || Placement(s, e) in placements
  {
    assert s in ShardsFor(placements, e) <==> Placement(s, e) in placements;
    assert Placement(s, e) in placements ==> e in Receivers(placements);
  }

  function CommitRequest(snap: Namespace, placements: seq<Placement>, now: int): Request {
    Request(Merged(snap.records, placements, now), map[], Some(Receivers(placements)))
  }

  lemma CommitRequestIsDelta(snap: Namespace, placements: seq<Placement>, now: int)
    ensures UnchangedAsRead(snap, CommitRequest(snap, placements, now))
    ensures Written(CommitRequest(snap, placements, now)) == Receivers(placements)
    ensures forall e :: e in snap.records || e in Receivers(placements) <==>
      e in CommitRequest(snap, placements, now).assignments
    ensures forall e :: e in CommitRequest(snap, placements, now).assignments ==>
      CommitRequest(snap, placements, now).assignments[e].modRevision == ModRevisionOf(snap, e)
  {
  }

  /** A commit that passes the guard adds exactly the planned placements to whatever the store holds at that moment. */
  lemma CommitHolds(snap: Namespace, ns: Namespace, placements: seq<Placement>, now: int, e: ExecId, s: ShardId)
    requires Since(snap, ns) && GuardHolds(ns, CommitRequest(snap, placements, now))
    ensures Holds(Apply(ns, CommitRequest(snap, placements, now)).records, e, s)
       <==> Holds(ns.records, e, s) || Placement(s, e) in placements
  {
    var req := CommitRequest(snap, placements, now);
    CommitRequestIsDelta(snap, placements, now);
    MergedHolds(snap.records, placements, now, e, s);
    if e in Receivers(placements) {
      GuardedRecordsAreCurrent(snap, ns, req, e);
    } else {
      assert Placement(s, e) !in placements;
    }
  }

  /** `after` has what `before` had and the placements for `e`, ready, and the time of the merge. */
  ghost predicate Gained(before: AssignedState, after: AssignedState, placements: seq<Placement>, now: int, e: ExecId) {
    && after.lastUpdated == now
    && (forall s :: Placement(s, e) in placements ==> s in after.shards && after.shards[s] == Ready)
    && (forall s :: s in after.shards && Placement(s, e) !in placements ==>
          s in before.shards && after.shards[s] == before.shards[s])
    && (forall s :: s in before.shards ==> s in after.shards)
  }

  lemma MergedGains(r: Records, placements: seq<Placement>, now: int, p: Placement)
    requires p in placements
    ensures var e, after := p.executor, Merged(r, placements, now);
      e in after && Gained(RecordOf(r, e), after[e], placements, now, e)
  {
    assert forall s :: s in ShardsFor(placements, p.executor) <==> Placement(s, p.executor) in placements;
    assert p.executor in Receivers(placements);
  }

  /** The record a commit leaves a receiver with: what it has at that moment and the placements, under the new
      revision. */
  lemma ReceiverRecord(snap: Namespace, ns: Namespace, placements: seq<Placement>, now: int, p: Placement)
    requires Since(snap, ns) && GuardHolds(ns, CommitRequest(snap, placements, now)) && p in placements
    ensures var e, next := p.executor, Apply(ns, CommitRequest(snap, placements, now));
      && e in next.records && next.records[e].modRevision == next.revision == ns.revision + 1
      && Gained(RecordOf(ns.records, e), next.records[e], placements, now, e)
  {
    var e, req := p.executor, CommitRequest(snap, placements, now);
    CommitRequestIsDelta(snap, placements, now);
    assert e in Written(req);
    GuardedRecordsAreCurrent(snap, ns, req, e);
    MergedGains(snap.records, placements, now, p);
  }

  /** Everyone else's record is untouched. */
  lemma BystanderRecord(snap: Namespace, ns: Namespace, placements: seq<Placement>, now: int, e: ExecId)
    requires forall p :: p in placements ==> p.executor != e
    ensures var next := Apply(ns, CommitRequest(snap, placements, now)).records;
      (e in next <==> e in ns.records) && (e in next ==> next[e] == ns.records[e])
  {
    CommitRequestIsDelta(snap, placements, now);
    assert e !in Written(CommitRequest(snap, placements, now));
  }

  method FetchExecutorMetadata(cache: ExecId -> Option<ShardOwner>, executorByShard: map<ShardId, ExecId>)
    returns (r: Result<map<ExecId, ShardOwner>, ApiError>)
    ensures r.Ok? ==> r.value.Keys == executorByShard.Values
    ensures r.Ok? ==> forall e :: e in r.value ==> cache(e) == Some(r.value[e])
    ensures r.Err? ==> r.error == Internal && exists s :: s in executorByShard && cache(executorByShard[s]).None?
  {
    var owners: map<ExecId, ShardOwner> := map[];
    var remaining := executorByShard.Keys;
    while remaining != {}
      invariant remaining <= executorByShard.Keys
      invariant owners.Keys == set s | s in executorByShard.Keys - remaining :: executorByShard[s]
      invariant forall e :: e in owners ==> cache(e) == Some(owners[e])
    {
      var s :| s in remaining;
      var e := executorByShard[s];
      if e !in owners {
        if cache(e).None? {
          return Err(Internal);
        }
        owners := owners[e := cache(e).value];
      }
      remaining := remaining - {s};
    }
    return Ok(owners);
  }

  method BuildResults(namespace: string, shardKeys: seq<ShardId>, executorByShard: map<ShardId, ExecId>,
                      executorOwners: map<ExecId, ShardOwner>)
    returns (results: map<ShardId, Response>)
    requires executorByShard.Values <= executorOwners.Keys
    ensures forall s :: s in results <==> s in shardKeys && s in executorByShard
    ensures forall s :: s in results ==>
      var owner := executorOwners[executorByShard[s]];
        results[s] == Response(owner.executorID, namespace, owner.metadata)
  {
    results := map[];
    for n := 0 to |shardKeys|
      invariant forall s :: s in results <==> s in shardKeys[..n] && s in executorByShard
      invariant forall s :: s in results ==>
        var owner := executorOwners[executorByShard[s]];
          results[s] == Response(owner.executorID, namespace, owner.metadata)
    {
      var key := shardKeys[n];
      assert shardKeys[..n + 1] == shardKeys[..n] + [key];
      if key in executorByShard {
        var owner := executorOwners[executorByShard[key]];
        results := results[key := Response(owner.executorID, namespace, owner.metadata)];
      }
    }
    assert shardKeys[..|shardKeys|] == shardKeys;
  }

  /** How the storage call may go wrong besides a version conflict: the write is lost, or it lands but is reported
      lost. */
  datatype Fault = NoFault | NotApplied | AppliedButLost

  /** `next` is the store after the attempt; `wrote` is whether this attempt changed it. */
  datatype Attempt = Attempt(next: Namespace, wrote: bool, result: FlushResult)

  /** The placements of an attempt: distinct shards that were neither owned nor drained, on assignable executors. */
  ghost predicate ValidPlan(snap: Namespace, placements: seq<Placement>) {
    && (forall i, j :: 0 <= i < j < |placements| ==> placements[i].shard != placements[j].shard)
    && (forall p :: p in placements ==> NeedsPlacement(snap, p.shard) && p.executor in Assignable(snap, {}))
  }

  /** The batch names, for each key it answers, an executor the cache knows, with that executor's metadata. */
  ghost predicate Describes(batch: Batch, namespace: string, cache: ExecId -> Option<ShardOwner>) {
    forall k :: k in batch.results ==>
      var answer := batch.results[k];
      answer.namespace == namespace && cache(answer.owner) == Some(ShardOwner(answer.owner, answer.metadata))
  }

  /** What a successful attempt answers, relative to the state the answers are about. */
  ghost predicate Answers(used: Namespace, drained: set<ShardId>, shardKeys: seq<ShardId>, namespace: string,
                          res: FlushResult) {
    forall k :: k in shardKeys ==>
      var answer := ToBatchResponse(res, namespace, k);
      if k in drained then answer == Err(ShardDrained(namespace, k))
      else answer.Ok? && Holds(used.records, answer.value.owner, k)
  }

  /** The planner's contract as an attempt relies on it: every key placed, nothing else, on assignable executors. */
  method PlanKeys(mode: Mode, snap: Namespace, toPlace: seq<ShardId>) returns (r: Option<seq<Placement>>)
    requires toPlace != [] && forall s :: s in toPlace ==> NeedsPlacement(snap, s)
    ensures r.None? <==> mode.OtherMode? || forall e :: !Takes(snap, e)
    ensures r.Some? ==> ValidPlan(snap, r.value) && r.value != []
    ensures r.Some? ==> EachLeast(StartingLoads(mode, snap), AverageLoad(mode, snap), r.value)
    ensures r.Some? ==> forall s :: s in toPlace <==> exists p :: p in r.value && p.shard == s
  {
    var planned := PlanInitialPlacement(mode, snap, toPlace);
    if planned.Err? {
      assert planned.error.UnsupportedMode? || planned.error.NoActiveExecutors?;
      return None;
    }
    assert toPlace[0] in toPlace;
    return Some(planned.value);
  }

  /** Plan the unowned keys, merge the plan into the state read, and commit it against the store's `current` state. */
  method PlaceAndCommit(mode: Mode, snap: Namespace, current: Namespace, fault: Fault, toPlace: seq<ShardId>, now: int)
    returns (next: Namespace, wrote: bool, placed: Result<map<ShardId, ExecId>, ApiError>,
        ghost placements: seq<Placement>)
    requires Since(snap, current) && toPlace != [] && forall s :: s in toPlace ==> NeedsPlacement(snap, s)
    ensures placements == [] <==> mode.OtherMode? || forall e :: !Takes(snap, e)
    ensures ValidPlan(snap, placements) && forall p :: p in placements ==> p.shard in toPlace
    ensures EachLeast(StartingLoads(mode, snap), AverageLoad(mode, snap), placements)
    ensures wrote <==>
      placements != [] && !fault.NotApplied? && GuardHolds(current, CommitRequest(snap, placements, now))
    ensures if wrote then Wrote(snap, current, placements, now, next) else next == current
    ensures placed.Ok? <==> wrote && fault.NoFault?
    ensures placed == Err(VersionConflictError) <==> placements != [] && fault.NoFault? && !wrote
    ensures placed.Err? ==> placed.error == Internal || placed.error == VersionConflictError
    ensures placed.Ok? ==> (forall s :: s in placed.value <==> s in toPlace)
    ensures placed.Ok? ==> forall s :: s in placed.value ==> Placement(s, placed.value[s]) in placements
  {
    placements := [];
    var planned := PlanKeys(mode, snap, toPlace);
    if planned.None? {
      return current, false, Err(Internal), placements;
    }
    placements := planned.value;
    next, wrote, placed := CommitPlan(snap, current, fault, planned.value, now);
  }

  /** Merge a plan into the state read, and commit it. */
  method CommitPlan(snap: Namespace, current: Namespace, fault: Fault, placements: seq<Placement>, now: int)
    returns (next: Namespace, wrote: bool, placed: Result<map<ShardId, ExecId>, ApiError>)
    requires placements != [] && ValidPlan(snap, placements)
    ensures wrote <==> !fault.NotApplied? && GuardHolds(current, CommitRequest(snap, placements, now))
    ensures if wrote then Wrote(snap, current, placements, now, next) else next == current
    ensures placed.Ok? <==> wrote && fault.NoFault?
    ensures placed == Err(VersionConflictError) <==> fault.NoFault? && !wrote
    ensures placed.Err? ==> placed.error == Internal || placed.error == VersionConflictError
    ensures placed.Ok? ==> placed.value == PlacedOn(placements)
  {
    var state := new NamespaceState(snap.records);
    var changed := state.MergePlacements(placements, now);
    var req := Request(state.shardAssignments, map[], Some(changed));
    assert req == CommitRequest(snap, placements, now);
    CommitRequestIsDelta(snap, placements, now);
    assert placements[0].executor in Written(req);
    var (stored, outcome) := AssignShards(current, req, true);
    match fault
    case NotApplied =>
      return current, false, Err(Internal);
    case AppliedButLost =>
      return stored, outcome.Committed?, Err(Internal);
    case NoFault =>
      if outcome.VersionConflict? {
        return current, false, Err(VersionConflictError);
      }
      return stored, true, Ok(PlacedOn(placements));
  }

  /** `next` is `current` after a guarded commit of a non-empty valid plan made from `snap`. */
  ghost predicate Wrote(snap: Namespace, current: Namespace, placements: seq<Placement>, now: int, next: Namespace) {
    && placements != [] && ValidPlan(snap, placements)
    && GuardHolds(current, CommitRequest(snap, placements, now))
    && next == Apply(current, CommitRequest(snap, placements, now))
  }

  /** After a commit, an owner resolved before it and an owner planned in it are both owners in the committed state. */
  lemma OwnersAreCommitted(snap: Namespace, current: Namespace, placements: seq<Placement>, now: int, next: Namespace,
                           e: ExecId, s: ShardId)
    requires Since(snap, current) && Wrote(snap, current, placements, now, next)
    requires Holds(snap.records, e, s) || Placement(s, e) in placements
    ensures Holds(next.records, e, s)
  {
    CommitHolds(snap, current, placements, now, e, s);
    CommitRequestIsDelta(snap, placements, now);
    if Holds(snap.records, e, s) {
      GuardedRecordsAreCurrent(snap, current, CommitRequest(snap, placements, now), e);
    }
  }

  /**
   One attempt.  `read` is what the state read returned (none when it failed), `current` the store when the write
   reaches it.  The cache is a function because each executor is looked up at most once per attempt.
   */
  method TryAssign(mode: Mode, namespace: string, read: Option<Namespace>, current: Namespace, fault: Fault,
                   cache: ExecId -> Option<ShardOwner>, shardKeys: seq<ShardId>, now: int)
    returns (a: Attempt, ghost placements: seq<Placement>)
    requires read.Some? ==> Since(read.value, current)
    requires forall e :: cache(e).Some? ==> cache(e).value.executorID == e
    ensures placements != [] <==> read.Some? && !mode.OtherMode? && (exists e :: Takes(read.value, e)) &&
                                  exists k :: k in shardKeys && NeedsPlacement(read.value, k)
    ensures forall p :: p in placements ==>
      && p.shard in shardKeys && p.shard !in read.value.drainedShards && Takes(read.value, p.executor)
      && forall e :: !Holds(read.value.records, e, p.shard)
    ensures read.Some? ==> EachLeast(StartingLoads(mode, read.value), AverageLoad(mode, read.value), placements)
    ensures a.wrote <==>
      placements != [] && !fault.NotApplied? && GuardHolds(current, CommitRequest(read.value, placements, now))
    ensures if a.wrote then Wrote(read.value, current, placements, now, a.next) else a.next == current
    ensures a.result == Err(VersionConflictError) <==> placements != [] && fault.NoFault? && !a.wrote
    ensures a.result.Err? ==> a.result.error == Internal || a.result.error == VersionConflictError
    ensures a.result.Ok? ==> read.Some? && a.result.value.drained == read.value.drainedShards
    ensures a.result.Ok? ==>
      Answers(if a.wrote then a.next else read.value, read.value.drainedShards, shardKeys, namespace, a.result)
    ensures a.result.Ok? ==> Describes(a.result.value, namespace, cache)
    ensures a.result.Ok? && !a.wrote ==> forall k :: k in shardKeys ==> !NeedsPlacement(read.value, k)
  {
    placements := [];
    if read.None? {
      return Attempt(current, false, Err(Internal)), placements;
    }
    var snap := read.value;
    var executorByShard, toPlace := ResolveOwners(snap, shardKeys);
    var next, wrote := current, false;
    assert toPlace != [] <==> exists k :: k in shardKeys && NeedsPlacement(snap, k) by {
      assert toPlace != [] ==> toPlace[0] in toPlace;
    }
    if toPlace != [] {
      var placed;
      next, wrote, placed, placements := PlaceAndCommit(mode, snap, current, fault, toPlace, now);
      if placed.Err? {
        return Attempt(next, wrote, Err(placed.error)), placements;
      }
      forall k | k in executorByShard || k in placed.value
        ensures Holds(next.records, (executorByShard + placed.value)[k], k)
      {
        OwnersAreCommitted(snap, current, placements, now, next, (executorByShard + placed.value)[k], k);
      }
      executorByShard := executorByShard + placed.value;
    }
    ghost var used := if wrote then next else snap;
    assert Resolved(used, snap.drainedShards, shardKeys, executorByShard);
    var result := AnswerBatch(used, namespace, snap.drainedShards, cache, shardKeys, executorByShard);
    a := Attempt(next, wrote, result);
  }

  /** Every requested key that is not drained has an owner, and it is an owner in `used`. */
  ghost predicate Resolved(used: Namespace, drained: set<ShardId>, shardKeys: seq<ShardId>,
                           executorByShard: map<ShardId, ExecId>) {
    && (forall k :: k in shardKeys && k !in drained ==> k in executorByShard)
    && (forall k :: k in executorByShard ==> Holds(used.records, executorByShard[k], k))
  }

  method AnswerBatch(ghost used: Namespace, namespace: string, drained: set<ShardId>,
                     cache: ExecId -> Option<ShardOwner>,
                     shardKeys: seq<ShardId>, executorByShard: map<ShardId, ExecId>)
    returns (result: FlushResult)
    requires forall e :: cache(e).Some? ==> cache(e).value.executorID == e
    requires Resolved(used, drained, shardKeys, executorByShard)
    ensures result.Err? <==> exists k :: k in executorByShard && cache(executorByShard[k]).None?
    ensures result.Err? ==> result.error == Internal
    ensures result.Ok? ==> Answers(used, drained, shardKeys, namespace, result)
    ensures result.Ok? ==> result.value.drained == drained && Describes(result.value, namespace, cache)
  {
    var owners := FetchExecutorMetadata(cache, executorByShard);
    if owners.Err? {
      return Err(owners.error);
    }
    var results := BuildResults(namespace, shardKeys, executorByShard, owners.value);
    return Ok(Batch(results, drained));
  }

  /** The loop that records each placement as its shard's owner. */
  function PlacedOn(placements: seq<Placement>): (m: map<ShardId, ExecId>)
    ensures forall s :: s in m <==> exists p :: p in placements && p.shard == s
    ensures forall s :: s in m ==> Placement(s, m[s]) in placements
  {
    if placements == [] then map[]
    else
      var n := |placements| - 1;
      assert forall p :: p in placements <==> p in placements[..n] || p == placements[n];
      PlacedOn(placements[..n])[placements[n].shard := placements[n].executor]
  }
}
