/** Identifiers and wrappers shared by every module. */
module Common {
  type ShardId = string
  type ExecId = string

  datatype Option<+T> = None | Some(value: T)
  datatype Result<+T, +E> = Ok(value: T) | Err(error: E)
}

/**
 The persisted state of one namespace and the transactions that change it.

 Every transaction takes the next store revision.  A record is one executor's assigned-state key; its
 `modRevision` is the revision of the transaction that last wrote it, and an absent key compares as revision 0.
 */
module Store {
  import opened Common

  datatype AssignmentStatus = Invalid | Ready

  datatype AssignedState = AssignedState(shards: map<ShardId, AssignmentStatus>, lastUpdated: int, modRevision: nat)

  type Records = map<ExecId, AssignedState>

  datatype ExecutorStatus = StatusInvalid | Active | Draining | Drained

  /** `hostname` is empty when the heartbeat carries no host metadata. */
  datatype HeartbeatState = HeartbeatState(status: ExecutorStatus, hostname: string, lastHeartbeat: int)

  datatype Namespace = Namespace(
    records: Records,
    executors: map<ExecId, HeartbeatState>,
    drainedShards: set<ShardId>,
    drainedHosts: set<string>,
    revision: nat)

  /** Executor `e` is persisted as an owner of shard `s`. */
  predicate Holds(r: Records, e: ExecId, s: ShardId) {
    e in r && s in r[e].shards
  }

  /** No shard has two owners. */
  ghost predicate Unique(r: Records) {
    forall e1, e2, s :: Holds(r, e1, s) && Holds(r, e2, s) ==> e1 == e2
  }

  predicate Held(r: Records, s: ShardId) {
    exists e :: e in r && s in r[e].shards
  }

  predicate IsAssignable(ns: Namespace, stale: set<ExecId>, e: ExecId) {
    && e in ns.executors
    && ns.executors[e].status == Active
    && !(ns.executors[e].hostname != "" && ns.executors[e].hostname in ns.drainedHosts)
    && e !in stale
  }

  function Assignable(ns: Namespace, stale: set<ExecId>): set<ExecId> {
    set e | e in ns.executors && IsAssignable(ns, stale, e)
  }

  /** What the store maintains: a present record was written by some past transaction. */
  ghost predicate Stored(ns: Namespace) {
    forall e :: e in ns.records ==> 0 < ns.records[e].modRevision <= ns.revision
  }

  /** `snap` is a state `ns` was in earlier: a record not written since `snap` was read is still the one in `snap`. */
  ghost predicate Since(snap: Namespace, ns: Namespace) {
    && Stored(snap)
    && snap.revision <= ns.revision
    && forall e :: e in ns.records && ns.records[e].modRevision <= snap.revision ==>
         e in snap.records && snap.records[e] == ns.records[e]
  }

  /** `changed == None` writes every listed executor. */
  datatype Request = Request(assignments: Records, deletes: map<ExecId, nat>, changed: Option<set<ExecId>>)

  datatype Outcome = Committed | VersionConflict

  function ModRevisionOf(ns: Namespace, e: ExecId): nat {
    if e in ns.records then ns.records[e].modRevision else 0
  }

  /** The comparisons of the nested transaction: every listed and every deleted executor, changed or not. */
  predicate GuardHolds(ns: Namespace, req: Request) {
    && (forall e :: e in req.assignments ==> ModRevisionOf(ns, e) == req.assignments[e].modRevision)
    && (forall e :: e in req.deletes ==> ModRevisionOf(ns, e) == req.deletes[e])
  }

  function Written(req: Request): set<ExecId> {
    match req.changed
    case None => req.assignments.Keys
    case Some(c) => req.assignments.Keys * c
  }

  /** The operations of the nested transaction: deletes of whole executors, then puts of the written records. */
  function Apply(ns: Namespace, req: Request): Namespace {
    ns.(records := map e | e in (ns.records.Keys - req.deletes.Keys) + Written(req) ::
                     if e in Written(req) then req.assignments[e].(modRevision := ns.revision + 1) else ns.records[e],
        executors := ns.executors - req.deletes.Keys,
        revision := ns.revision + 1)
  }

  /** `leadership` is the outer guard; a caller passing the no-op guard has it true. */
  function AssignShards(ns: Namespace, req: Request, leadership: bool): (Namespace, Outcome) {
    if Written(req) == {} && req.deletes == map[] then (ns, Committed)
    else if leadership && GuardHolds(ns, req) then (Apply(ns, req), Committed)
    else (ns, VersionConflict)
  }

  /** The executor's listed or deleted revision is not the one the store has. */
  predicate OutOfDate(ns: Namespace, req: Request, e: ExecId) {
    || (e in req.assignments && req.assignments[e].modRevision != ModRevisionOf(ns, e))
    || (e in req.deletes && req.deletes[e] != ModRevisionOf(ns, e))
  }

  /** A conflict changes nothing and needs a reason; a commit writes the changed records under a new revision, removes
      the deleted executors with their heartbeats, and leaves everything else. */
  lemma AssignShardsEffects(ns: Namespace, req: Request, leadership: bool, e: ExecId)
    requires req.assignments.Keys !! req.deletes.Keys
    ensures var (next, outcome) := AssignShards(ns, req, leadership);
      && (outcome.VersionConflict? ==> next == ns && (!leadership || exists x :: OutOfDate(ns, req, x)))
      && (outcome.Committed? && e in req.assignments && (req.changed.None? || e in req.changed.value) ==>
            && e in next.records && next.records[e].shards == req.assignments[e].shards
            && next.records[e].lastUpdated == req.assignments[e].lastUpdated
            && next.records[e].modRevision == next.revision > ns.revision)
      && (outcome.Committed? && e in req.deletes ==> e !in next.records && e !in next.executors)
      && (e !in req.deletes && (e !in req.assignments || (req.changed.Some? && e !in req.changed.value)) ==>
            && (e in next.records <==> e in ns.records)
            && (e in next.records ==> next.records[e] == ns.records[e]))
      && (e !in req.deletes ==>
            && (e in next.executors <==> e in ns.executors)
            && (e in next.executors ==> next.executors[e] == ns.executors[e]))
      && next.drainedShards == ns.drainedShards && next.drainedHosts == ns.drainedHosts
  {
    var (next, outcome) := AssignShards(ns, req, leadership);
    assert e in req.assignments && (req.changed.None? || e in req.changed.value) ==> e in Written(req);
    if outcome.VersionConflict? && leadership {
      assert !GuardHolds(ns, req);
      if x :| x in req.assignments && ModRevisionOf(ns, x) != req.assignments[x].modRevision {
        assert OutOfDate(ns, req, x);
      } else {
        var y :| y in req.deletes && ModRevisionOf(ns, y) != req.deletes[y];
        assert OutOfDate(ns, req, y);
      }
    }
  }

  /** Where the guard holds, the call leaves the records of the transaction, even when it makes none. */
  lemma GuardedAssignIsApply(ns: Namespace, req: Request)
    requires GuardHolds(ns, req)
    ensures AssignShards(ns, req, true).0.records == Apply(ns, req).records
  {
    if Written(req) == {} && req.deletes == map[] {
      assert Apply(ns, req).records == ns.records;
    }
  }

  /** Transactions that never write a record: heartbeats, drains and undrains, executor deletion, namespace reset. */
  function Disturb(ns: Namespace, removed: set<ExecId>, executors: map<ExecId, HeartbeatState>,
                   drainedShards: set<ShardId>, drainedHosts: set<string>): Namespace
  {
    Namespace(ns.records - removed, executors, drainedShards, drainedHosts, ns.revision + 1)
  }

  /** Every transaction leaves earlier reads in the `Since` relation and keeps revisions well formed. */
  lemma AssignShardsKeepsHistory(snap: Namespace, ns: Namespace, req: Request, leadership: bool)
    requires Stored(ns) && Since(snap, ns)
    ensures Stored(AssignShards(ns, req, leadership).0)
    ensures Since(snap, AssignShards(ns, req, leadership).0)
  {
    var next := AssignShards(ns, req, leadership).0;
    forall e | e in next.records
      ensures 0 < next.records[e].modRevision <= next.revision
    {
      assert e !in Written(req) ==> e in ns.records;
    }
    forall e | e in next.records && next.records[e].modRevision <= snap.revision
      ensures e in snap.records && snap.records[e] == next.records[e]
    {
      assert e in ns.records && ns.records[e] == next.records[e];
    }
  }

  lemma DisturbKeepsHistory(snap: Namespace, ns: Namespace, removed: set<ExecId>,
                            executors: map<ExecId, HeartbeatState>,
                            drainedShards: set<ShardId>, drainedHosts: set<string>)
    requires Stored(ns) && Since(snap, ns)
    ensures Stored(Disturb(ns, removed, executors, drainedShards, drainedHosts))
    ensures Since(snap, Disturb(ns, removed, executors, drainedShards, drainedHosts))
    ensures Unique(ns.records) ==> Unique(Disturb(ns, removed, executors, drainedShards, drainedHosts).records)
    ensures var next := Disturb(ns, removed, executors, drainedShards, drainedHosts);
      && (forall e :: e in next.records <==> e in ns.records && e !in removed)
      && (forall e :: e in next.records ==> next.records[e] == ns.records[e])
      && next.executors == executors && next.drainedShards == drainedShards && next.drainedHosts == drainedHosts
      && next.revision > ns.revision
  {
    var next := Disturb(ns, removed, executors, drainedShards, drainedHosts);
    forall e1, e2, s | Unique(ns.records) && Holds(next.records, e1, s) && Holds(next.records, e2, s)
      ensures e1 == e2
    {
      assert Holds(ns.records, e1, s) && Holds(ns.records, e2, s);
    }
  }

  /** What the guard buys: a listed executor whose expected revision was taken from `snap` is exactly as `snap` had
      it. */
  lemma GuardedRecordsAreCurrent(snap: Namespace, ns: Namespace, req: Request, e: ExecId)
    requires Since(snap, ns) && GuardHolds(ns, req)
    requires e in req.assignments || e in req.deletes
    requires e in req.assignments ==> req.assignments[e].modRevision == ModRevisionOf(snap, e)
    requires e in req.deletes ==> req.deletes[e] == ModRevisionOf(snap, e)
    ensures e in snap.records <==> e in ns.records
    ensures e in snap.records ==> snap.records[e] == ns.records[e]
  {
    if e in ns.records {
      assert ns.records[e].modRevision == ModRevisionOf(snap, e);
    }
  }

  /** The same assignments, whatever transaction wrote them. */
  ghost predicate SameAssignments(a: Records, b: Records) {
    && a.Keys == b.Keys
    && forall e :: e in a ==> a[e].shards == b[e].shards && a[e].lastUpdated == b[e].lastUpdated
  }

  /** A listed but unchanged executor is listed as it was read. */
  ghost predicate UnchangedAsRead(snap: Namespace, req: Request) {
    && req.changed.Some?
    && req.assignments.Keys !! req.deletes.Keys
    && forall e :: e in req.assignments && e !in req.changed.value ==>
         e in snap.records && req.assignments[e] == snap.records[e]
  }

  /** Writing only the changed executors has the same effect as writing all of them, because the guard covers all. */
  lemma DeltaWriteEqualsFullWrite(snap: Namespace, ns: Namespace, req: Request)
    requires Since(snap, ns) && UnchangedAsRead(snap, req) && GuardHolds(ns, req)
    ensures SameAssignments(Apply(ns, req).records, Apply(ns, req.(changed := None)).records)
  {
    var delta := Apply(ns, req).records;
    var full := Apply(ns, req.(changed := None)).records;
    forall e | e in req.assignments && e !in req.changed.value
      ensures e in ns.records && ns.records[e] == req.assignments[e]
    {
      GuardedRecordsAreCurrent(snap, ns, req, e);
    }
    assert delta.Keys == full.Keys;
  }
}
