/**
 Any number of assigners and leaders working on one namespace at once.

 A process reads the store, plans from what it read, and later commits; between any two of its steps any other process
 and any operator may act.  No host is trusted to be the only one: the only protection is the guard of each commit.
 */
module Protocol {
  import opened Common
  import opened Store
  import opened Planner
  import opened Assigner
  import opened LeaderCommit

  datatype Phase =
    | Idle
    | HasRead(snap: Namespace)
    | Planned(snap: Namespace, placements: seq<Placement>)
    | Rebalanced(snap: Namespace, deleted: set<ShardId>, plan: LeaderPlan)

  datatype System = System(ns: Namespace, processes: map<nat, Phase>)

  datatype Step =
    | Read(id: nat)
    | Plan(id: nat, placements: seq<Placement>)
    | Commit(id: nat, now: int)
    | LeaderPlanning(id: nat, deleted: set<ShardId>, plan: LeaderPlan)
    | LeaderCommitting(id: nat, now: int, leadership: bool)
    | Abandon(id: nat)
    | Environment(removed: set<ExecId>, executors: map<ExecId, HeartbeatState>, drainedShards: set<ShardId>,
        drainedHosts: set<string>)

  function PhaseOf(sys: System, id: nat): Phase {
    if id in sys.processes then sys.processes[id] else Idle
  }

  ghost predicate Enabled(sys: System, step: Step) {
    match step
    case Read(id) => PhaseOf(sys, id).Idle?
    case Plan(id, placements) => PhaseOf(sys, id).HasRead? && ValidPlan(PhaseOf(sys, id).snap, placements)
    case Commit(id, _) => PhaseOf(sys, id).Planned?
    case LeaderPlanning(id, deleted, plan) => PhaseOf(sys, id).HasRead? &&
      ValidLeaderPlan(Ephemeral, PhaseOf(sys, id).snap, deleted, plan)
    case LeaderCommitting(id, _, _) => PhaseOf(sys, id).Rebalanced?
    case Abandon(id) => true
    case Environment(_, _, _, _) => true
  }

  /** The store after a step. */
  function NextStore(sys: System, step: Step): Namespace {
    match step
    case Commit(id, now) =>
      (match PhaseOf(sys, id)
       case Planned(snap, placements) => AssignShards(sys.ns, CommitRequest(snap, placements, now), true).0
       case _ => sys.ns)
    case LeaderCommitting(id, now, leadership) =>
      (match PhaseOf(sys, id)
       case Rebalanced(snap, _, plan) => AssignShards(sys.ns, LeaderRequest(snap, plan, now), leadership).0
       case _ => sys.ns)
    case Environment(removed, executors, drainedShards, drainedHosts) =>
      Disturb(sys.ns, removed, executors, drainedShards, drainedHosts)
    case _ => sys.ns
  }

  function Next(sys: System, step: Step): System
  {
    var processes :=
      match step
      case Read(id) => sys.processes[id := HasRead(sys.ns)]
      case Plan(id, placements) =>
        if PhaseOf(sys, id).HasRead? then sys.processes[id := Planned(PhaseOf(sys, id).snap, placements)]
          else sys.processes
      case LeaderPlanning(id, deleted, plan) =>
        if PhaseOf(sys, id).HasRead? then sys.processes[id := Rebalanced(PhaseOf(sys, id).snap, deleted, plan)]
          else sys.processes
      case Commit(id, _) => sys.processes[id := Idle]
      case LeaderCommitting(id, _, _) => sys.processes[id := Idle]
      case Abandon(id) => sys.processes[id := Idle]
      case Environment(_, _, _, _) => sys.processes;
    System(NextStore(sys, step), processes)
  }

  /** What each process remembers is a past state of the store, and its plan is a plan for that state. */
  ghost predicate Remembers(ns: Namespace, phase: Phase) {
    match phase
    case Idle => true
    case HasRead(snap) => Since(snap, ns)
    case Planned(snap, placements) => Since(snap, ns) && ValidPlan(snap, placements)
    case Rebalanced(snap, deleted, plan) => Since(snap, ns) && ValidLeaderPlan(Ephemeral, snap, deleted, plan)
  }

  ghost predicate Consistent(sys: System) {
    Stored(sys.ns) && forall id :: id in sys.processes ==> Remembers(sys.ns, sys.processes[id])
  }

  ghost predicate Initial(sys: System) {
    Stored(sys.ns) && Unique(sys.ns.records) && sys.processes == map[]
  }

  ghost predicate IsRun(start: System, steps: seq<Step>)
    decreases |steps|
  {
    steps == [] || (Enabled(start, steps[0]) && IsRun(Next(start, steps[0]), steps[1..]))
  }

  function After(start: System, steps: seq<Step>): System
    decreases |steps|
  {
    if steps == [] then start else After(Next(start, steps[0]), steps[1..])
  }

  lemma {:induction false} AfterOneMore(start: System, steps: seq<Step>, step: Step)
    ensures After(start, steps + [step]) == Next(After(start, steps), step)
    decreases |steps|
  {
    if steps != [] {
      AfterOneMore(Next(start, steps[0]), steps[1..], step);
      assert (steps + [step])[1..] == steps[1..] + [step];
    }
  }

  lemma {:induction false} RunOneMore(start: System, steps: seq<Step>, step: Step)
    requires IsRun(start, steps) && Enabled(After(start, steps), step)
    ensures IsRun(start, steps + [step])
    decreases |steps|
  {
    if steps != [] {
      RunOneMore(Next(start, steps[0]), steps[1..], step);
      assert (steps + [step])[1..] == steps[1..] + [step];
    }
  }

  lemma {:induction false} LinksMakeARun(states: seq<System>, steps: seq<Step>)
    requires |states| == |steps| + 1
    requires forall k :: 0 <= k < |steps| ==> Enabled(states[k], steps[k]) && Next(states[k], steps[k]) == states[k + 1]
    ensures IsRun(states[0], steps) && After(states[0], steps) == states[|steps|]
    decreases |steps|
  {
    if steps != [] {
      LinksMakeARun(states[1..], steps[1..]);
    }
  }

  /** The store only moves forward, so what a process read stays a past state. */
  lemma StoreMovesOn(snap: Namespace, sys: System, step: Step)
    requires Stored(sys.ns) && Since(snap, sys.ns)
    ensures Stored(NextStore(sys, step)) && Since(snap, NextStore(sys, step))
  {
    match step
    case Commit(id, now) =>
      match PhaseOf(sys, id) {
        case Planned(s, placements) => AssignShardsKeepsHistory(snap, sys.ns, CommitRequest(s, placements, now), true);
        case _ =>
      }
    case LeaderCommitting(id, now, leadership) =>
      match PhaseOf(sys, id) {
        case Rebalanced(s, _, plan) => AssignShardsKeepsHistory(snap, sys.ns, LeaderRequest(s, plan, now), leadership);
        case _ =>
      }
    case Environment(removed, executors, drainedShards, drainedHosts) =>
      DisturbKeepsHistory(snap, sys.ns, removed, executors, drainedShards, drainedHosts);
    case _ =>
  }

  lemma StepKeepsConsistent(sys: System, step: Step)
    requires Consistent(sys) && Enabled(sys, step)
    ensures Consistent(Next(sys, step))
  {
    var next := Next(sys, step);
    StoreMovesOn(sys.ns, sys, step);
    forall id | id in next.processes
      ensures Remembers(next.ns, next.processes[id])
    {
      if id in sys.processes && !sys.processes[id].Idle? {
        StoreMovesOn(sys.processes[id].snap, sys, step);
      }
    }
  }

  /** A commit of a non-empty plan reaches the store exactly when its guard holds. */
  lemma CommitReaches(ns: Namespace, snap: Namespace, placements: seq<Placement>, now: int)
    ensures var req := CommitRequest(snap, placements, now);
      AssignShards(ns, req, true).0 == if placements != [] && GuardHolds(ns, req) then Apply(ns, req) else ns
  {
    CommitRequestIsDelta(snap, placements, now);
    if placements != [] {
      assert placements[0].executor in Receivers(placements);
    } else {
      assert Receivers(placements) == {};
    }
  }

  /** The step of a process whose plan passes the guard is the commit an attempt makes. */
  lemma CommitStepWrites(sys: System, id: nat, now: int, snap: Namespace, placements: seq<Placement>, next: Namespace)
    requires PhaseOf(sys, id) == Planned(snap, placements) && Wrote(snap, sys.ns, placements, now, next)
    ensures Next(sys, Commit(id, now)).ns == next
  {
    CommitReaches(sys.ns, snap, placements, now);
  }

  /** The leader's step writes what its rebalance would, and without the leadership no record changes. */
  lemma LeaderStepWrites(sys: System, id: nat, now: int, leadership: bool)
    requires PhaseOf(sys, id).Rebalanced?
    ensures var Rebalanced(snap, _, plan) := PhaseOf(sys, id);
      var next := Next(sys, LeaderCommitting(id, now, leadership)).ns;
      next.records == if leadership && GuardHolds(sys.ns, LeaderRequest(snap, plan, now))
                      then Apply(sys.ns, LeaderRequest(snap, plan, now)).records else sys.ns.records
  {
    var Rebalanced(snap, _, plan) := PhaseOf(sys, id);
    if GuardHolds(sys.ns, LeaderRequest(snap, plan, now)) {
      GuardedAssignIsApply(sys.ns, LeaderRequest(snap, plan, now));
    }
  }

  /** However an attempt ends, the next one of the same process can start, and it reads the store as it is then. */
  lemma NextAttemptReadsAfresh(sys: System, step: Step, id: nat)
    requires Enabled(sys, step)
    requires step == Abandon(id) || (step.Commit? && step.id == id) || (step.LeaderCommitting? && step.id == id)
    ensures var next := Next(sys, step);
      Enabled(next, Read(id)) && PhaseOf(Next(next, Read(id)), id) == HasRead(NextStore(sys, step))
  {
  }

  /** A commit whose guard passes; `ns` is the store it meets. */
  ghost predicate Commits(ns: Namespace, snap: Namespace, placements: seq<Placement>, now: int) {
    Since(snap, ns) && ValidPlan(snap, placements) && GuardHolds(ns, CommitRequest(snap, placements, now))
  }

  /** Every executor with a record when the commit lands was listed in the request, hence guarded. */
  ghost predicate Covered(ns: Namespace, snap: Namespace, placements: seq<Placement>) {
    forall e :: e in ns.records ==> e in snap.records || e in Receivers(placements)
  }

  /** With every record guarded, a passing guard means the assignments planned from are the assignments overwritten. */
  lemma CoveredCommitSeesPlannedState(ns: Namespace, snap: Namespace, placements: seq<Placement>, now: int)
    requires Commits(ns, snap, placements, now) && Covered(ns, snap, placements)
    ensures ns.records == snap.records
  {
    var req := CommitRequest(snap, placements, now);
    CommitRequestIsDelta(snap, placements, now);
    forall e | e in snap.records || e in ns.records
      ensures e in snap.records && e in ns.records && snap.records[e] == ns.records[e]
    {
      GuardedRecordsAreCurrent(snap, ns, req, e);
    }
    assert ns.records.Keys == snap.records.Keys;
  }

  /** The executors the guard does not look at hold none of the shards being placed. */
  ghost predicate UnguardedHoldNone(ns: Namespace, snap: Namespace, placements: seq<Placement>) {
    forall e, p :: e in ns.records && e !in snap.records && e !in Receivers(placements) && p in placements ==>
      p.shard !in ns.records[e].shards
  }

  /** Exactly when a commit keeps ownership unique.  The guard alone does not: see `TwoOwnersRun`. */
  lemma CommitKeepsUniqueExactlyWhen(ns: Namespace, snap: Namespace, placements: seq<Placement>, now: int)
    requires Commits(ns, snap, placements, now) && Unique(ns.records)
    ensures Unique(Apply(ns, CommitRequest(snap, placements, now)).records) <==> UnguardedHoldNone(ns, snap, placements)
  {
    var next := Apply(ns, CommitRequest(snap, placements, now)).records;
    if Unique(next) {
      forall e, p | e in ns.records && e !in snap.records && e !in Receivers(placements) && p in placements
        ensures p.shard !in ns.records[e].shards
      {
        CommitHolds(snap, ns, placements, now, p.executor, p.shard);
        CommitHolds(snap, ns, placements, now, e, p.shard);
        assert Placement(p.shard, p.executor) == p;
        assert p.executor in Receivers(placements);
        assert Holds(next, p.executor, p.shard) && (Holds(ns.records, e, p.shard) ==> Holds(next, e, p.shard));
      }
    }
    if UnguardedHoldNone(ns, snap, placements) {
      forall e1, e2, s | Holds(next, e1, s) && Holds(next, e2, s)
        ensures e1 == e2
      {
        CommitHolds(snap, ns, placements, now, e1, s);
        CommitHolds(snap, ns, placements, now, e2, s);
        if Placement(s, e1) in placements {
          PlacedShardHasNoHolder(ns, snap, placements, now, e1, e2, s);
        }
        if Placement(s, e2) in placements {
          PlacedShardHasNoHolder(ns, snap, placements, now, e2, e1, s);
        }
        if Placement(s, e1) in placements && Placement(s, e2) in placements {
          var i :| 0 <= i < |placements| && placements[i] == Placement(s, e1);
          var j :| 0 <= j < |placements| && placements[j] == Placement(s, e2);
          assert i == j;
        }
      }
    }
  }

  lemma PlacedShardHasNoHolder(ns: Namespace, snap: Namespace, placements: seq<Placement>, now: int, e: ExecId,
                               x: ExecId, s: ShardId)
    requires Commits(ns, snap, placements, now) && UnguardedHoldNone(ns, snap, placements)
    requires Placement(s, e) in placements
    ensures !Holds(ns.records, x, s)
  {
    CommitRequestIsDelta(snap, placements, now);
    if x in snap.records || x in Receivers(placements) {
      GuardedRecordsAreCurrent(snap, ns, CommitRequest(snap, placements, now), x);
    }
  }

  /** If this step is an assigner's commit that goes through, no unguarded executor holds a shard it places. */
  ghost predicate StepHarmless(sys: System, step: Step) {
    step.Commit? ==>
      match PhaseOf(sys, step.id)
      case Planned(snap, placements) =>
        GuardHolds(sys.ns, CommitRequest(snap, placements, step.now)) ==> UnguardedHoldNone(sys.ns, snap, placements)
      case _ => true
  }

  lemma CommitStepExactlyWhen(sys: System, id: nat, now: int)
    requires Consistent(sys) && Unique(sys.ns.records) && PhaseOf(sys, id).Planned?
    ensures Unique(Next(sys, Commit(id, now)).ns.records) <==> StepHarmless(sys, Commit(id, now))
  {
    var Planned(snap, placements) := PhaseOf(sys, id);
    CommitReaches(sys.ns, snap, placements, now);
    if GuardHolds(sys.ns, CommitRequest(snap, placements, now)) {
      CommitKeepsUniqueExactlyWhen(sys.ns, snap, placements, now);
    }
  }

  /** Every step keeps ownership unique, except exactly a commit that is not harmless. */
  lemma StepKeepsUniqueExactlyWhen(sys: System, step: Step)
    requires Consistent(sys) && Unique(sys.ns.records) && Enabled(sys, step)
    ensures Unique(Next(sys, step).ns.records) <==> StepHarmless(sys, step)
  {
    match step
    case Commit(id, now) => CommitStepExactlyWhen(sys, id, now);
    case LeaderCommitting(id, now, _) =>
      var Rebalanced(snap, deleted, plan) := PhaseOf(sys, id);
      if GuardHolds(sys.ns, LeaderRequest(snap, plan, now)) {
        LeaderCommitKeepsUnique(snap, sys.ns, deleted, plan, now);
      }
    case Environment(removed, executors, drainedShards, drainedHosts) =>
      DisturbKeepsHistory(sys.ns, sys.ns, removed, executors, drainedShards, drainedHosts);
    case _ =>
  }

  ghost predicate AllHarmless(start: System, steps: seq<Step>)
    decreases |steps|
  {
    steps == [] || (StepHarmless(start, steps[0]) && AllHarmless(Next(start, steps[0]), steps[1..]))
  }

  /** One owner per shard after each number of steps. */
  ghost predicate UniqueThroughout(start: System, steps: seq<Step>) {
    forall k :: 0 <= k <= |steps| ==> Unique(After(start, steps[..k]).ns.records)
  }

  lemma ThroughoutUnfolds(start: System, steps: seq<Step>)
    requires steps != []
    ensures UniqueThroughout(start, steps) <==>
      Unique(start.ns.records) && UniqueThroughout(Next(start, steps[0]), steps[1..])
  {
    var next, rest := Next(start, steps[0]), steps[1..];
    forall k | 0 <= k < |steps|
      ensures After(start, steps[..k + 1]) == After(next, rest[..k])
    {
      assert steps[..k + 1][1..] == rest[..k];
    }
    if UniqueThroughout(start, steps) {
      assert After(start, steps[..0]) == start;
      forall k | 0 <= k <= |rest|
        ensures Unique(After(next, rest[..k]).ns.records)
      {
        assert Unique(After(start, steps[..k + 1]).ns.records);
      }
    }
    if Unique(start.ns.records) && UniqueThroughout(next, rest) {
      forall k | 0 <= k <= |steps|
        ensures Unique(After(start, steps[..k]).ns.records)
      {
        if k > 0 {
          assert Unique(After(next, rest[..k - 1]).ns.records);
          assert After(start, steps[..(k - 1) + 1]) == After(next, rest[..k - 1]);
        }
      }
    }
  }

  /** A run has one owner per shard in all of its states exactly when all of its assigner commits are harmless. */
  lemma {:induction false} RunIsUniqueExactlyWhen(start: System, steps: seq<Step>)
    requires Consistent(start) && Unique(start.ns.records) && IsRun(start, steps)
    ensures UniqueThroughout(start, steps) <==> AllHarmless(start, steps)
    decreases |steps|
  {
    if steps != [] {
      var next := Next(start, steps[0]);
      ThroughoutUnfolds(start, steps);
      StepKeepsConsistent(start, steps[0]);
      StepKeepsUniqueExactlyWhen(start, steps[0]);
      if Unique(next.ns.records) {
        RunIsUniqueExactlyWhen(next, steps[1..]);
      } else {
        assert After(next, steps[1..][..0]) == next;
      }
    }
  }

  /** If this step is an assigner's commit that goes through, every record in the store was listed in it. */
  ghost predicate StepCovered(sys: System, step: Step) {
    step.Commit? ==>
      match PhaseOf(sys, step.id)
      case Planned(snap, placements) =>
        GuardHolds(sys.ns, CommitRequest(snap, placements, step.now)) ==> Covered(sys.ns, snap, placements)
      case _ => true
  }

  ghost predicate AllCovered(start: System, steps: seq<Step>)
    decreases |steps|
  {
    steps == [] || (StepCovered(start, steps[0]) && AllCovered(Next(start, steps[0]), steps[1..]))
  }

  lemma {:induction false} CoveredIsHarmless(start: System, steps: seq<Step>)
    requires AllCovered(start, steps)
    ensures AllHarmless(start, steps)
    decreases |steps|
  {
    if steps != [] {
      CoveredIsHarmless(Next(start, steps[0]), steps[1..]);
    }
  }

  /** One owner per shard in every state of every run whose assigner commits are covered. Leader commits need
      nothing. */
  lemma RunKeepsUnique(start: System, steps: seq<Step>)
    requires Consistent(start) && Unique(start.ns.records) && IsRun(start, steps) && AllCovered(start, steps)
    ensures UniqueThroughout(start, steps)
  {
    CoveredIsHarmless(start, steps);
    RunIsUniqueExactlyWhen(start, steps);
  }

  /** No step of the run gives an executor a record it did not have. */
  ghost predicate NoNewRecords(start: System, steps: seq<Step>)
    decreases |steps|
  {
    steps == [] ||
      (NextStore(start, steps[0]).records.Keys <= start.ns.records.Keys &&
        NoNewRecords(Next(start, steps[0]), steps[1..]))
  }

  /** Every record in the store is in every state a process remembers. */
  ghost predicate AllRemembered(sys: System) {
    forall id :: id in sys.processes && !sys.processes[id].Idle? ==>
      sys.ns.records.Keys <= sys.processes[id].snap.records.Keys
  }

  /** Over an unchanging fleet, where executors already have records, coverage comes for free. */
  lemma {:induction false} FixedFleetIsCovered(start: System, steps: seq<Step>)
    requires AllRemembered(start) && NoNewRecords(start, steps)
    ensures AllCovered(start, steps)
    decreases |steps|
  {
    if steps != [] {
      FixedFleetIsCovered(Next(start, steps[0]), steps[1..]);
    }
  }

  lemma FixedFleetKeepsUnique(start: System, steps: seq<Step>)
    requires Initial(start) && IsRun(start, steps) && NoNewRecords(start, steps)
    ensures UniqueThroughout(start, steps)
  {
    FixedFleetIsCovered(start, steps);
    RunKeepsUnique(start, steps);
  }

  /** Every executor that heartbeats has a record, so reading the namespace lists it. */
  ghost predicate Provisioned(ns: Namespace) {
    ns.executors.Keys <= ns.records.Keys
  }

  /** No executor heartbeats without a record.  Since only commits onto heartbeating executors create records, this is a
      fleet that nobody joins: it can only shrink. */
  ghost predicate StepProvisions(sys: System, step: Step) {
    step.Environment? ==> step.executors.Keys <= (sys.ns.records - step.removed).Keys
  }

  ghost predicate AllProvision(start: System, steps: seq<Step>)
    decreases |steps|
  {
    steps == [] || (StepProvisions(start, steps[0]) && AllProvision(Next(start, steps[0]), steps[1..]))
  }

  /** Every state remembered was provisioned and lists every record there still is. */
  ghost predicate FleetOk(sys: System) {
    && Consistent(sys) && Provisioned(sys.ns) && AllRemembered(sys)
    && forall id :: id in sys.processes && !sys.processes[id].Idle? ==> Provisioned(sys.processes[id].snap)
  }

  /** A guarded write to executors that had records when read finds those records, so it adds none. */
  lemma GuardedWriteAddsNoRecord(snap: Namespace, ns: Namespace, req: Request)
    requires Since(snap, ns) && Written(req) <= snap.records.Keys
    requires forall e :: e in req.assignments ==> req.assignments[e].modRevision == ModRevisionOf(snap, e)
    ensures GuardHolds(ns, req) ==> Apply(ns, req).records.Keys <= ns.records.Keys
  {
    if GuardHolds(ns, req) {
      forall e | e in Written(req)
        ensures e in ns.records
      {
        assert snap.records[e].modRevision > 0;
        assert ModRevisionOf(ns, e) == ModRevisionOf(snap, e);
      }
    }
  }

  lemma FleetAddsNoRecord(sys: System, step: Step)
    requires FleetOk(sys) && Enabled(sys, step)
    ensures NextStore(sys, step).records.Keys <= sys.ns.records.Keys
  {
    match step
    case Commit(id, now) =>
      var Planned(snap, placements) := PhaseOf(sys, id);
      CommitRequestIsDelta(snap, placements, now);
      GuardedWriteAddsNoRecord(snap, sys.ns, CommitRequest(snap, placements, now));
    case LeaderCommitting(id, now, _) =>
      var Rebalanced(snap, deleted, plan) := PhaseOf(sys, id);
      LeaderRequestIsDelta(Ephemeral, snap, deleted, plan, now);
      GuardedWriteAddsNoRecord(snap, sys.ns, LeaderRequest(snap, plan, now));
    case _ =>
  }

  lemma ApplyStaysProvisioned(ns: Namespace, req: Request, leadership: bool)
    requires Provisioned(ns)
    ensures Provisioned(AssignShards(ns, req, leadership).0)
  {
  }

  lemma FleetStaysOk(sys: System, step: Step)
    requires FleetOk(sys) && Enabled(sys, step) && StepProvisions(sys, step)
    ensures FleetOk(Next(sys, step))
  {
    StepKeepsConsistent(sys, step);
    FleetAddsNoRecord(sys, step);
    match step
    case Commit(id, now) =>
      var Planned(snap, placements) := PhaseOf(sys, id);
      ApplyStaysProvisioned(sys.ns, CommitRequest(snap, placements, now), true);
    case LeaderCommitting(id, now, leadership) =>
      var Rebalanced(snap, deleted, plan) := PhaseOf(sys, id);
      ApplyStaysProvisioned(sys.ns, LeaderRequest(snap, plan, now), leadership);
    case _ =>
  }

  lemma {:induction false} ProvisionedFleetIsFixed(start: System, steps: seq<Step>)
    requires FleetOk(start) && IsRun(start, steps) && AllProvision(start, steps)
    ensures NoNewRecords(start, steps)
    decreases |steps|
  {
    if steps != [] {
      FleetAddsNoRecord(start, steps[0]);
      FleetStaysOk(start, steps[0]);
      ProvisionedFleetIsFixed(Next(start, steps[0]), steps[1..]);
    }
  }

  /** In a fleet that starts with records and only shrinks, one owner per shard holds throughout, whatever assigners and
      leaders do. */
  lemma ProvisionedFleetKeepsUnique(start: System, steps: seq<Step>)
    requires Initial(start) && Provisioned(start.ns) && IsRun(start, steps) && AllProvision(start, steps)
    ensures UniqueThroughout(start, steps)
  {
    ProvisionedFleetIsFixed(start, steps);
    FixedFleetKeepsUnique(start, steps);
  }

  const BOTH_ACTIVE :=
    Namespace(map[], map["e1" := HeartbeatState(Active, "", 0), "e2" := HeartbeatState(Active, "", 0)], {}, {}, 1)
  const ONE_DRAINING :=
    Namespace(map[], map["e1" := HeartbeatState(Draining, "", 0), "e2" := HeartbeatState(Active, "", 0)], {}, {}, 2)
  const ON_FIRST := [Placement("s", "e1")]
  const ON_SECOND := [Placement("s", "e2")]

  function OwnedAt(revision: nat): AssignedState {
    AssignedState(map["s" := Ready], 0, revision)
  }

  /** Placing shard `s` on one executor that had no record when the store was read, whatever others have gained
      since. */
  lemma CommitOnFreshExecutor(snap: Namespace, ns: Namespace, e: ExecId)
    requires snap.records == map[] && e !in ns.records
    ensures AssignShards(ns, CommitRequest(snap, [Placement("s", e)], 0), true).0
         == ns.(records := ns.records[e := OwnedAt(ns.revision + 1)], revision := ns.revision + 1)
  {
    var placements := [Placement("s", e)];
    assert placements[0] in placements;
    assert Receivers(placements) == {e} && ShardsFor(placements, e) == {"s"};
    var req := CommitRequest(snap, placements, 0);
    assert req.assignments == map[e := OwnedAt(0)] by {
      assert map[] + (map s | s in ShardsFor(placements, e) :: Ready) == map["s" := Ready];
    }
    assert e in Written(req) && Written(req) == {e};
    assert GuardHolds(ns, req);
    assert Apply(ns, req).records == ns.records[e := OwnedAt(ns.revision + 1)];
    assert Apply(ns, req).executors == ns.executors;
  }

  /** The run's steps and the states between them. */
  function TwoOwnersStep(k: nat): Step {
    match k
    case 0 => Read(1)
    case 1 => Environment({}, ONE_DRAINING.executors, {}, {})
    case 2 => Read(2)
    case 3 => Plan(1, ON_FIRST)
    case 4 => Plan(2, ON_SECOND)
    case 5 => Commit(1, 0)
    case _ => Commit(2, 0)
  }

  function TwoOwnersState(k: nat): System {
    match k
    case 0 => System(BOTH_ACTIVE, map[])
    case 1 => System(BOTH_ACTIVE, map[1 := HasRead(BOTH_ACTIVE)])
    case 2 => System(ONE_DRAINING, map[1 := HasRead(BOTH_ACTIVE)])
    case 3 => System(ONE_DRAINING, map[1 := HasRead(BOTH_ACTIVE), 2 := HasRead(ONE_DRAINING)])
    case 4 => System(ONE_DRAINING, map[1 := Planned(BOTH_ACTIVE, ON_FIRST), 2 := HasRead(ONE_DRAINING)])
    case 5 => System(ONE_DRAINING, map[1 := Planned(BOTH_ACTIVE, ON_FIRST), 2 := Planned(ONE_DRAINING, ON_SECOND)])
    case 6 =>
      System(ONE_DRAINING.(records := map["e1" := OwnedAt(3)], revision := 3),
          map[1 := Idle, 2 := Planned(ONE_DRAINING, ON_SECOND)])
    case _ =>
      System(ONE_DRAINING.(records := map["e1" := OwnedAt(3), "e2" := OwnedAt(4)], revision := 4),
          map[1 := Idle, 2 := Idle])
  }

  ghost predicate TwoOwnersLink(k: nat) {
    && Enabled(TwoOwnersState(k), TwoOwnersStep(k))
    && Next(TwoOwnersState(k), TwoOwnersStep(k)) == TwoOwnersState(k + 1)
  }

  lemma TwoOwnersReads()
    ensures TwoOwnersLink(0) && TwoOwnersLink(1) && TwoOwnersLink(2)
  {
  }

  lemma TwoOwnersPlans()
    ensures TwoOwnersLink(3) && TwoOwnersLink(4)
  {
    assert ValidPlan(BOTH_ACTIVE, ON_FIRST) && ValidPlan(ONE_DRAINING, ON_SECOND);
  }

  lemma TwoOwnersFirstCommit()
    ensures TwoOwnersLink(5)
  {
    CommitOnFreshExecutor(BOTH_ACTIVE, ONE_DRAINING, "e1");
  }

  lemma TwoOwnersSecondCommit()
    ensures TwoOwnersLink(6)
  {
    CommitOnFreshExecutor(ONE_DRAINING, TwoOwnersState(6).ns, "e2");
  }

  lemma TwoOwnersLinks(k: nat)
    requires k < 7
    ensures TwoOwnersLink(k)
  {
    if k < 3 {
      TwoOwnersReads();
    } else if k < 5 {
      TwoOwnersPlans();
    } else if k == 5 {
      TwoOwnersFirstCommit();
    } else {
      TwoOwnersSecondCommit();
    }
  }

  /** Both plans are the ones the planner makes: the only assignable executor, or the first of two equal ones. */
  lemma TwoOwnersPlansAreLeast()
    ensures EachLeast(StartingLoads(Naive, BOTH_ACTIVE), AverageLoad(Naive, BOTH_ACTIVE), ON_FIRST)
    ensures EachLeast(StartingLoads(Naive, ONE_DRAINING), AverageLoad(Naive, ONE_DRAINING), ON_SECOND)
  {
    assert Assignable(BOTH_ACTIVE, {}) == {"e1", "e2"} && Assignable(ONE_DRAINING, {}) == {"e2"};
    assert "e1"[1..] == "1" && "e2"[1..] == "2";
    assert InOrder("1", "2") && InOrder("e1", "e2");
    InOrderTotal("e1", "e1");
    InOrderTotal("e2", "e2");
    assert ON_FIRST[..0] == [] && ON_SECOND[..0] == [];
    assert IsLeast(StartingLoads(Naive, BOTH_ACTIVE), 0.0, [], "e1");
    assert IsLeast(StartingLoads(Naive, ONE_DRAINING), 0.0, [], "e2");
  }

  /**
   Coverage cannot be dropped. Two executors have no record yet. One assigner reads while both are active, a drain makes
   the first executor ineligible, a second assigner reads; each places the same shard where it can, each request lists
   only its own receiver, and both commits pass.
   */
  lemma TwoOwnersRun() returns (start: System, steps: seq<Step>)
    ensures Initial(start) && IsRun(start, steps)
    ensures Holds(After(start, steps).ns.records, "e1", "s") && Holds(After(start, steps).ns.records, "e2", "s")
    ensures !Unique(After(start, steps).ns.records)
  {
    start, steps := TwoOwnersState(0), seq(7, i requires 0 <= i => TwoOwnersStep(i));
    var states := seq(8, i requires 0 <= i => TwoOwnersState(i));
    forall k | 0 <= k < 7
      ensures Enabled(states[k], steps[k]) && Next(states[k], steps[k]) == states[k + 1]
    {
      TwoOwnersLinks(k);
    }
    LinksMakeARun(states, steps);
    assert Holds(TwoOwnersState(7).ns.records, "e1", "s") && Holds(TwoOwnersState(7).ns.records, "e2", "s");
  }
}
