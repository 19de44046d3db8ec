/**
 A batcher, its flushes and the shared store in one system.

 The store moves by the steps of the protocol, taken by anyone.  The batcher moves by its own events, in between.  A
 flush completes with the outcome of attempts that read and wrote the store at positions of that same history, no
 earlier than the flush was started, and that are kept in a log under the number of the flush.
 */
module EndToEnd {
  import opened Common
  import opened Store
  import opened Planner
  import opened Api
  import opened Assigner
  import opened Flush
  import P = Protocol
  import B = BatcherSpec

  /** The store after the first `k` steps. */
  function StoreAt(start: P.System, steps: seq<P.Step>, k: nat): Namespace
    requires k <= |steps|
  {
    P.After(start, steps[..k]).ns
  }

  lemma StoreAtNext(start: P.System, steps: seq<P.Step>, k: nat)
    requires k < |steps|
    ensures P.After(start, steps[..k + 1]) == P.Next(P.After(start, steps[..k]), steps[k])
  {
    P.AfterOneMore(start, steps[..k], steps[k]);
    assert steps[..k + 1] == steps[..k] + [steps[k]];
  }

  /** What a process read earlier in the history is a past state of the store it meets later. */
  lemma {:induction false} EarlierIsPast(start: P.System, steps: seq<P.Step>, r: nat, c: nat)
    requires Stored(start.ns) && r <= c <= |steps|
    ensures Stored(StoreAt(start, steps, c)) && Since(StoreAt(start, steps, r), StoreAt(start, steps, c))
    decreases c
  {
    if r < c {
      EarlierIsPast(start, steps, r, c - 1);
      StoreAtNext(start, steps, c - 1);
      P.StoreMovesOn(StoreAt(start, steps, r), P.After(start, steps[..c - 1]), steps[c - 1]);
    } else if c > 0 {
      EarlierIsPast(start, steps, c - 1, c - 1);
      StoreAtNext(start, steps, c - 1);
      P.StoreMovesOn(StoreAt(start, steps, c - 1), P.After(start, steps[..c - 1]), steps[c - 1]);
    }
  }

  /** A completed flush: its keys and outcome, its attempts, and where in the history each read and each write fell. */
  datatype Flight = Flight(keys: seq<ShardId>, res: FlushResult, envs: seq<AttemptEnv>, attempts: seq<Attempt>,
                           plans: seq<seq<Placement>>, readAt: seq<nat>, writeAt: seq<nat>)

  /** The attempts meet the store where they are placed in the history, one after the other, from `since` on. */
  ghost predicate Positioned(start: P.System, steps: seq<P.Step>, since: nat, envs: seq<AttemptEnv>, readAt: seq<nat>,
                             writeAt: seq<nat>) {
    && |readAt| == |envs| && |writeAt| == |envs|
    && (forall i :: 0 <= i < |envs| ==> since <= readAt[i] <= writeAt[i] <= |steps|)
    && (forall i :: 0 <= i < |envs| - 1 ==> writeAt[i] <= readAt[i + 1])
    && (forall i :: 0 <= i < |envs| && envs[i].read.Some? ==> envs[i].read.value == StoreAt(start, steps, readAt[i]))
    && (forall i :: 0 <= i < |envs| ==> envs[i].current == StoreAt(start, steps, writeAt[i]))
  }

  /** Step `k` of the history commits this plan. */
  ghost predicate CommitsAt(start: P.System, steps: seq<P.Step>, k: nat, snap: Namespace, placements: seq<Placement>,
                            now: int) {
    && k < |steps| && steps[k].Commit? && steps[k].now == now
    && P.PhaseOf(P.After(start, steps[..k]), steps[k].id) == P.Planned(snap, placements)
  }

  /** The flush happened in this history: positioned, and what it wrote was written by a step of the history. */
  ghost predicate Happened(start: P.System, steps: seq<P.Step>, since: nat, namespace: string, f: Flight) {
    && IsFlush(namespace, f.keys, f.res, f.envs, f.attempts, f.plans)
    && Positioned(start, steps, since, f.envs, f.readAt, f.writeAt)
    && WritesAreSteps(start, steps, f)
  }

  /** What a writing attempt wrote is the commit step of a process at its position. */
  ghost predicate WritesAreSteps(start: P.System, steps: seq<P.Step>, f: Flight)
    requires |f.envs| == |f.attempts| && |f.plans| == |f.attempts| && |f.writeAt| == |f.attempts|
  {
    forall i :: 0 <= i < |f.attempts| && f.attempts[i].wrote ==>
      f.envs[i].read.Some? && CommitsAt(start, steps, f.writeAt[i], f.envs[i].read.value, f.plans[i], f.envs[i].now)
  }

  lemma PositionsStay(start: P.System, steps: seq<P.Step>, step: P.Step, since: nat, envs: seq<AttemptEnv>,
                      readAt: seq<nat>, writeAt: seq<nat>)
    requires Positioned(start, steps, since, envs, readAt, writeAt)
    ensures Positioned(start, steps + [step], since, envs, readAt, writeAt)
  {
    forall i | 0 <= i < |envs|
      ensures StoreAt(start, steps + [step], readAt[i]) == StoreAt(start, steps, readAt[i])
      ensures StoreAt(start, steps + [step], writeAt[i]) == StoreAt(start, steps, writeAt[i])
    {
      assert (steps + [step])[..readAt[i]] == steps[..readAt[i]];
      assert (steps + [step])[..writeAt[i]] == steps[..writeAt[i]];
    }
  }

  lemma CommitStays(start: P.System, steps: seq<P.Step>, step: P.Step, k: nat, snap: Namespace,
                    placements: seq<Placement>, now: int)
    requires CommitsAt(start, steps, k, snap, placements, now)
    ensures CommitsAt(start, steps + [step], k, snap, placements, now)
  {
    assert (steps + [step])[..k] == steps[..k];
  }

  lemma HistoryOnlyGrows(start: P.System, steps: seq<P.Step>, step: P.Step, since: nat, namespace: string, f: Flight)
    requires Happened(start, steps, since, namespace, f)
    ensures Happened(start, steps + [step], since, namespace, f)
  {
    PositionsStay(start, steps, step, since, f.envs, f.readAt, f.writeAt);
    forall i | 0 <= i < |f.attempts| && f.attempts[i].wrote
      ensures CommitsAt(start, steps + [step], f.writeAt[i], f.envs[i].read.value, f.plans[i], f.envs[i].now)
    {
      CommitStays(start, steps, step, f.writeAt[i], f.envs[i].read.value, f.plans[i], f.envs[i].now);
    }
  }

  /** A flush run against the history is a flush in the sense of the log. */
  method FlushInHistory(mode: Mode, namespace: string, ghost start: P.System, ghost steps: seq<P.Step>,
                        ghost since: nat, envs: seq<AttemptEnv>, readAt: seq<nat>, writeAt: seq<nat>, began: int,
                        cache: ExecId -> Option<ShardOwner>, shardKeys: seq<ShardId>)
    returns (res: Option<FlushResult>, ghost f: Flight)
    requires Stored(start.ns) && Positioned(start, steps, since, envs, readAt, writeAt)
    requires forall e :: cache(e).Some? ==> cache(e).value.executorID == e
    ensures f.keys == shardKeys
    ensures res.Some? ==> f.res == res.value && IsFlush(namespace, shardKeys, f.res, f.envs, f.attempts, f.plans)
    ensures res.Some? ==> Positioned(start, steps, since, f.envs, f.readAt, f.writeAt)
    ensures res.Some? && WritesAreSteps(start, steps, f) ==> Happened(start, steps, since, namespace, f)
  {
    forall i | 0 <= i < |envs| && envs[i].read.Some?
      ensures Since(envs[i].read.value, envs[i].current)
    {
      EarlierIsPast(start, steps, readAt[i], writeAt[i]);
    }
    var attempts;
    ghost var plans;
    res, attempts, plans := AssignEphemeralBatch(mode, namespace, envs, began, cache, shardKeys);
    var n := |attempts|;
    var outcome := if res.Some? then res.value else Err(Internal);
    f := Flight(shardKeys, outcome, envs[..n], attempts, plans, readAt[..n], writeAt[..n]);
  }

  /** The last attempt, which decided the outcome: where it read, and the state its answers are about. */
  function ReadPosition(f: Flight): nat
    requires 0 < |f.readAt|
  {
    f.readAt[|f.readAt| - 1]
  }

  function AnswerPosition(f: Flight): nat
    requires 0 < |f.readAt| && |f.attempts| == |f.readAt| && |f.writeAt| == |f.readAt|
  {
    var n := |f.readAt| - 1;
    if f.attempts[n].wrote then f.writeAt[n] + 1 else f.readAt[n]
  }

  /** What the flush committed is the next state of the history. */
  lemma CommittedStateIsNext(start: P.System, steps: seq<P.Step>, k: nat, env: AttemptEnv, keys: seq<ShardId>,
                             namespace: string,
                             a: Attempt, placements: seq<Placement>)
    requires IsAttempt(env, keys, namespace, a, placements) && a.wrote && env.read.Some?
    requires CommitsAt(start, steps, k, env.read.value, placements, env.now) && env.current == StoreAt(start, steps, k)
    ensures a.next == StoreAt(start, steps, k + 1)
  {
    StoreAtNext(start, steps, k);
    P.CommitStepWrites(P.After(start, steps[..k]), steps[k].id, env.now, env.read.value, placements, a.next);
  }

  /** A successful flush answers each of its keys from states of the history: drained by the state it read, owned in the
      state it committed, or in the state it read when it had nothing to place. */
  lemma FlightAnswers(start: P.System, steps: seq<P.Step>, since: nat, namespace: string, f: Flight, key: ShardId)
    requires Happened(start, steps, since, namespace, f) && f.res.Ok? && key in f.keys
    ensures since <= ReadPosition(f) <= AnswerPosition(f) <= |steps|
    ensures var response := ToBatchResponse(f.res, namespace, key);
      if key in StoreAt(start, steps, ReadPosition(f)).drainedShards then response == Err(ShardDrained(namespace, key))
      else response.Ok? && Holds(StoreAt(start, steps, AnswerPosition(f)).records, response.value.owner, key)
  {
    var n := |f.attempts| - 1;
    LastAttemptStates(start, steps, since, namespace, f);
    AttemptAnswers(f.envs[n], f.keys, namespace, f.attempts[n], f.plans[n], key);
  }

  /** The states the last attempt read and answered from are states of the history. */
  lemma LastAttemptStates(start: P.System, steps: seq<P.Step>, since: nat, namespace: string, f: Flight)
    requires Happened(start, steps, since, namespace, f) && f.res.Ok?
    ensures since <= ReadPosition(f) <= AnswerPosition(f) <= |steps|
    ensures var n := |f.attempts| - 1;
      && f.envs[n].read == Some(StoreAt(start, steps, ReadPosition(f)))
      && AnsweredFrom(f.envs[n], f.attempts[n]) == StoreAt(start, steps, AnswerPosition(f))
  {
    var n := |f.attempts| - 1;
    assert IsAttempt(f.envs[n], f.keys, namespace, f.attempts[n], f.plans[n]);
    if f.attempts[n].wrote {
      CommittedStateIsNext(start, steps, f.writeAt[n], f.envs[n], f.keys, namespace, f.attempts[n], f.plans[n]);
    }
  }

  lemma AttemptAnswers(env: AttemptEnv, keys: seq<ShardId>, namespace: string, a: Attempt, placements: seq<Placement>,
                       key: ShardId)
    requires IsAttempt(env, keys, namespace, a, placements) && a.result.Ok? && key in keys
    ensures env.read.Some?
    ensures var response := ToBatchResponse(a.result, namespace, key);
      if key in env.read.value.drainedShards then response == Err(ShardDrained(namespace, key))
      else response.Ok? && Holds(AnsweredFrom(env, a).records, response.value.owner, key)
  {
  }

  function KeysOf(placements: seq<Placement>): seq<ShardId> {
    seq(|placements|, i requires 0 <= i < |placements| => placements[i].shard)
  }

  function AnswersFor(placements: seq<Placement>, namespace: string, drained: set<ShardId>): FlushResult {
    var owners := PlacedOn(placements);
    Ok(Batch(map s | s in owners :: Response(owners[s], namespace, map[]), drained))
  }

  lemma PlannedKeysAreAnswered(snap: Namespace, current: Namespace, placements: seq<Placement>, now: int,
                               next: Namespace, namespace: string)
    requires Since(snap, current) && Wrote(snap, current, placements, now, next)
    ensures Answers(next, snap.drainedShards, KeysOf(placements), namespace,
        AnswersFor(placements, namespace, snap.drainedShards))
  {
    var owners := PlacedOn(placements);
    forall k | k in KeysOf(placements)
      ensures k in owners && k !in snap.drainedShards && Holds(next.records, owners[k], k)
    {
      var i :| 0 <= i < |placements| && KeysOf(placements)[i] == k;
      assert placements[i] in placements && placements[i].shard == k;
      OwnersAreCommitted(snap, current, placements, now, next, owners[k], k);
    }
  }

  /** The attempt that makes a given write and answers for the shards it places. */
  lemma WriteIsAnAttempt(snap: Namespace, current: Namespace, placements: seq<Placement>, now: int, next: Namespace,
                         namespace: string)
    requires Since(snap, current) && Wrote(snap, current, placements, now, next)
    ensures IsAttempt(AttemptEnv(Some(snap), current, NoFault, now, 0, false), KeysOf(placements), namespace,
                      Attempt(next, true, AnswersFor(placements, namespace, snap.drainedShards)), placements)
  {
    PlannedKeysAreAnswered(snap, current, placements, now, next, namespace);
    forall p | p in placements
      ensures p.shard in KeysOf(placements)
    {
      var i :| 0 <= i < |placements| && placements[i] == p;
      assert KeysOf(placements)[i] == p.shard;
    }
  }

  /** A single successful attempt, positioned in the history with its commit, is a flush that happened. */
  lemma OneAttemptHappened(start: P.System, steps: seq<P.Step>, r: nat, c: nat, namespace: string, keys: seq<ShardId>,
                           env: AttemptEnv, a: Attempt, placements: seq<Placement>)
    requires IsAttempt(env, keys, namespace, a, placements) && a.result.Ok? && r <= c <= |steps|
    requires env.read == Some(StoreAt(start, steps, r)) && env.current == StoreAt(start, steps, c)
    requires CommitsAt(start, steps, c, StoreAt(start, steps, r), placements, env.now)
    ensures Happened(start, steps, r, namespace, Flight(keys, a.result, [env], [a], [placements], [r], [c]))
  {
  }

  /** Every commit of a process that goes through is the write of a flush that can happen: one for the shards it
      places. */
  lemma EveryCommitCanServe(start: P.System, steps: seq<P.Step>, r: nat, c: nat, placements: seq<Placement>,
                            namespace: string)
    returns (f: Flight)
    requires Stored(start.ns) && r <= c < |steps| && steps[c].Commit?
    requires CommitsAt(start, steps, c, StoreAt(start, steps, r), placements, steps[c].now)
    requires placements != [] && ValidPlan(StoreAt(start, steps, r), placements)
    requires GuardHolds(StoreAt(start, steps, c), CommitRequest(StoreAt(start, steps, r), placements, steps[c].now))
    ensures Happened(start, steps, r, namespace, f) && f.res.Ok? && f.keys == KeysOf(placements)
  {
    var snap, current, now := StoreAt(start, steps, r), StoreAt(start, steps, c), steps[c].now;
    var next := Apply(current, CommitRequest(snap, placements, now));
    EarlierIsPast(start, steps, r, c);
    WriteIsAnAttempt(snap, current, placements, now, next, namespace);
    var env := AttemptEnv(Some(snap), current, NoFault, now, 0, false);
    var a := Attempt(next, true, AnswersFor(placements, namespace, snap.drainedShards));
    OneAttemptHappened(start, steps, r, c, namespace, KeysOf(placements), env, a, placements);
    f := Flight(KeysOf(placements), a.result, [env], [a], [placements], [r], [c]);
  }

  /** `submittedAt[id]` is the position in the history when request `id` was enqueued, `flushStart` when the current
      flush was started. */
  datatype World = World(batcher: B.State, steps: seq<P.Step>, log: seq<Flight>, submittedAt: seq<nat>, flushStart: nat)

  datatype Move = OfStore(step: P.Step) | OfBatcher(event: B.Event) | Completes(flight: Flight)

  function Initial(namespace: string): World {
    World(B.Initial(namespace), [], [], [], 0)
  }

  ghost predicate Enabled(start: P.System, w: World, m: Move) {
    match m
    case OfStore(step) => P.Enabled(P.After(start, w.steps), step)
    case OfBatcher(event) => !event.FlushCompletes? && B.Enabled(w.batcher, event)
    case Completes(f) =>
      && B.Enabled(w.batcher, B.FlushCompletes(f.res))
      && f.keys == w.batcher.flushing.value
      && Happened(start, w.steps, w.flushStart, w.batcher.namespace, f)
  }

  predicate StartsFlush(s: B.State, e: B.Event) {
    e.FlushReady? || (e.FlushDone? && s.pending != [])
  }

  ghost function Next(start: P.System, w: World, m: Move): World
    requires Enabled(start, w, m)
  {
    match m
    case OfStore(step) => w.(steps := w.steps + [step])
    case OfBatcher(event) =>
      w.(batcher := B.Next(w.batcher, event),
         submittedAt := if event.Enqueue? then w.submittedAt + [|w.steps|] else w.submittedAt,
         flushStart := if StartsFlush(w.batcher, event) then |w.steps| else w.flushStart)
    case Completes(f) => w.(batcher := B.Next(w.batcher, B.FlushCompletes(f.res)), log := w.log + [f])
  }

  ghost predicate IsRun(start: P.System, w: World, moves: seq<Move>)
    decreases |moves|
  {
    moves == [] || (Enabled(start, w, moves[0]) && IsRun(start, Next(start, w, moves[0]), moves[1..]))
  }

  ghost function After(start: P.System, w: World, moves: seq<Move>): World
    requires IsRun(start, w, moves)
    decreases |moves|
  {
    if moves == [] then w else After(start, Next(start, w, moves[0]), moves[1..])
  }

  /** The logged flush of this number is the finished one, and it first read the store at or after position `since`. */
  ghost predicate Logged(log: seq<Flight>, batch: B.Finished, since: nat) {
    && batch.flush < |log|
    && log[batch.flush].keys == batch.keys && log[batch.flush].res == batch.res
    && (forall i :: 0 <= i < |log[batch.flush].readAt| ==> since <= log[batch.flush].readAt[i])
  }

  ghost predicate Traced(log: seq<Flight>, submittedAt: seq<nat>, id: nat, a: B.Answer) {
    a.FromBatch? ==> id < |submittedAt| && Logged(log, a.batch, submittedAt[id])
  }

  ghost predicate AllTraced(log: seq<Flight>, submittedAt: seq<nat>, responses: seq<seq<B.Answer>>) {
    forall id, a :: 0 <= id < |responses| && a in responses[id] ==> Traced(log, submittedAt, id, a)
  }

  /** Requests were enqueued at or before now, and those in flight at or before their flush started. */
  ghost predicate Timely(w: World) {
    && |w.submittedAt| == |w.batcher.submitted| && w.flushStart <= |w.steps|
    && (forall id :: 0 <= id < |w.submittedAt| ==> w.submittedAt[id] <= |w.steps|)
    && (forall r :: r in w.batcher.inflight ==> r.id < |w.submittedAt| && w.submittedAt[r.id] <= w.flushStart)
  }

  ghost predicate LogHappened(start: P.System, w: World) {
    forall n :: 0 <= n < |w.log| ==> Happened(start, w.steps, 0, w.batcher.namespace, w.log[n])
  }

  ghost predicate Invariant(start: P.System, w: World) {
    && P.IsRun(start, w.steps) && B.Invariant(w.batcher)
    && |w.log| == w.batcher.flushes && LogHappened(start, w) && Timely(w)
    && (w.batcher.done.Some? ==> Logged(w.log, w.batcher.done.value, w.flushStart))
    && AllTraced(w.log, w.submittedAt, w.batcher.responses)
  }

  lemma {:induction false} AnsweringStaysTraced(log: seq<Flight>, submittedAt: seq<nat>, responses: seq<seq<B.Answer>>,
                                                reqs: seq<B.BatchRequest>, answer: B.BatchRequest -> B.Answer)
    requires AllTraced(log, submittedAt, responses)
    requires forall r :: r in reqs ==> Traced(log, submittedAt, r.id, answer(r))
    ensures AllTraced(log, submittedAt, B.AnswerAll(responses, reqs, answer))
    decreases |reqs|
  {
    if reqs != [] {
      var head := reqs[0];
      assert Traced(log, submittedAt, head.id, answer(head));
      var next := if head.id < |responses| then responses[head.id := responses[head.id] + [answer(head)]]
        else responses;
      AnsweringStaysTraced(log, submittedAt, next, reqs[1..], answer);
    }
  }

  lemma DeliveringStaysTraced(start: P.System, w: World)
    requires Invariant(start, w) && w.batcher.done.Some?
    ensures AllTraced(w.log, w.submittedAt, B.Delivered(w.batcher).responses)
  {
    var s := w.batcher;
    AnsweringStaysTraced(w.log, w.submittedAt, s.responses, s.inflight, r =>
      B.BatchAnswer(s.namespace, s.done.value, r));
  }

  /** Every batcher event leaves only traced answers in the channels. */
  lemma EventStaysTraced(start: P.System, w: World, e: B.Event)
    requires Invariant(start, w) && B.Enabled(w.batcher, e)
    ensures AllTraced(w.log, w.submittedAt, B.Next(w.batcher, e).responses)
  {
    var s := w.batcher;
    if e.FlushDone? || (e.CancelPending? && s.inflight != []) {
      DeliveringStaysTraced(start, w);
    }
    if e.CancelPending? {
      var s' := if s.inflight == [] then s else B.Delivered(s);
      AnsweringStaysTraced(w.log, w.submittedAt, s'.responses, s'.pending, r => B.FromCancel);
    } else if e.DrainOne? {
      AnsweringStaysTraced(w.log, w.submittedAt, s.responses, [s.queue[0]], r => B.FromCancel);
    }
  }

  lemma TracesSurvive(log: seq<Flight>, submittedAt: seq<nat>, responses: seq<seq<B.Answer>>, f: Flight, t: nat)
    requires AllTraced(log, submittedAt, responses)
    ensures AllTraced(log + [f], submittedAt, responses) && AllTraced(log, submittedAt + [t], responses)
  {
  }

  lemma EventStaysTimely(start: P.System, w: World, e: B.Event)
    requires Invariant(start, w) && Enabled(start, w, OfBatcher(e))
    ensures Timely(Next(start, w, OfBatcher(e)))
  {
    var next := Next(start, w, OfBatcher(e));
    if StartsFlush(w.batcher, e) {
      forall r | r in next.batcher.inflight
        ensures r.id < |w.submittedAt|
      {
        PendingWasSubmitted(w.batcher, r);
      }
    }
  }

  lemma PendingWasSubmitted(s: B.State, r: B.BatchRequest)
    requires B.Invariant(s) && r in s.pending
    ensures r.id < |s.submitted|
  {
    var i :| 0 <= i < |s.pending| && s.pending[i] == r;
    assert B.Outstanding(s)[|s.inflight| + i] == r;
  }

  lemma StoreStepKeepsInvariant(start: P.System, w: World, step: P.Step)
    requires Invariant(start, w) && Enabled(start, w, OfStore(step))
    ensures Invariant(start, Next(start, w, OfStore(step)))
    ensures Next(start, w, OfStore(step)).batcher.namespace == w.batcher.namespace
  {
    P.RunOneMore(start, w.steps, step);
    forall n | 0 <= n < |w.log|
      ensures Happened(start, w.steps + [step], 0, w.batcher.namespace, w.log[n])
    {
      HistoryOnlyGrows(start, w.steps, step, 0, w.batcher.namespace, w.log[n]);
    }
  }

  lemma BatcherStepKeepsInvariant(start: P.System, w: World, e: B.Event)
    requires Invariant(start, w) && Enabled(start, w, OfBatcher(e))
    ensures Invariant(start, Next(start, w, OfBatcher(e)))
    ensures Next(start, w, OfBatcher(e)).batcher.namespace == w.batcher.namespace
  {
    var next := Next(start, w, OfBatcher(e));
    B.StepKeepsInvariant(w.batcher, e);
    EventStaysTimely(start, w, e);
    EventStaysTraced(start, w, e);
    if e.Enqueue? {
      TracesSurvive(w.log, w.submittedAt, next.batcher.responses, Flight([], Err(Internal), [], [], [], [], []),
          |w.steps|);
    }
  }

  lemma CompletionKeepsInvariant(start: P.System, w: World, f: Flight)
    requires Invariant(start, w) && Enabled(start, w, Completes(f))
    ensures Invariant(start, Next(start, w, Completes(f)))
    ensures Next(start, w, Completes(f)).batcher.namespace == w.batcher.namespace
  {
    B.StepKeepsInvariant(w.batcher, B.FlushCompletes(f.res));
    TracesSurvive(w.log, w.submittedAt, w.batcher.responses, f, 0);
  }

  lemma MoveKeepsInvariant(start: P.System, w: World, m: Move)
    requires Invariant(start, w) && Enabled(start, w, m)
    ensures Invariant(start, Next(start, w, m)) && Next(start, w, m).batcher.namespace == w.batcher.namespace
  {
    match m
    case OfStore(step) => StoreStepKeepsInvariant(start, w, step);
    case OfBatcher(e) => BatcherStepKeepsInvariant(start, w, e);
    case Completes(f) => CompletionKeepsInvariant(start, w, f);
  }

  lemma {:induction false} RunKeepsInvariant(start: P.System, w: World, moves: seq<Move>)
    requires Invariant(start, w) && IsRun(start, w, moves)
    ensures Invariant(start, After(start, w, moves)) && After(start, w, moves).batcher.namespace == w.batcher.namespace
    decreases |moves|
  {
    if moves != [] {
      MoveKeepsInvariant(start, w, moves[0]);
      RunKeepsInvariant(start, Next(start, w, moves[0]), moves[1..]);
    }
  }

  /** Request `id` was answered by a batch that succeeded. */
  ghost predicate Served(w: World, id: nat) {
    && id < |w.batcher.submitted| && id < |w.submittedAt| && id < |w.batcher.responses| && w.batcher.responses[id] != []
    && w.batcher.responses[id][0].FromBatch? && w.batcher.responses[id][0].batch.res.Ok?
  }

  /**
   End to end, in every interleaving of the batcher with everything that happens to the store. A caller whose batch
   succeeded has exactly one answer, from the logged flush of that number. It is told its shard is drained exactly when
   the shard was drained in the state that flush read, which is no older than the call; otherwise it is given an
   executor that owned the shard in a state of the history no older than that one, and the only owner if ownership is
   unique throughout. The "no result" error is never what it gets.
   */
  lemma CallerLearnsCommittedOwner(start: P.System, namespace: string, moves: seq<Move>, id: nat)
    returns (key: ShardId, answer: B.Answer, f: Flight)
    requires P.Initial(start) && IsRun(start, Initial(namespace), moves) &&
      Served(After(start, Initial(namespace), moves), id)
    ensures var w := After(start, Initial(namespace), moves);
      && P.IsRun(start, w.steps)
      && key == w.batcher.submitted[id] && w.batcher.responses[id] == [answer]
      && answer.FromBatch? && answer.batch.flush < |w.log| && w.log[answer.batch.flush] == f
      && 0 < |f.readAt| && |f.attempts| == |f.readAt| && |f.writeAt| == |f.readAt|
      && w.submittedAt[id] <= ReadPosition(f) <= AnswerPosition(f) <= |w.steps|
      && (key in StoreAt(start, w.steps, ReadPosition(f)).drainedShards <==>
        answer.response == Err(ShardDrained(namespace, key)))
      && (key !in StoreAt(start, w.steps, ReadPosition(f)).drainedShards ==>
            answer.response.Ok? &&
              Holds(StoreAt(start, w.steps, AnswerPosition(f)).records, answer.response.value.owner, key))
      && (answer.response.Ok? ==>
            && f.res.Ok? && key in f.res.value.results && answer.response.value == f.res.value.results[key]
            && answer.response.value.namespace == namespace)
      && (answer.response.Ok? && P.UniqueThroughout(start, w.steps) ==>
            forall e :: Holds(StoreAt(start, w.steps, AnswerPosition(f)).records, e, key) ==>
              e == answer.response.value.owner)
  {
    var w := After(start, Initial(namespace), moves);
    RunKeepsInvariant(start, Initial(namespace), moves);
    B.InvariantConserves(w.batcher, id);
    key, answer := w.batcher.submitted[id], w.batcher.responses[id][0];
    assert Traced(w.log, w.submittedAt, id, answer);
    f := w.log[answer.batch.flush];
    assert Happened(start, w.steps, 0, namespace, f);
    FlightAnswers(start, w.steps, 0, namespace, f, key);
  }

  lemma {:induction false} SubmissionsStay(start: P.System, w: World, moves: seq<Move>, id: nat)
    requires IsRun(start, w, moves) && id < |w.submittedAt| && id < |w.batcher.submitted|
    ensures var t := After(start, w, moves);
      && id < |t.submittedAt| && t.submittedAt[id] == w.submittedAt[id]
      && id < |t.batcher.submitted| && t.batcher.submitted[id] == w.batcher.submitted[id]
    decreases |moves|
  {
    if moves != [] {
      SubmissionStays(start, w, moves[0], id);
      SubmissionsStay(start, Next(start, w, moves[0]), moves[1..], id);
    }
  }

  lemma SubmissionStays(start: P.System, w: World, m: Move, id: nat)
    requires Enabled(start, w, m) && id < |w.submittedAt| && id < |w.batcher.submitted|
    ensures var t := Next(start, w, m);
      && id < |t.submittedAt| && t.submittedAt[id] == w.submittedAt[id]
      && id < |t.batcher.submitted| && t.batcher.submitted[id] == w.batcher.submitted[id]
  {
  }

  /** The position kept for a request is that of the history when it was made, for good. */
  lemma CallIsTimed(start: P.System, w: World, key: ShardId, moves: seq<Move>)
    requires Invariant(start, w) && Enabled(start, w, OfBatcher(B.Enqueue(key)))
    requires IsRun(start, Next(start, w, OfBatcher(B.Enqueue(key))), moves)
    ensures var id, t := |w.batcher.submitted|, After(start, Next(start, w, OfBatcher(B.Enqueue(key))), moves);
      && id < |t.batcher.submitted| && t.batcher.submitted[id] == key
      && id < |t.submittedAt| && t.submittedAt[id] == |w.steps|
  {
    SubmissionsStay(start, Next(start, w, OfBatcher(B.Enqueue(key))), moves, |w.batcher.submitted|);
  }

  /** A caller of a failed batch has one answer too: the error of that batch, which is that of its only attempt, or a
      version conflict when there were several. */
  lemma CallerLearnsTheError(start: P.System, namespace: string, moves: seq<Move>, id: nat)
    returns (answer: B.Answer, f: Flight)
    requires Stored(start.ns) && IsRun(start, Initial(namespace), moves)
    requires Failed(After(start, Initial(namespace), moves), id)
    ensures var w := After(start, Initial(namespace), moves);
      && w.batcher.responses[id] == [answer] && answer.FromBatch?
      && answer.batch.flush < |w.log| && w.log[answer.batch.flush] == f && w.batcher.submitted[id] in f.keys
      && 0 < |f.attempts| && f.attempts[0].result.Err?
      && answer.response == Err(if |f.attempts| > 1 then VersionConflictError else f.attempts[0].result.error)
  {
    var w := After(start, Initial(namespace), moves);
    RunKeepsInvariant(start, Initial(namespace), moves);
    B.InvariantConserves(w.batcher, id);
    answer := w.batcher.responses[id][0];
    assert Traced(w.log, w.submittedAt, id, answer);
    f := w.log[answer.batch.flush];
    assert Happened(start, w.steps, 0, namespace, f);
  }

  /** The request was answered from a batch that failed. */
  ghost predicate Failed(w: World, id: nat) {
    && id < |w.batcher.submitted| && id < |w.batcher.responses| && w.batcher.responses[id] != []
    && w.batcher.responses[id][0].FromBatch? && w.batcher.responses[id][0].batch.res.Err?
  }

  /** Two callers answered by the same flush share its log entry, hence its states; with the same key they get the same
      response. */
  lemma SameBatchSameAnswer(start: P.System, namespace: string, moves: seq<Move>, id1: nat, id2: nat)
    requires IsRun(start, Initial(namespace), moves)
    requires var w := After(start, Initial(namespace), moves); Served(w, id1) && Served(w, id2)
    requires var s := After(start, Initial(namespace), moves).batcher;
      s.submitted[id1] == s.submitted[id2] && s.responses[id1][0].batch.flush == s.responses[id2][0].batch.flush
    ensures var s := After(start, Initial(namespace), moves).batcher; s.responses[id1] == s.responses[id2]
  {
    RunKeepsInvariant(start, Initial(namespace), moves);
    SameFlushSameAnswer(start, After(start, Initial(namespace), moves), id1, id2);
  }

  lemma SameFlushSameAnswer(start: P.System, w: World, id1: nat, id2: nat)
    requires Invariant(start, w) && Served(w, id1) && Served(w, id2) &&
      w.batcher.submitted[id1] == w.batcher.submitted[id2]
    requires w.batcher.responses[id1][0].batch.flush == w.batcher.responses[id2][0].batch.flush
    ensures w.batcher.responses[id1] == w.batcher.responses[id2]
  {
    B.InvariantConserves(w.batcher, id1);
    B.InvariantConserves(w.batcher, id2);
    assert Traced(w.log, w.submittedAt, id1, w.batcher.responses[id1][0]);
    assert Traced(w.log, w.submittedAt, id2, w.batcher.responses[id2][0]);
  }

  lemma {:induction false} RunsCompose(start: P.System, w: World, first: seq<Move>, second: seq<Move>)
    requires IsRun(start, w, first) && IsRun(start, After(start, w, first), second)
    ensures IsRun(start, w, first + second)
    ensures After(start, w, first + second) == After(start, After(start, w, first), second)
    decreases |first|
  {
    if first == [] {
      assert first + second == second;
    } else {
      RunsCompose(start, Next(start, w, first[0]), first[1..], second);
      assert (first + second)[1..] == first[1..] + second;
    }
  }

  function StoreMoves(steps: seq<P.Step>): seq<Move> {
    seq(|steps|, i requires 0 <= i < |steps| => OfStore(steps[i]))
  }

  /** The store can go through any run of the protocol while the batcher stands still. */
  lemma {:induction false} StoreRuns(start: P.System, w: World, steps: seq<P.Step>)
    requires P.IsRun(P.After(start, w.steps), steps)
    ensures IsRun(start, w, StoreMoves(steps))
    ensures After(start, w, StoreMoves(steps)) == w.(steps := w.steps + steps)
    decreases |steps|
  {
    if steps == [] {
      assert w.steps + steps == w.steps;
    } else {
      P.AfterOneMore(start, w.steps, steps[0]);
      StoreRuns(start, w.(steps := w.steps + [steps[0]]), steps[1..]);
      assert StoreMoves(steps)[1..] == StoreMoves(steps[1..]);
      assert w.steps + [steps[0]] + steps[1..] == w.steps + steps;
    }
  }

  /** A batcher with one request, in flight. */
  function OneInFlight(namespace: string, key: ShardId): B.State {
    B.Initial(namespace).(submitted := [key], inflight := [B.BatchRequest(0, key)], flushing := Some([key]),
                          responses := [[]])
  }

  function Submitting(key: ShardId): seq<Move> {
    [OfBatcher(B.Enqueue(key)), OfBatcher(B.TakeRequest), OfBatcher(B.TimerFires), OfBatcher(B.FlushReady)]
  }

  /** The same batcher before the window closed. */
  function OnePending(namespace: string, key: ShardId): B.State {
    B.Initial(namespace).(submitted := [key], pending := [B.BatchRequest(0, key)], scheduled := true, timer := true,
                          responses := [[]])
  }

  lemma QueueingRuns(start: P.System, namespace: string, key: ShardId)
    ensures var moves := [OfBatcher(B.Enqueue(key)), OfBatcher(B.TakeRequest)];
      && IsRun(start, Initial(namespace), moves)
      && After(start, Initial(namespace), moves) == World(OnePending(namespace, key), [], [], [0], 0)
  {
    var w0, req := Initial(namespace), B.BatchRequest(0, key);
    var w1 := Next(start, w0, OfBatcher(B.Enqueue(key)));
    assert w1.batcher.queue == [req] && w1.batcher.submitted == [key] && w1.batcher.responses == [[]];
    assert w1.batcher.queue[1..] == [] && w1.batcher.pending + [req] == [req];
    TwoMoves(start, w0, OfBatcher(B.Enqueue(key)), OfBatcher(B.TakeRequest));
  }

  lemma FlushingRuns(start: P.System, namespace: string, key: ShardId)
    ensures var w, moves := World(OnePending(namespace, key), [], [], [0], 0),
        [OfBatcher(B.TimerFires), OfBatcher(B.FlushReady)];
      && IsRun(start, w, moves)
      && After(start, w, moves) == World(OneInFlight(namespace, key), [], [], [0], 0)
  {
    assert B.Keys([B.BatchRequest(0, key)]) == [key];
    TwoMoves(start, World(OnePending(namespace, key), [], [], [0], 0), OfBatcher(B.TimerFires),
        OfBatcher(B.FlushReady));
  }

  lemma SubmittingRuns(start: P.System, namespace: string, key: ShardId)
    ensures IsRun(start, Initial(namespace), Submitting(key))
    ensures After(start, Initial(namespace), Submitting(key)) == World(OneInFlight(namespace, key), [], [], [0], 0)
  {
    var first := [OfBatcher(B.Enqueue(key)), OfBatcher(B.TakeRequest)];
    var second := [OfBatcher(B.TimerFires), OfBatcher(B.FlushReady)];
    QueueingRuns(start, namespace, key);
    FlushingRuns(start, namespace, key);
    RunsCompose(start, Initial(namespace), first, second);
    assert Submitting(key) == first + second;
  }

  lemma TwoMoves(start: P.System, w: World, m1: Move, m2: Move)
    requires Enabled(start, w, m1) && Enabled(start, Next(start, w, m1), m2)
    ensures IsRun(start, w, [m1, m2]) && After(start, w, [m1, m2]) == Next(start, Next(start, w, m1), m2)
  {
    var w1 := Next(start, w, m1);
    assert [m1, m2][1..] == [m2] && [m2][1..] == [];
    assert IsRun(start, Next(start, w1, m2), []);
    assert IsRun(start, w1, [m2]) && After(start, w1, [m2]) == Next(start, w1, m2);
  }

  lemma AnsweringRuns(start: P.System, namespace: string, key: ShardId, steps: seq<P.Step>, f: Flight)
    requires Happened(start, steps, 0, namespace, f) && f.res.Ok? && f.keys == [key]
    ensures var w, moves := World(OneInFlight(namespace, key), steps, [], [0], 0),
        [Completes(f), OfBatcher(B.FlushDone)];
      && IsRun(start, w, moves) && Served(After(start, w, moves), 0)
      && After(start, w, moves).steps == steps && After(start, w, moves).batcher.submitted == [key]
  {
    var w, moves := World(OneInFlight(namespace, key), steps, [], [0], 0), [Completes(f), OfBatcher(B.FlushDone)];
    var w1 := Next(start, w, moves[0]);
    var w2 := Next(start, w1, moves[1]);
    TwoMoves(start, w, moves[0], moves[1]);
    var answered :=
      B.AnswerAll([[]], [B.BatchRequest(0, key)], r => B.BatchAnswer(namespace, w1.batcher.done.value, r));
    assert w2.batcher.responses == answered;
    B.AnswerAllFills([[]], [B.BatchRequest(0, key)], r => B.BatchAnswer(namespace, w1.batcher.done.value, r), 0);
  }

  /** Any commit that goes through, in any run of the protocol, can be what serves a caller: the joint system has a run
      with that history in which a caller asking for the shard it places is answered by it. */
  lemma EveryCommitServesSomeone(start: P.System, steps: seq<P.Step>, r: nat, c: nat, p: Placement, namespace: string)
    returns (moves: seq<Move>)
    requires Stored(start.ns) && P.IsRun(start, steps) && r <= c < |steps| && steps[c].Commit?
    requires CommitsAt(start, steps, c, StoreAt(start, steps, r), [p], steps[c].now)
    requires ValidPlan(StoreAt(start, steps, r), [p])
    requires GuardHolds(StoreAt(start, steps, c), CommitRequest(StoreAt(start, steps, r), [p], steps[c].now))
    ensures IsRun(start, Initial(namespace), moves)
    ensures var w := After(start, Initial(namespace), moves);
      w.steps == steps && Served(w, 0) && w.batcher.submitted[0] == p.shard
  {
    var f := EveryCommitCanServe(start, steps, r, c, [p], namespace);
    assert KeysOf([p]) == [p.shard];
    assert Happened(start, steps, 0, namespace, f);
    HistoryWithRequest(start, steps, namespace, p.shard);
    var before, last := Submitting(p.shard) + StoreMoves(steps), [Completes(f), OfBatcher(B.FlushDone)];
    AnsweringRuns(start, namespace, p.shard, steps, f);
    RunsCompose(start, Initial(namespace), before, last);
    moves := before + last;
  }

  /** Any history can pass while a request is in flight. */
  lemma HistoryWithRequest(start: P.System, steps: seq<P.Step>, namespace: string, key: ShardId)
    requires P.IsRun(start, steps)
    ensures IsRun(start, Initial(namespace), Submitting(key) + StoreMoves(steps))
    ensures After(start, Initial(namespace), Submitting(key) + StoreMoves(steps))
         == World(OneInFlight(namespace, key), steps, [], [0], 0)
  {
    var w := World(OneInFlight(namespace, key), [], [], [0], 0);
    SubmittingRuns(start, namespace, key);
    StoreRuns(start, w, steps);
    RunsCompose(start, Initial(namespace), Submitting(key), StoreMoves(steps));
    assert w.steps + steps == steps;
  }
}
