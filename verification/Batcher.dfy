/**
 The batching loop as a state machine.  The loop goroutine, the timer goroutine, the flush goroutine and the submitters
 interleave freely; channels are buffers of the stated capacity.  A response channel is the list of everything ever
 written to it, so a write cannot block exactly when that list is still empty.
 */
module BatcherSpec {
  import opened Common
  import opened Api

  const REQUESTS_CHANNEL_LIMIT: nat := 1024

  /** Requests are numbered in the order they enter the request channel. */
  datatype BatchRequest = BatchRequest(id: nat, shardKey: ShardId)

  /** A finished flush: its number in order of completion, the keys it was started with, and its outcome. */
  datatype Finished = Finished(flush: nat, keys: seq<ShardId>, res: FlushResult)

  /** A response, with where it came from: a finished flush, or a cancellation. */
  datatype Answer = FromBatch(batch: Finished, response: Result<Response, ApiError>) | FromCancel

  datatype LoopPhase = Running | ShuttingDown | Draining | Stopped

  datatype State = State(
    namespace: string,
    submitted: seq<ShardId>,
    queue: seq<BatchRequest>,
    inflight: seq<BatchRequest>,
    pending: seq<BatchRequest>,
    scheduled: bool,
    timer: bool,
    ready: bool,
    flushing: Option<seq<ShardId>>,
    done: Option<Finished>,
    flushes: nat,
    cancelled: bool,
    phase: LoopPhase,
    responses: seq<seq<Answer>>)

  datatype Event =
    | Enqueue(shardKey: ShardId)
    | TakeRequest
    | TimerFires
    | TimerQuits
    | FlushReady
    | FlushCompletes(res: FlushResult)
    | FlushDone
    | Cancel
    | BeginShutdown
    | CancelPending
    | DrainOne
    | DrainEnds

  function Initial(namespace: string): State {
    State(namespace, [], [], [], [], false, false, false, None, None, 0, false, Running, [])
  }

  function Keys(reqs: seq<BatchRequest>): seq<ShardId> {
    seq(|reqs|, i requires 0 <= i < |reqs| => reqs[i].shardKey)
  }

  function BatchAnswer(namespace: string, batch: Finished, req: BatchRequest): Answer {
    FromBatch(batch, ToBatchResponse(batch.res, namespace, req.shardKey))
  }

  /** Each request's channel receives its answer, in order. */
  function AnswerAll(responses: seq<seq<Answer>>, reqs: seq<BatchRequest>,
                     answer: BatchRequest -> Answer): seq<seq<Answer>>
    decreases |reqs|
  {
    if reqs == [] then responses
    else
      var head := reqs[0];
      var after := if head.id < |responses| then responses[head.id := responses[head.id] + [answer(head)]]
        else responses;
      AnswerAll(after, reqs[1..], answer)
  }

  function StartFlush(s: State): State {
    s.(inflight := s.pending, pending := [], flushing := Some(Keys(s.pending)))
  }

  function Delivered(s: State): State
    requires s.done.Some?
  {
    s.(responses := AnswerAll(s.responses, s.inflight, r => BatchAnswer(s.namespace, s.done.value, r)),
       inflight := [], done := None)
  }

  function CancelledAll(s: State, reqs: seq<BatchRequest>): seq<seq<Answer>> {
    AnswerAll(s.responses, reqs, r => FromCancel)
  }

  predicate Enabled(s: State, e: Event) {
    match e
    case Enqueue(_) => |s.queue| < REQUESTS_CHANNEL_LIMIT
    case TakeRequest => s.phase.Running? && s.queue != []
    case TimerFires => s.timer && !s.ready
    case TimerQuits => s.timer && s.cancelled
    case FlushReady => s.phase.Running? && s.ready
    case FlushCompletes(_) => s.flushing.Some? && s.done.None?
    case FlushDone => s.phase.Running? && s.done.Some?
    case Cancel => true
    case BeginShutdown => s.phase.Running? && s.cancelled
    case CancelPending => s.phase.ShuttingDown? && (s.inflight == [] || s.done.Some?)
    case DrainOne => s.phase.Draining? && s.queue != []
    case DrainEnds => s.phase.Draining? && s.queue == []
  }

  function Next(s: State, e: Event): State
    requires Enabled(s, e)
  {
    match e
    case Enqueue(key) =>
      s.(submitted := s.submitted + [key], queue := s.queue + [BatchRequest(|s.submitted|, key)],
          responses := s.responses + [[]])
    case TakeRequest =>
      var s' := s.(queue := s.queue[1..], pending := s.pending + [s.queue[0]]);
      if s.inflight == [] && !s.scheduled then s'.(scheduled := true, timer := true) else s'
    case TimerFires => s.(timer := false, ready := true)
    case TimerQuits => s.(timer := false)
    case FlushReady => StartFlush(s.(scheduled := false, ready := false))
    case FlushCompletes(res) =>
      s.(flushing := None, done := Some(Finished(s.flushes, s.flushing.value, res)), flushes := s.flushes + 1)
    case FlushDone => if s.pending == [] then Delivered(s) else StartFlush(Delivered(s))
    case Cancel => s.(cancelled := true)
    case BeginShutdown => s.(phase := ShuttingDown)
    case CancelPending =>
      var s' := if s.inflight == [] then s else Delivered(s);
      s'.(responses := CancelledAll(s', s'.pending), pending := [], phase := Draining)
    case DrainOne => s.(responses := CancelledAll(s, [s.queue[0]]), queue := s.queue[1..])
    case DrainEnds => s.(phase := Stopped)
  }

  /** Everything not yet answered, oldest first. */
  function Outstanding(s: State): seq<BatchRequest> {
    s.inflight + s.pending + s.queue
  }

  /** The answer to request `id` settles its key, and comes from a batch that contained the key. */
  predicate GoodAnswer(namespace: string, submitted: seq<ShardId>, id: nat, a: Answer)
    requires id < |submitted|
  {
    a.FromBatch? ==> submitted[id] in a.batch.keys && Settles(a.batch.res, namespace, submitted[id], a.response)
  }

  /** Conservation: the newest requests are outstanding and unanswered, all older ones have exactly one answer. */
  ghost predicate Books(namespace: string, submitted: seq<ShardId>, responses: seq<seq<Answer>>,
                        out: seq<BatchRequest>) {
    && |responses| == |submitted|
    && |out| <= |submitted|
    && (forall i :: 0 <= i < |out| ==>
      out[i] == BatchRequest(|submitted| - |out| + i, submitted[|submitted| - |out| + i]))
    && (forall id :: |submitted| - |out| <= id < |submitted| ==> responses[id] == [])
    && (forall id :: 0 <= id < |submitted| - |out| ==>
      |responses[id]| == 1 && GoodAnswer(namespace, submitted, id, responses[id][0]))
  }

  ghost predicate Accounted(s: State) {
    Books(s.namespace, s.submitted, s.responses, Outstanding(s))
  }

  /** The loop's bookkeeping: one flush at a time, one timer at a time, nothing left unscheduled. */
  ghost predicate LoopOk(s: State) {
    && (s.inflight == [] <==> s.flushing.None? && s.done.None?)
    && !(s.flushing.Some? && s.done.Some?)
    && (s.flushing.Some? ==> s.flushing.value == Keys(s.inflight))
    && (s.done.Some? ==> s.done.value.keys == Keys(s.inflight))
    && !(s.timer && s.ready)
    && (s.timer || s.ready ==> s.scheduled)
    && (s.scheduled && !s.cancelled ==> s.timer || s.ready)
    && (s.phase.Running? && s.scheduled ==> s.inflight == [] && s.pending != [])
    && (s.phase.Running? && s.pending != [] ==> s.scheduled || s.inflight != [])
    && (!s.phase.Running? ==> s.cancelled)
    && (s.phase.Draining? || s.phase.Stopped? ==> s.inflight == [] && s.pending == [])
  }

  ghost predicate Invariant(s: State) {
    Accounted(s) && LoopOk(s)
  }

  /** Answering a stretch of unanswered requests fills exactly their channels, once each. */
  lemma {:induction false} AnswerAllFills(responses: seq<seq<Answer>>, reqs: seq<BatchRequest>,
                                          answer: BatchRequest -> Answer, first: nat)
    requires first + |reqs| <= |responses|
    requires forall i :: 0 <= i < |reqs| ==> reqs[i].id == first + i
    ensures |AnswerAll(responses, reqs, answer)| == |responses|
    ensures forall id :: 0 <= id < |responses| ==>
      AnswerAll(responses, reqs, answer)[id]
        == if first <= id < first + |reqs| then responses[id] + [answer(reqs[id - first])] else responses[id]
    decreases |reqs|
  {
    if reqs != [] {
      AnswerAllFills(responses[reqs[0].id := responses[reqs[0].id] + [answer(reqs[0])]], reqs[1..], answer, first + 1);
    }
  }

  /** Requests numbered one after the other, all with a channel. */
  predicate IsStretch(reqs: seq<BatchRequest>, first: nat, channels: nat) {
    first + |reqs| <= channels && forall i :: 0 <= i < |reqs| ==> reqs[i].id == first + i
  }

  /** The channels of these requests received one answer each, which settles the request's key; no other changed. */
  ghost predicate EachSettled(before: seq<seq<Answer>>, after: seq<seq<Answer>>, reqs: seq<BatchRequest>, first: nat,
                              namespace: string, batch: Finished)
    requires IsStretch(reqs, first, |before|)
  {
    && |after| == |before|
    && (forall id :: 0 <= id < first || first + |reqs| <= id < |before| ==> after[id] == before[id])
    && (forall id :: first <= id < first + |reqs| ==>
          exists response :: after[id] == before[id] + [FromBatch(batch, response)]
                             && Settles(batch.res, namespace, reqs[id - first].shardKey, response))
  }

  lemma AnsweringSettles(responses: seq<seq<Answer>>, reqs: seq<BatchRequest>, first: nat, namespace: string,
                         batch: Finished)
    requires IsStretch(reqs, first, |responses|)
    ensures var answer := r => BatchAnswer(namespace, batch, r);
      EachSettled(responses, AnswerAll(responses, reqs, answer), reqs, first, namespace, batch)
  {
    var answer := r => BatchAnswer(namespace, batch, r);
    AnswerAllFills(responses, reqs, answer, first);
    forall id | first <= id < first + |reqs|
      ensures exists response :: AnswerAll(responses, reqs, answer)[id] == responses[id] + [FromBatch(batch, response)]
                                 && Settles(batch.res, namespace, reqs[id - first].shardKey, response)
    {
      var req := reqs[id - first];
      BatchResponseSettles(batch.res, namespace, req.shardKey, answer(req).response);
    }
  }

  /** Answering the oldest outstanding requests keeps the books. */
  lemma AnsweringKeepsBooks(namespace: string, submitted: seq<ShardId>, responses: seq<seq<Answer>>,
                            reqs: seq<BatchRequest>,
                            rest: seq<BatchRequest>, answer: BatchRequest -> Answer)
    requires Books(namespace, submitted, responses, reqs + rest)
    requires forall r :: r in reqs && r.id < |submitted| && r.shardKey == submitted[r.id] ==>
      GoodAnswer(namespace, submitted, r.id, answer(r))
    ensures Books(namespace, submitted, AnswerAll(responses, reqs, answer), rest)
  {
    var out := reqs + rest;
    var first := |submitted| - |out|;
    forall i | 0 <= i < |reqs|
      ensures reqs[i] == BatchRequest(first + i, submitted[first + i])
    {
      assert reqs[i] == out[i];
    }
    forall i | 0 <= i < |rest|
      ensures rest[i] == BatchRequest(first + |reqs| + i, submitted[first + |reqs| + i])
    {
      assert rest[i] == out[|reqs| + i];
    }
    AnswerAllFills(responses, reqs, answer, first);
    var after := AnswerAll(responses, reqs, answer);
    forall id | first <= id < first + |reqs|
      ensures |after[id]| == 1 && GoodAnswer(namespace, submitted, id, after[id][0])
    {
      AnsweredOnce(namespace, submitted, responses[id], reqs[id - first], answer, id);
      assert reqs[id - first] in reqs;
    }
  }

  lemma AnsweredOnce(namespace: string, submitted: seq<ShardId>, before: seq<Answer>, req: BatchRequest,
                     answer: BatchRequest -> Answer, id: nat)
    requires id < |submitted| && before == [] && req == BatchRequest(id, submitted[id])
    ensures |before + [answer(req)]| == 1 && (before + [answer(req)])[0] == answer(req)
  {
  }

  lemma SubmittingKeepsBooks(namespace: string, submitted: seq<ShardId>, responses: seq<seq<Answer>>,
                             out: seq<BatchRequest>, key: ShardId)
    requires Books(namespace, submitted, responses, out)
    ensures Books(namespace, submitted + [key], responses + [[]], out + [BatchRequest(|submitted|, key)])
  {
    var after := responses + [[]];
    forall id | 0 <= id < |submitted| - |out|
      ensures |after[id]| == 1 && GoodAnswer(namespace, submitted + [key], id, after[id][0])
    {
      assert GoodAnswer(namespace, submitted, id, responses[id][0]);
    }
  }

  lemma DeliveringKeepsAccounts(s: State)
    requires Accounted(s) && s.done.Some? && s.done.value.keys == Keys(s.inflight)
    ensures Accounted(Delivered(s))
  {
    var answer := r => BatchAnswer(s.namespace, s.done.value, r);
    var rest := s.pending + s.queue;
    assert Outstanding(s) == s.inflight + rest;
    assert Outstanding(Delivered(s)) == rest;
    forall r | r in s.inflight && r.id < |s.submitted| && r.shardKey == s.submitted[r.id]
      ensures GoodAnswer(s.namespace, s.submitted, r.id, answer(r))
    {
      var i :| 0 <= i < |s.inflight| && s.inflight[i] == r;
      assert Keys(s.inflight)[i] == r.shardKey;
      BatchResponseSettles(s.done.value.res, s.namespace, r.shardKey, answer(r).response);
    }
    AnsweringKeepsBooks(s.namespace, s.submitted, s.responses, s.inflight, rest, answer);
  }

  lemma DrainKeepsAccounts(s: State)
    requires Invariant(s) && Enabled(s, DrainOne)
    ensures Accounted(Next(s, DrainOne))
  {
    assert Outstanding(s) == [s.queue[0]] + s.queue[1..] && Outstanding(Next(s, DrainOne)) == s.queue[1..];
    AnsweringKeepsBooks(s.namespace, s.submitted, s.responses, [s.queue[0]], s.queue[1..], r => FromCancel);
  }

  /** Cancelling what is pending, once nothing is in flight. */
  lemma CancellingKeepsAccounts(s: State)
    requires Accounted(s) && s.inflight == []
    ensures Books(s.namespace, s.submitted, CancelledAll(s, s.pending), s.queue)
  {
    assert Outstanding(s) == s.pending + s.queue;
    AnsweringKeepsBooks(s.namespace, s.submitted, s.responses, s.pending, s.queue, r => FromCancel);
  }

  lemma ShutdownKeepsAccounts(s: State, e: Event)
    requires Invariant(s) && Enabled(s, e) && (e.CancelPending? || e.DrainOne?)
    ensures Accounted(Next(s, e))
  {
    if e.DrainOne? {
      DrainKeepsAccounts(s);
    } else {
      if s.inflight != [] {
        DeliveringKeepsAccounts(s);
      }
      CancellingKeepsAccounts(if s.inflight == [] then s else Delivered(s));
      assert Outstanding(Next(s, e)) == s.queue;
    }
  }

  lemma FlushKeepsAccounts(s: State, e: Event)
    requires Invariant(s) && Enabled(s, e) && (e.FlushReady? || e.FlushDone?)
    ensures Accounted(Next(s, e))
  {
    if e.FlushDone? {
      DeliveringKeepsAccounts(s);
      assert Outstanding(Next(s, e)) == Outstanding(Delivered(s));
    } else {
      assert Outstanding(Next(s, e)) == Outstanding(s);
    }
  }

  lemma StepKeepsAccounts(s: State, e: Event)
    requires Invariant(s) && Enabled(s, e)
    ensures Accounted(Next(s, e))
  {
    var next := Next(s, e);
    if e.CancelPending? || e.DrainOne? {
      ShutdownKeepsAccounts(s, e);
    } else if e.FlushReady? || e.FlushDone? {
      FlushKeepsAccounts(s, e);
    } else if e.Enqueue? {
      SubmittingKeepsBooks(s.namespace, s.submitted, s.responses, Outstanding(s), e.shardKey);
      assert Outstanding(next) == Outstanding(s) + [BatchRequest(|s.submitted|, e.shardKey)];
    } else {
      assert Outstanding(next) == Outstanding(s);
    }
  }

  lemma StepKeepsLoopOk(s: State, e: Event)
    requires LoopOk(s) && Enabled(s, e)
    ensures LoopOk(Next(s, e))
  {
  }

  lemma StepKeepsInvariant(s: State, e: Event)
    requires Invariant(s) && Enabled(s, e)
    ensures Invariant(Next(s, e))
  {
    StepKeepsAccounts(s, e);
    StepKeepsLoopOk(s, e);
  }

  ghost predicate IsRun(start: State, events: seq<Event>)
    decreases |events|
  {
    events == [] || (Enabled(start, events[0]) && IsRun(Next(start, events[0]), events[1..]))
  }

  ghost function After(start: State, events: seq<Event>): State
    requires IsRun(start, events)
    decreases |events|
  {
    if events == [] then start else After(Next(start, events[0]), events[1..])
  }

  lemma {:induction false} RunKeepsInvariant(start: State, events: seq<Event>)
    requires Invariant(start) && IsRun(start, events)
    ensures Invariant(After(start, events)) && After(start, events).namespace == start.namespace
    decreases |events|
  {
    if events != [] {
      StepKeepsAccounts(start, events[0]);
      StepKeepsLoopOk(start, events[0]);
      RunKeepsInvariant(Next(start, events[0]), events[1..]);
    }
  }

  /** No channel was ever written twice; a request is unanswered exactly while it is held, and a request the stopped
      loop had taken has its answer. */
  ghost predicate Conserved(s: State, id: nat)
    requires id < |s.submitted| && |s.responses| == |s.submitted|
  {
    var req := BatchRequest(id, s.submitted[id]);
    && |s.responses[id]| <= 1
    && (s.responses[id] == [] <==> req in s.inflight || req in s.pending || req in s.queue)
    && (s.responses[id] != [] ==> GoodAnswer(s.namespace, s.submitted, id, s.responses[id][0]))
    && (s.phase.Stopped? && req !in s.queue ==> |s.responses[id]| == 1)
  }

  lemma InvariantConserves(s: State, id: nat)
    requires Invariant(s) && id < |s.submitted|
    ensures Conserved(s, id)
  {
    var out := Outstanding(s);
    var first := |s.submitted| - |out|;
    assert BatchRequest(id, s.submitted[id]) in out <==> first <= id by {
      if first <= id {
        assert out[id - first] == BatchRequest(id, s.submitted[id]);
      }
    }
  }

  /** In every state of every run, shutdown included. */
  lemma Conservation(namespace: string, events: seq<Event>, id: nat)
    requires IsRun(Initial(namespace), events) && id < |After(Initial(namespace), events).submitted|
    ensures |After(Initial(namespace), events).responses| == |After(Initial(namespace), events).submitted|
    ensures Conserved(After(Initial(namespace), events), id)
  {
    RunKeepsInvariant(Initial(namespace), events);
    InvariantConserves(After(Initial(namespace), events), id);
  }

  /** What a caller's answer means, in every run: the error of its batch if that failed, and an owner only if its batch
      found that very owner for a key that was not drained. */
  lemma AnswersMean(namespace: string, events: seq<Event>, id: nat, a: Answer)
    requires IsRun(Initial(namespace), events) && id < |After(Initial(namespace), events).submitted|
    requires |After(Initial(namespace), events).responses| == |After(Initial(namespace), events).submitted|
    requires a in After(Initial(namespace), events).responses[id] && a.FromBatch?
    ensures a.batch.res.Err? ==> a.response == Err(a.batch.res.error)
    ensures var key := After(Initial(namespace), events).submitted[id];
      && key in a.batch.keys
      && (a.response.Ok? ==> a.batch.res.Ok? && key !in a.batch.res.value.drained && key in a.batch.res.value.results)
      && (a.response.Ok? ==> a.response.value == a.batch.res.value.results[key])
      && (a.batch.res.Ok? && key in a.batch.res.value.drained ==> a.response == Err(ShardDrained(namespace, key)))
      && (a.batch.res.Ok? && key !in a.batch.res.value.drained && key in a.batch.res.value.results ==> a.response.Ok?)
  {
    Conservation(namespace, events, id);
    RunKeepsInvariant(Initial(namespace), events);
    assert After(Initial(namespace), events).responses[id] == [a];
  }

  /** How a submitter's wait ends: with the response, by the caller's context, or by the batcher's context. */
  datatype Release = Answered(result: Result<Response, ApiError>) | CallerGone | BatcherGone

  function ResponseOf(a: Answer): Result<Response, ApiError> {
    match a
    case FromBatch(_, response) => response
    case FromCancel => Err(Cancelled)
  }

  /** The branches of the submitter's select that are ready. */
  predicate CanEnd(s: State, id: nat, callerDone: bool, r: Release) {
    match r
    case Answered(result) => id < |s.responses| && s.responses[id] != [] && result == ResponseOf(s.responses[id][0])
    case CallerGone => callerDone
    case BatcherGone => s.cancelled
  }

  /** A request enqueued after the final drain is released in every continuation, and never by a response: what ends its
      submitter's wait is the batcher's context, already cancelled, unless the caller's own context ends it. */
  lemma {:induction false} LateRequestIsReleasedByContextOnly(s: State, events: seq<Event>, id: nat, callerDone: bool,
                                                              r: Release)
    requires s.phase.Stopped? && Invariant(s) && IsRun(s, events) && id < |s.submitted|
    requires BatchRequest(id, s.submitted[id]) in s.queue
    ensures CanEnd(After(s, events), id, callerDone, r) <==> r == BatcherGone || (r == CallerGone && callerDone)
    decreases |events|
  {
    if events == [] {
      var i :| 0 <= i < |s.queue| && s.queue[i] == BatchRequest(id, s.submitted[id]);
      assert Outstanding(s) == s.queue;
      assert s.queue[i] == Outstanding(s)[i];
    } else {
      StepKeepsAccounts(s, events[0]);
      StepKeepsLoopOk(s, events[0]);
      LateRequestIsReleasedByContextOnly(Next(s, events[0]), events[1..], id, callerDone, r);
    }
  }

  /** How many internal steps the loop still needs for what it has taken. */
  function StepsLeft(s: State): nat {
    if s.inflight != [] then (if s.flushing.Some? then 2 else 1) + (if s.pending == [] then 0 else 2)
    else if s.pending == [] then 0
    else if s.ready then 3 else 4
  }

  function NextInternal(s: State, res: FlushResult): Event {
    if s.inflight != [] then (if s.flushing.Some? then FlushCompletes(res) else FlushDone)
    else if s.ready then FlushReady else TimerFires
  }

  /** Nobody is stranded: while the loop runs, the timer and the flushes alone answer everything it has taken. */
  lemma {:induction false} EverythingTakenIsAnswered(s: State, res: FlushResult) returns (events: seq<Event>)
    requires Invariant(s) && s.phase.Running? && !s.cancelled
    ensures IsRun(s, events) && |events| == StepsLeft(s)
    ensures forall e :: e in events ==> e in {TimerFires, FlushReady, FlushCompletes(res), FlushDone}
    ensures var t := After(s, events); t.inflight == [] && t.pending == [] && t.queue == s.queue
    decreases StepsLeft(s)
  {
    if StepsLeft(s) == 0 {
      events := [];
    } else {
      var e := NextInternal(s, res);
      StepKeepsAccounts(s, e);
      StepKeepsLoopOk(s, e);
      var rest := EverythingTakenIsAnswered(Next(s, e), res);
      events := [e] + rest;
      assert events[1..] == rest;
    }
  }

  lemma FirstStep(s: State, e: Event, rest: seq<Event>)
    requires Enabled(s, e) && IsRun(Next(s, e), rest)
    ensures IsRun(s, [e] + rest) && After(s, [e] + rest) == After(Next(s, e), rest)
  {
    assert ([e] + rest)[1..] == rest;
  }

  /** The drain empties the request channel and ends. */
  lemma {:induction false} DrainFinishes(s: State) returns (events: seq<Event>)
    requires Invariant(s) && s.phase.Draining?
    ensures IsRun(s, events)
    ensures var t := After(s, events); t.phase.Stopped? && t.queue == [] && t.submitted == s.submitted && Invariant(t)
    decreases |s.queue|
  {
    var e := if s.queue == [] then DrainEnds else DrainOne;
    StepKeepsInvariant(s, e);
    var rest := [];
    if s.queue != [] {
      rest := DrainFinishes(Next(s, e));
    }
    FirstStep(s, e, rest);
    events := [e] + rest;
  }

  /** What is left to do before the drain of a cancelled batcher. */
  function NextOfShutdown(s: State, res: FlushResult): Event {
    if s.phase.Running? then (if s.cancelled then BeginShutdown else Cancel)
    else if s.flushing.Some? then FlushCompletes(res)
    else CancelPending
  }

  function ShutdownSteps(s: State): nat {
    (if s.phase.Draining? then 0 else if s.phase.ShuttingDown? then 2 else if s.cancelled then 4 else 5)
      + (if s.flushing.Some? then 1 else 0)
  }

  /** Stopping works from everywhere: once stopped, whatever its flush in flight comes to, the batcher has answered
      every request it was ever given. */
  lemma {:induction false} ShutdownAnswersAll(s: State, res: FlushResult) returns (events: seq<Event>)
    requires Invariant(s) && !s.phase.Stopped?
    ensures IsRun(s, events)
    ensures var t := After(s, events);
      && t.phase.Stopped? && t.cancelled && t.submitted == s.submitted && |t.responses| == |t.submitted|
      && forall id :: 0 <= id < |t.submitted| ==> |t.responses[id]| == 1
    decreases ShutdownSteps(s)
  {
    if s.phase.Draining? {
      events := DrainFinishes(s);
      var t := After(s, events);
      assert Outstanding(t) == [];
    } else {
      var e := NextOfShutdown(s, res);
      StepKeepsInvariant(s, e);
      var rest := ShutdownAnswersAll(Next(s, e), res);
      FirstStep(s, e, rest);
      events := [e] + rest;
    }
  }
}

/** The batcher's own code: its variables, the cases of its select, the loops that write responses, and submitting. */
module Batcher {
  import opened Common
  import opened Api
  import opened BatcherSpec

  /** How submitting starts: with a request in the channel, or not at all. */
  datatype Start = Enqueued(id: nat) | NotEnqueued(release: Release)

  class ShardBatcher {
    const namespace: string
    var submitted: seq<ShardId>
    var queue: seq<BatchRequest>
    var inflight: seq<BatchRequest>
    var pending: seq<BatchRequest>
    var scheduled: bool
    var timer: bool
    var ready: bool
    var flushing: Option<seq<ShardId>>
    var done: Option<Finished>
    var flushes: nat
    var cancelled: bool
    var phase: LoopPhase
    var responses: seq<seq<Answer>>

    function View(): State
      reads this
    {
      State(namespace, submitted, queue, inflight, pending, scheduled, timer, ready, flushing, done, flushes, cancelled,
          phase, responses)
    }

    ghost predicate Valid()
      reads this
    {
      Invariant(View())
    }

    constructor (ns: string)
      ensures Valid() && View() == Initial(ns)
      ensures namespace == ns && submitted == [] && phase.Running? && !cancelled
    {
      namespace := ns;
      submitted, queue, inflight, pending, scheduled := [], [], [], [], false;
      timer, ready, flushing, done, flushes := false, false, None, None, 0;
      cancelled, phase, responses := false, Running, [];
    }

    /** A request with an empty response channel enters the request channel. */
    method Send(shardKey: ShardId)
      requires Enabled(View(), Enqueue(shardKey))
      modifies this
      ensures View() == Next(old(View()), Enqueue(shardKey))
    {
      queue := queue + [BatchRequest(|submitted|, shardKey)];
      submitted := submitted + [shardKey];
      responses := responses + [[]];
    }

    /** The select that hands the request over; it is ready when the channel has room or a context has ended. */
    method Submit(shardKey: ShardId, callerDone: bool) returns (r: Start)
      requires Valid() && (Enabled(View(), Enqueue(shardKey)) || callerDone || cancelled)
      modifies this
      ensures Valid()
      ensures r.Enqueued? ==>
        r.id == old(|submitted|) && old(Enabled(View(), Enqueue(shardKey))) &&
          View() == Next(old(View()), Enqueue(shardKey))
      ensures r.NotEnqueued? ==>
        View() == old(View()) && !r.release.Answered? && CanEnd(View(), |submitted|, callerDone, r.release)
    {
      if
      case |queue| < REQUESTS_CHANNEL_LIMIT =>
        StepKeepsInvariant(View(), Enqueue(shardKey));
        r := Enqueued(|submitted|);
        Send(shardKey);
      case callerDone => r := NotEnqueued(CallerGone);
      case cancelled => r := NotEnqueued(BatcherGone);
    }

    /** The select that waits for the response.  A response handed out is the only one ever written for this request. */
    method Await(id: nat, callerDone: bool) returns (r: Release)
      requires Valid() && id < |submitted| && (responses[id] != [] || callerDone || cancelled)
      ensures CanEnd(View(), id, callerDone, r)
      ensures r.Answered? ==>
        |responses| == |submitted| && |responses[id]| == 1 && GoodAnswer(namespace, submitted, id, responses[id][0])
      ensures r.Answered? && responses[id][0].FromCancel? ==> r.result == Err(Cancelled)
      ensures r.Answered? && responses[id][0].FromBatch? ==>
        var res, key := responses[id][0].batch.res, submitted[id];
        && (res.Err? ==> r.result == Err(res.error))
        && (r.result.Ok? <==> res.Ok? && key !in res.value.drained && key in res.value.results)
        && (r.result.Ok? ==> r.result.value == res.value.results[key])
        && (res.Ok? && key in res.value.drained ==> r.result == Err(ShardDrained(namespace, key)))
    {
      InvariantConserves(View(), id);
      if
      case responses[id] != [] => r := Answered(ResponseOf(responses[id][0]));
      case callerDone => r := CallerGone;
      case cancelled => r := BatcherGone;
    }

    method OnRequest()
      requires Enabled(View(), TakeRequest)
      modifies this
      ensures View() == Next(old(View()), TakeRequest)
    {
      var req := queue[0];
      queue := queue[1..];
      pending := pending + [req];
      if inflight == [] && !scheduled {
        scheduled := true;
        timer := true;
      }
    }

    method OnFlushReady()
      requires Enabled(View(), FlushReady)
      modifies this
      ensures View() == Next(old(View()), FlushReady)
    {
      ready := false;
      scheduled := false;
      inflight, pending := pending, [];
      BeginFlush();
    }

    method BeginFlush()
      modifies this`flushing
      ensures flushing == Some(Keys(inflight))
    {
      var keys: seq<ShardId> := [];
      for i := 0 to |inflight|
        invariant keys == Keys(inflight)[..i]
      {
        keys := keys + [inflight[i].shardKey];
      }
      assert keys == Keys(inflight);
      flushing := Some(keys);
    }

    method DeliverResults(batch: Finished)
      modifies this`responses
      ensures responses == AnswerAll(old(responses), inflight, r => BatchAnswer(namespace, batch, r))
      ensures forall first: nat :: IsStretch(inflight, first, |old(responses)|) ==>
        EachSettled(old(responses), responses, inflight, first, namespace, batch)
    {
      ghost var answer := r => BatchAnswer(namespace, batch, r);
      for i := 0 to |inflight|
        invariant AnswerAll(responses, inflight[i..], answer) == AnswerAll(old(responses), inflight, answer)
      {
        var req := inflight[i];
        assert inflight[i..][1..] == inflight[i + 1..];
        if req.id < |responses| {
          responses := responses[req.id := responses[req.id] + [BatchAnswer(namespace, batch, req)]];
        }
      }
      forall first: nat | IsStretch(inflight, first, |old(responses)|)
        ensures EachSettled(old(responses), responses, inflight, first, namespace, batch)
      {
        AnsweringSettles(old(responses), inflight, first, namespace, batch);
      }
    }

    method CancelAll(reqs: seq<BatchRequest>)
      modifies this`responses
      ensures responses == AnswerAll(old(responses), reqs, r => FromCancel)
    {
      ghost var answer := (r: BatchRequest) => FromCancel;
      for i := 0 to |reqs|
        invariant AnswerAll(responses, reqs[i..], answer) == AnswerAll(old(responses), reqs, answer)
      {
        assert reqs[i..][1..] == reqs[i + 1..];
        if reqs[i].id < |responses| {
          responses := responses[reqs[i].id := responses[reqs[i].id] + [FromCancel]];
        }
      }
    }

    method OnFlushDone()
      requires Enabled(View(), FlushDone)
      modifies this
      ensures View() == Next(old(View()), FlushDone)
    {
      var batch := done.value;
      done := None;
      DeliverResults(batch);
      inflight := [];
      if |pending| > 0 {
        inflight, pending := pending, [];
        BeginFlush();
      }
    }

    /** The first half of the shutdown: wait for the flush in flight, then cancel what never got flushed. */
    method CancelUnflushed()
      requires Enabled(View(), CancelPending)
      modifies this
      ensures View() == Next(old(View()), CancelPending)
    {
      if inflight != [] {
        var batch := done.value;
        done := None;
        DeliverResults(batch);
        inflight := [];
      }
      CancelAll(pending);
      pending := [];
      phase := Draining;
    }

    method DrainRequest()
      requires Enabled(View(), DrainOne)
      modifies this
      ensures View() == Next(old(View()), DrainOne)
    {
      CancelAll([queue[0]]);
      queue := queue[1..];
    }

    /** What the timer goroutine, the flush goroutine and `Stop` do, and the loop's own changes of phase. */
    method OnOther(e: Event)
      requires Enabled(View(), e)
      requires e.TimerFires? || e.TimerQuits? || e.FlushCompletes? || e.Cancel? || e.BeginShutdown? || e.DrainEnds?
      modifies this
      ensures View() == Next(old(View()), e)
    {
      match e
      case TimerFires => timer, ready := false, true;
      case TimerQuits => timer := false;
      case FlushCompletes(res) =>
        done := Some(Finished(flushes, flushing.value, res));
        flushing, flushes := None, flushes + 1;
      case Cancel => cancelled := true;
      case BeginShutdown => phase := ShuttingDown;
      case DrainEnds => phase := Stopped;
    }

    /** Whatever happens next, the code does what the machine does, and its invariant stays. */
    method Handle(e: Event)
      requires Valid() && Enabled(View(), e)
      modifies this
      ensures Valid() && View() == Next(old(View()), e)
    {
      StepKeepsInvariant(View(), e);
      match e
      case Enqueue(shardKey) => Send(shardKey);
      case TakeRequest => OnRequest();
      case FlushReady => OnFlushReady();
      case FlushDone => OnFlushDone();
      case CancelPending => CancelUnflushed();
      case DrainOne => DrainRequest();
      case _ => OnOther(e);
    }

    /** The loop under any interleaving of its events: the code reaches the state the machine does, and at every moment
        each request has been answered at most once, by its own batch or a cancellation, or is still held. */
    method Loop(events: seq<Event>)
      requires Valid() && IsRun(View(), events)
      modifies this
      ensures Valid() && old(IsRun(View(), events)) && View() == old(After(View(), events))
      ensures |responses| == |submitted| && forall id :: 0 <= id < |submitted| ==> Conserved(View(), id)
    {
      ghost var start := View();
      for n := 0 to |events|
        invariant Valid() && IsRun(View(), events[n..]) && After(View(), events[n..]) == After(start, events)
      {
        assert events[n..][1..] == events[n + 1..];
        Handle(events[n]);
      }
      forall id | 0 <= id < |submitted|
        ensures Conserved(View(), id)
      {
        InvariantConserves(View(), id);
      }
    }
  }
}
