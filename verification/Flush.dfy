/** A whole flush: attempts under the retry loop. */
module Flush {
  import opened Common
  import opened Store
  import opened Planner
  import opened Api
  import opened Assigner
  import opened Powers
  import opened Backoff
  import opened Retry

  const CONFLICT_POLICY := Policy(50_000_000, 2.0, 1_000_000_000, 60_000_000_000, 3)
  const THROTTLE_POLICY := Policy(1_000_000_000, 2.0, 10_000_000_000, NO_INTERVAL, NO_MAXIMUM_ATTEMPTS)

  /** What one attempt meets: the state it reads, the store its write reaches, faults, and how the wait after it
      goes. */
  datatype AttemptEnv = AttemptEnv(read: Option<Namespace>, current: Namespace, fault: Fault, now: int, draw: nat,
      cancelled: bool)

  predicate IsConflict(e: ApiError) {
    e == VersionConflictError
  }

  predicate NeverThrottled(e: ApiError) {
    false
  }

  function CallOf(env: AttemptEnv, a: Attempt): Call<ApiError> {
    Call(if a.result.Ok? then None else Some(a.result.error), env.now, env.draw, 0, env.cancelled)
  }

  /** The state a successful attempt's answers are about: the one it committed, or the one it read if it wrote
      nothing. */
  function AnsweredFrom(env: AttemptEnv, a: Attempt): Namespace
    requires env.read.Some?
  {
    if a.wrote then a.next else env.read.value
  }

  /** There was something to place, and a record guarded by the commit had changed since it was read. */
  ghost predicate LostTheRace(snap: Namespace, current: Namespace, placements: seq<Placement>, now: int) {
    placements != [] && !GuardHolds(current, CommitRequest(snap, placements, now))
  }

  /** An attempt for these keys with these placements, as `TryAssign` makes it. */
  ghost predicate IsAttempt(env: AttemptEnv, shardKeys: seq<ShardId>, namespace: string, a: Attempt,
                            placements: seq<Placement>) {
    && (env.read.Some? ==> Since(env.read.value, env.current))
    && (!a.wrote ==> a.next == env.current)
    && (a.wrote ==> env.read.Some? && Wrote(env.read.value, env.current, placements, env.now, a.next))
    && (a.wrote ==> forall p :: p in placements ==> p.shard in shardKeys)
    && (a.result.Err? ==> a.result.error == Internal || a.result.error == VersionConflictError)
    && (a.result == Err(VersionConflictError) ==>
          !a.wrote && env.read.Some? && LostTheRace(env.read.value, env.current, placements, env.now))
    && (a.result.Ok? ==> env.read.Some? && a.result.value.drained == env.read.value.drainedShards)
    && (a.result.Ok? ==> forall k :: k in a.result.value.results ==> a.result.value.results[k].namespace == namespace)
    && (a.result.Ok? ==> Answers(AnsweredFrom(env, a), env.read.value.drainedShards, shardKeys, namespace, a.result))
    && (a.result.Ok? && !a.wrote ==> forall k :: k in shardKeys ==> !NeedsPlacement(env.read.value, k))
  }

  method MakeAttempt(mode: Mode, namespace: string, env: AttemptEnv, cache: ExecId -> Option<ShardOwner>,
                     shardKeys: seq<ShardId>)
    returns (a: Attempt, ghost placements: seq<Placement>)
    requires env.read.Some? ==> Since(env.read.value, env.current)
    requires forall e :: cache(e).Some? ==> cache(e).value.executorID == e
    ensures IsAttempt(env, shardKeys, namespace, a, placements)
    ensures a.result.Ok? ==> Describes(a.result.value, namespace, cache)
    ensures env.read.Some? ==>
      EachLeast(StartingLoads(mode, env.read.value), AverageLoad(mode, env.read.value), placements)
    ensures env.fault.NoFault? && env.read.Some? && LostTheRace(env.read.value, env.current, placements, env.now) ==>
      a.result == Err(VersionConflictError)
  {
    a, placements := TryAssign(mode, namespace, env.read, env.current, env.fault, cache, shardKeys, env.now);
  }

  /** Attempts in a row that end a flush of these keys: all but the last lost a version race and changed nothing, and
      the outcome is the last one's, except that an earlier error is preferred to a later one. */
  ghost predicate IsFlush(namespace: string, shardKeys: seq<ShardId>, res: FlushResult, envs: seq<AttemptEnv>,
                          attempts: seq<Attempt>, plans: seq<seq<Placement>>) {
    && 0 < |attempts| <= 4 && |envs| == |attempts| && |plans| == |attempts|
    && (forall i :: 0 <= i < |attempts| ==> IsAttempt(envs[i], shardKeys, namespace, attempts[i], plans[i]))
    && (forall i :: 0 <= i < |attempts| - 1 ==> attempts[i].result == Err(VersionConflictError) && !attempts[i].wrote)
    && (res.Ok? ==> res == attempts[|attempts| - 1].result)
    && (res.Err? ==> attempts[|attempts| - 1].result.Err?)
    && (res.Err? ==> res.error == if |attempts| > 1 then VersionConflictError else attempts[0].result.error)
  }

  /** What every attempt the retry loop might make would do; an attempt depends on nothing but what it meets. */
  method MakeAttempts(mode: Mode, namespace: string, envs: seq<AttemptEnv>, cache: ExecId -> Option<ShardOwner>,
                      shardKeys: seq<ShardId>)
    returns (attempts: seq<Attempt>, script: seq<Call<ApiError>>, ghost plans: seq<seq<Placement>>)
    requires forall i :: 0 <= i < |envs| && envs[i].read.Some? ==> Since(envs[i].read.value, envs[i].current)
    requires forall e :: cache(e).Some? ==> cache(e).value.executorID == e
    ensures |attempts| == |envs| && |script| == |envs| && |plans| == |envs|
    ensures forall i :: 0 <= i < |envs| ==> IsAttempt(envs[i], shardKeys, namespace, attempts[i], plans[i])
    ensures forall i :: 0 <= i < |envs| ==> script[i] == CallOf(envs[i], attempts[i])
    ensures forall i :: 0 <= i < |envs| && attempts[i].result.Ok? ==>
      Describes(attempts[i].result.value, namespace, cache)
  {
    attempts, script, plans := [], [], [];
    for n := 0 to |envs|
      invariant |attempts| == n && |script| == n && |plans| == n
      invariant forall i :: 0 <= i < n ==> IsAttempt(envs[i], shardKeys, namespace, attempts[i], plans[i])
      invariant forall i :: 0 <= i < n ==> script[i] == CallOf(envs[i], attempts[i])
      invariant forall i :: 0 <= i < n && attempts[i].result.Ok? ==>
        Describes(attempts[i].result.value, namespace, cache)
    {
      ghost var placements;
      var a;
      a, placements := MakeAttempt(mode, namespace, envs[n], cache, shardKeys);
      attempts, script, plans := attempts + [a], script + [CallOf(envs[n], a)], plans + [placements];
    }
  }

  /** A call that lost a race and may be followed by another: for the first three times, while the context lasts, and up
      to fifty milliseconds before the minute is over. */
  predicate MayRetry(call: Call<ApiError>, start: int, n: nat) {
    && call.err == Some(VersionConflictError)
    && n < 3 && !call.cancelled && call.now - start <= 59_950_000_000
  }

  lemma GivingUpOnConflicts(elapsed: int, attempt: nat, draw: nat)
    ensures ComputeNextDelay(CONFLICT_POLICY, elapsed, attempt, draw) == DONE <==>
      attempt >= 3 || elapsed > 59_950_000_000
  {
    PowPositive(2, attempt);
    DelaysExactly(CONFLICT_POLICY, 2, elapsed, attempt, DONE);
    if !GivesUp(CONFLICT_POLICY, 2, elapsed, attempt) {
      DelayGrows(CONFLICT_POLICY, 2, elapsed, attempt, draw);
    }
  }

  /** After lost race number `n`, counting from zero, the wait is between four fifths and the whole of fifty
      milliseconds doubled `n` times, or of what is left of the minute if that is less. */
  predicate IsConflictWait(elapsed: int, n: nat, sleep: int) {
    var m := Smaller(50_000_000 * Pow(2, n), 60_000_000_000 - elapsed);
    4 * m / 5 <= sleep <= m
  }

  ghost predicate Waited(script: seq<Call<ApiError>>, start: int, sleeps: seq<int>) {
    |sleeps| <= |script| && forall i {:trigger sleeps[i]} :: 0 <= i < |sleeps| ==>
      IsConflictWait(script[i].now - start, i, sleeps[i])
  }

  lemma ConflictWaits(elapsed: int, n: nat, draw: nat)
    requires n < 3 && elapsed <= 59_950_000_000
    ensures IsConflictWait(elapsed, n, ComputeNextDelay(CONFLICT_POLICY, elapsed, n, draw))
  {
    PowPositive(2, n);
    assert Pow(2, 0) == 1 && Pow(2, 1) == 2 && Pow(2, 2) == 4;
    DelayGrows(CONFLICT_POLICY, 2, elapsed, n, draw);
  }

  lemma SleepsAreConflictWaits(script: seq<Call<ApiError>>, start: int, sleeps: seq<int>)
    requires |sleeps| <= |script| && forall i :: 0 <= i < |sleeps| ==> MayRetry(script[i], start, i)
    requires forall i :: 0 <= i < |sleeps| ==>
      && script[i].err.Some?
      && WaitsAfter(DelaysOf(CONFLICT_POLICY), DelaysOf(THROTTLE_POLICY), start, script, i, NeverThrottled, sleeps[i])
    ensures Waited(script, start, sleeps)
  {
    forall i | 0 <= i < |sleeps|
      ensures IsConflictWait(script[i].now - start, i, sleeps[i])
    {
      ConflictWaits(script[i].now - start, i, script[i].draw);
    }
  }

  /** The retry loop of a flush: it goes on exactly while it may, and an earlier error is preferred to a later one. */
  method RetryConflicts(script: seq<Call<ApiError>>, start: int) 
    returns (r: Retry.Outcome<ApiError>, calls: nat, sleeps: seq<int>)
    ensures calls <= |script| && calls <= 4
    ensures r.StillRunning? ==> calls == |script| && forall i :: 0 <= i < calls ==> MayRetry(script[i], start, i)
    ensures !r.StillRunning? ==> calls > 0 && forall i :: 0 <= i < calls - 1 ==> MayRetry(script[i], start, i)
    ensures !r.StillRunning? ==> !MayRetry(script[calls - 1], start, calls - 1)
    ensures r.Succeeded? <==> calls > 0 && script[calls - 1].err.None?
    ensures r.GaveUp? ==> script[calls - 1].err.Some? &&
                          r.err == if calls >= 2 then VersionConflictError else script[0].err.value
    ensures |sleeps| == if r.StillRunning? then calls else calls - 1
    ensures Waited(script, start, sleeps)
  {
    r, calls, sleeps := DoExponential(CONFLICT_POLICY, THROTTLE_POLICY, start, script, IsConflict, NeverThrottled);
    ghost var retried := if r.StillRunning? then calls else calls - 1;
    forall i | 0 <= i < retried
      ensures MayRetry(script[i], start, i)
    {
      assert !Stops(DelaysOf(CONFLICT_POLICY), start, script[i], i, IsConflict);
      GivingUpOnConflicts(script[i].now - start, i, script[i].draw);
    }
    SleepsAreConflictWaits(script, start, sleeps);
    if r.GaveUp? {
      GivingUpOnConflicts(script[calls - 1].now - start, calls - 1, script[calls - 1].draw);
    }
  }

  /**
   One flush: the retry loop around the attempts.  At most one attempt changes the store, it is the last one, and there
   are at most four; the flush is still running when what its next attempt meets is not given.
   */
  method AssignEphemeralBatch(mode: Mode, namespace: string, envs: seq<AttemptEnv>, start: int,
                              cache: ExecId -> Option<ShardOwner>, shardKeys: seq<ShardId>)
    returns (res: Option<FlushResult>, attempts: seq<Attempt>, ghost plans: seq<seq<Placement>>)
    requires forall i :: 0 <= i < |envs| && envs[i].read.Some? ==> Since(envs[i].read.value, envs[i].current)
    requires forall e :: cache(e).Some? ==> cache(e).value.executorID == e
    ensures |attempts| <= |envs|
    ensures res.Some? ==> IsFlush(namespace, shardKeys, res.value, envs[..|attempts|], attempts, plans)
    ensures res.None? ==> |attempts| == |envs| <= 4 && forall i :: 0 <= i < |attempts| ==>
      attempts[i].result == Err(VersionConflictError) && !attempts[i].wrote
    ensures res.Some? && res.value.Ok? ==> Describes(res.value.value, namespace, cache)
    ensures res.Some? ==> forall i :: 0 <= i < |attempts| - 1 ==>
      i < 3 && !envs[i].cancelled && envs[i].now - start <= 59_950_000_000
    ensures res.Some? && attempts[|attempts| - 1].result == Err(VersionConflictError) ==>
      var n := |attempts| - 1;
      n == 3 || envs[n].cancelled || envs[n].now - start > 59_950_000_000
  {
    var all, script;
    all, script, plans := MakeAttempts(mode, namespace, envs, cache, shardKeys);
    var outcome, calls, _ := RetryConflicts(script, start);
    attempts, plans := all[..calls], plans[..calls];
    res := match outcome
      case Succeeded => Some(attempts[calls - 1].result)
      case GaveUp(err) => Some(Err(err))
      case StillRunning => None;
    forall i | 0 <= i < calls
      ensures MayRetry(script[i], start, i) <==>
        && attempts[i].result == Err(VersionConflictError) && i < 3
        && !envs[i].cancelled && envs[i].now - start <= 59_950_000_000
      ensures IsAttempt(envs[..calls][i], shardKeys, namespace, attempts[i], plans[i])
    {
    }
    if res.Some? {
      AttemptsAreAFlush(namespace, shardKeys, res.value, envs[..calls], attempts, plans);
    }
  }

  lemma AttemptsAreAFlush(namespace: string, shardKeys: seq<ShardId>, res: FlushResult, envs: seq<AttemptEnv>,
                          attempts: seq<Attempt>, plans: seq<seq<Placement>>)
    requires 0 < |attempts| <= 4 && |envs| == |attempts| && |plans| == |attempts|
    requires forall i :: 0 <= i < |attempts| ==> IsAttempt(envs[i], shardKeys, namespace, attempts[i], plans[i])
    requires forall i :: 0 <= i < |attempts| - 1 ==> attempts[i].result == Err(VersionConflictError)
    requires var last := attempts[|attempts| - 1].result;
      if last.Ok? then res == last else res == Err(if |attempts| >= 2 then VersionConflictError else last.error)
    ensures IsFlush(namespace, shardKeys, res, envs, attempts, plans)
  {
    forall i | 0 <= i < |attempts| - 1
      ensures attempts[i].result == Err(VersionConflictError) && !attempts[i].wrote
    {
      assert IsAttempt(envs[i], shardKeys, namespace, attempts[i], plans[i]);
    }
  }
}
