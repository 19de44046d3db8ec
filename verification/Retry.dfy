/** The retry loop around an operation. */
module Retry {
  import opened Common
  import opened Backoff

  /** What one call of the operation meets: its error, the clock after it, the random draws, and whether the context
      ends while waiting to retry. */
  datatype Call<E> = Call(err: Option<E>, now: int, draw: nat, throttleDraw: nat, cancelled: bool)

  datatype Outcome<E> = Succeeded | GaveUp(err: E) | StillRunning

  /** Why the loop stops after its failed call number `n`, counting from zero. */
  predicate Stops<E>(policy: Delays, start: int, call: Call<E>, n: nat, isRetryable: E -> bool)
    requires call.err.Some?
  {
    || !isRetryable(call.err.value)
    || policy(call.now - start, n, call.draw) == DONE
    || call.cancelled
  }

  /** A throttle error waits for the throttle policy's delay when there is one and it is longer. */
  function Longer(own: int, throttled: int, throttle: bool): int {
    if throttle && throttled != DONE && throttled > own then throttled else own
  }

  /** How many of the first `n` calls failed with a throttle error. */
  function Throttles<E>(script: seq<Call<E>>, n: nat, isThrottle: E -> bool): nat
    requires n <= |script|
  {
    if n == 0 then 0
    else
      var throttled := script[n - 1].err.Some? && isThrottle(script[n - 1].err.value);
      Throttles(script, n - 1, isThrottle) + (if throttled then 1 else 0)
  }

  /** The wait after failed call number `i`: each policy counts its own attempts. */
  function SleepAfter<E>(policy: Delays, throttlePolicy: Delays, start: int, script: seq<Call<E>>, i: nat,
                         isThrottle: E -> bool): int
    requires i < |script| && script[i].err.Some?
  {
    Longer(policy(script[i].now - start, i, script[i].draw),
           throttlePolicy(script[i].now - start, Throttles(script, i, isThrottle), script[i].throttleDraw),
           isThrottle(script[i].err.value))
  }

  /** The earlier calls that failed with a throttle error. */
  ghost function EarlierThrottles<E(!new)>(script: seq<Call<E>>, n: nat, isThrottle: E -> bool): set<nat>
    requires n <= |script|
  {
    set j: nat | j < n && script[j].err.Some? && isThrottle(script[j].err.value)
  }

  lemma {:induction false} ThrottlesCounted<E(!new)>(script: seq<Call<E>>, n: nat, isThrottle: E -> bool)
    requires n <= |script|
    ensures Throttles(script, n, isThrottle) == |EarlierThrottles(script, n, isThrottle)|
  {
    if n > 0 {
      ThrottlesCounted(script, n - 1, isThrottle);
      var before, now := EarlierThrottles(script, n - 1, isThrottle), EarlierThrottles(script, n, isThrottle);
      assert now == if n - 1 in now then before + {n - 1} else before;
    } else {
      assert EarlierThrottles(script, 0, isThrottle) == {};
    }
  }

  /** A wait that is the policy's own, except after a throttle error that the throttle policy has a delay for: then it
      is the larger of the two. */
  predicate IsWait(own: int, throttled: int, throttle: bool, sleep: int) {
    && (!throttle || throttled == DONE ==> sleep == own)
    && (throttle && throttled != DONE ==> own <= sleep && throttled <= sleep && (sleep == own || sleep == throttled))
  }

  /** The throttle policy is asked once for every throttle error. */
  ghost predicate WaitsAfter<E(!new)>(policy: Delays, throttlePolicy: Delays, start: int, script: seq<Call<E>>, i: nat,
                                      isThrottle: E -> bool, sleep: int)
    requires i < |script| && script[i].err.Some?
  {
    IsWait(policy(script[i].now - start, i, script[i].draw),
           throttlePolicy(script[i].now - start, |EarlierThrottles(script, i, isThrottle)|, script[i].throttleDraw),
           isThrottle(script[i].err.value), sleep)
  }

  lemma SleepAfterWaits<E(!new)>(policy: Delays, throttlePolicy: Delays, start: int, script: seq<Call<E>>, i: nat,
                                 isThrottle: E -> bool)
    requires i < |script| && script[i].err.Some?
    ensures WaitsAfter(policy, throttlePolicy, start, script, i, isThrottle,
                       SleepAfter(policy, throttlePolicy, start, script, i, isThrottle))
  {
    ThrottlesCounted(script, i, isThrottle);
  }

  method SleepFor<E>(next: int, t: Retrier, call: Call<E>, isThrottle: E -> bool) returns (sleep: int)
    requires call.err.Some?
    modifies t`currentAttempt
    ensures sleep == Longer(next, t.policy(call.now - t.startTime, old(t.currentAttempt), call.throttleDraw),
                            isThrottle(call.err.value))
    ensures t.currentAttempt == old(t.currentAttempt) + (if isThrottle(call.err.value) then 1 else 0)
    ensures !isThrottle(call.err.value) ==> sleep == next
    ensures isThrottle(call.err.value) ==>
      var throttled := t.policy(call.now - t.startTime, old(t.currentAttempt), call.throttleDraw);
      if throttled == DONE then sleep == next
      else next <= sleep && throttled <= sleep && (sleep == next || sleep == throttled)
  {
    sleep := next;
    if isThrottle(call.err.value) {
      var throttle := t.NextBackOff(call.now, call.throttleDraw);
      if throttle != DONE && throttle > next {
        sleep := throttle;
      }
    }
  }

  /** The part of the loop body after a failed call. */
  method AfterFailure<E>(r: Retrier, t: Retrier, call: Call<E>, isRetryable: E -> bool, isThrottle: E -> bool)
    returns (stop: bool, sleep: int)
    requires call.err.Some? && r != t
    modifies r`currentAttempt, t`currentAttempt
    ensures stop == Stops(r.policy, r.startTime, call, old(r.currentAttempt), isRetryable)
    ensures !stop ==> r.currentAttempt == old(r.currentAttempt) + 1
    ensures !stop ==> t.currentAttempt == old(t.currentAttempt) + (if isThrottle(call.err.value) then 1 else 0)
    ensures !stop ==> sleep == Longer(r.policy(call.now - r.startTime, old(r.currentAttempt), call.draw),
                                      t.policy(call.now - t.startTime, old(t.currentAttempt), call.throttleDraw),
                                      isThrottle(call.err.value))
    ensures stop <==>
      || !isRetryable(call.err.value) || call.cancelled
      || r.policy(call.now - r.startTime, old(r.currentAttempt), call.draw) == DONE
    ensures !stop ==> IsWait(r.policy(call.now - r.startTime, old(r.currentAttempt), call.draw),
                             t.policy(call.now - t.startTime, old(t.currentAttempt), call.throttleDraw),
                             isThrottle(call.err.value), sleep)
  {
    if !isRetryable(call.err.value) {
      return true, 0;
    }
    var next := r.NextBackOff(call.now, call.draw);
    if next == DONE {
      return true, 0;
    }
    sleep := SleepFor(next, t, call, isThrottle);
    stop := call.cancelled;
  }

  /** Every call before number `n` failed and was retried. */
  ghost predicate AllRetried<E(!new)>(policy: Delays, start: int, script: seq<Call<E>>, n: nat,
                                      isRetryable: E -> bool) {
    n <= |script| && forall i :: 0 <= i < n ==> script[i].err.Some? && !Stops(policy, start, script[i], i, isRetryable)
  }

  /** The clock of the script: it does not go back before the start, and the loop sleeps between calls as it decided
      to. */
  ghost predicate SleepsBetween<E(!new)>(policy: Delays, throttlePolicy: Delays, start: int, script: seq<Call<E>>,
                                         isThrottle: E -> bool) {
    && (forall i :: 0 <= i < |script| ==> script[i].now >= start)
    && (forall i {:trigger SleepAfter(policy, throttlePolicy, start, script, i, isThrottle)} ::
          0 <= i < |script| - 1 && script[i].err.Some? ==>
          script[i + 1].now >= script[i].now + SleepAfter(policy, throttlePolicy, start, script, i, isThrottle))
  }

  /** The waits so far, one after each failed call. */
  ghost predicate Slept<E(!new)>(policy: Delays, throttlePolicy: Delays, start: int, script: seq<Call<E>>,
                                 sleeps: seq<int>,
                                 isThrottle: E -> bool) {
    |sleeps| <= |script| && forall i {:trigger sleeps[i]} :: 0 <= i < |sleeps| ==>
      script[i].err.Some? && sleeps[i] == SleepAfter(policy, throttlePolicy, start, script, i, isThrottle)
  }

  lemma SleptOneMore<E(!new)>(policy: Delays, throttlePolicy: Delays, start: int, script: seq<Call<E>>,
                              sleeps: seq<int>,
                              isThrottle: E -> bool)
    requires Slept(policy, throttlePolicy, start, script, sleeps, isThrottle) && |sleeps| < |script| &&
      script[|sleeps|].err.Some?
    ensures var sleep := SleepAfter(policy, throttlePolicy, start, script, |sleeps|, isThrottle);
      Slept(policy, throttlePolicy, start, script, sleeps + [sleep], isThrottle)
  {
    var after := sleeps + [SleepAfter(policy, throttlePolicy, start, script, |sleeps|, isThrottle)];
    forall i | 0 <= i < |after|
      ensures script[i].err.Some? && after[i] == SleepAfter(policy, throttlePolicy, start, script, i, isThrottle)
    {
      assert i < |sleeps| ==> after[i] == sleeps[i];
    }
  }

  /** Both retriers have counted what happened in the first `n` calls. */
  ghost predicate InStep<E(!new)>(r: Retrier, t: Retrier, start: int, script: seq<Call<E>>, n: nat,
                                  isThrottle: E -> bool)
    reads r, t
  {
    && n <= |script| && r != t
    && r.startTime == start && r.currentAttempt == n
    && t.startTime == start && t.currentAttempt == Throttles(script, n, isThrottle)
  }

  /** The loop body after failed call number `n`: stop, or wait and go on. */
  method RetryOrStop<E(!new)>(r: Retrier, t: Retrier, start: int, script: seq<Call<E>>, n: nat, sleeps: seq<int>,
                              isRetryable: E -> bool, isThrottle: E -> bool)
    returns (stop: bool, after: seq<int>)
    requires InStep(r, t, start, script, n, isThrottle) && n < |script| && script[n].err.Some?
    requires |sleeps| == n && Slept(r.policy, t.policy, start, script, sleeps, isThrottle)
    modifies r`currentAttempt, t`currentAttempt
    ensures stop == Stops(r.policy, start, script[n], n, isRetryable)
    ensures !stop ==> InStep(r, t, start, script, n + 1, isThrottle)
    ensures !stop ==> |after| == n + 1 && Slept(r.policy, t.policy, start, script, after, isThrottle)
  {
    var sleep;
    stop, sleep := AfterFailure(r, t, script[n], isRetryable, isThrottle);
    SleptOneMore(r.policy, t.policy, start, script, sleeps, isThrottle);
    after := sleeps + [sleep];
  }

  /**
   The loop, run over a script of what its calls meet.  It succeeds exactly when its last call did, every earlier call
   failed retryably and was waited for, and on failure the error before the last one is preferred.
   */
  method Do<E(!new)>(policy: Delays, throttlePolicy: Delays, start: int, script: seq<Call<E>>, isRetryable: E -> bool,
                     isThrottle: E -> bool)
    returns (r: Outcome<E>, calls: nat, sleeps: seq<int>)
    ensures calls <= |script|
    ensures r.StillRunning? ==> calls == |script| && AllRetried(policy, start, script, calls, isRetryable)
    ensures !r.StillRunning? ==> calls > 0 && AllRetried(policy, start, script, calls - 1, isRetryable)
    ensures r.Succeeded? <==> calls > 0 && script[calls - 1].err.None?
    ensures r.GaveUp? ==> script[calls - 1].err.Some? && Stops(policy, start, script[calls - 1], calls - 1, isRetryable)
    ensures r.GaveUp? ==> r.err == script[if calls >= 2 then calls - 2 else calls - 1].err.value
    ensures |sleeps| == if r.StillRunning? then calls else calls - 1
    ensures Slept(policy, throttlePolicy, start, script, sleeps, isThrottle)
    ensures r.GaveUp? ==> var last := script[calls - 1];
      !isRetryable(last.err.value) || last.cancelled || policy(last.now - start, calls - 1, last.draw) == DONE
    ensures forall i :: 0 <= i < |sleeps| ==>
      && script[i].err.Some? && isRetryable(script[i].err.value) && !script[i].cancelled
      && policy(script[i].now - start, i, script[i].draw) != DONE
      && WaitsAfter(policy, throttlePolicy, start, script, i, isThrottle, sleeps[i])
  {
    r, calls, sleeps := RunLoop(policy, throttlePolicy, start, script, isRetryable, isThrottle);
    forall i | 0 <= i < |sleeps|
      ensures script[i].err.Some? && !Stops(policy, start, script[i], i, isRetryable)
      ensures WaitsAfter(policy, throttlePolicy, start, script, i, isThrottle, sleeps[i])
    {
      SleepAfterWaits(policy, throttlePolicy, start, script, i, isThrottle);
    }
  }

  method RunLoop<E(!new)>(policy: Delays, throttlePolicy: Delays, start: int, script: seq<Call<E>>,
                          isRetryable: E -> bool, isThrottle: E -> bool)
    returns (r: Outcome<E>, calls: nat, sleeps: seq<int>)
    ensures calls <= |script|
    ensures r.StillRunning? ==> calls == |script| && AllRetried(policy, start, script, calls, isRetryable)
    ensures !r.StillRunning? ==> calls > 0 && AllRetried(policy, start, script, calls - 1, isRetryable)
    ensures r.Succeeded? <==> calls > 0 && script[calls - 1].err.None?
    ensures r.GaveUp? ==> script[calls - 1].err.Some? && Stops(policy, start, script[calls - 1], calls - 1, isRetryable)
    ensures r.GaveUp? ==> r.err == script[if calls >= 2 then calls - 2 else calls - 1].err.value
    ensures |sleeps| == if r.StillRunning? then calls else calls - 1
    ensures Slept(policy, throttlePolicy, start, script, sleeps, isThrottle)
  {
    var retrier := new Retrier(policy, start);
    var throttler := new Retrier(throttlePolicy, start);
    var prevErr: Option<E>, err: Option<E> := None, None;
    sleeps := [];
    for n := 0 to |script|
      invariant AllRetried(policy, start, script, n, isRetryable)
      invariant err == if n == 0 then None else script[n - 1].err
      invariant |sleeps| == n && Slept(policy, throttlePolicy, start, script, sleeps, isThrottle)
      invariant fresh(retrier) && fresh(throttler) && retrier != throttler
      invariant retrier.policy == policy && throttler.policy == throttlePolicy
      invariant InStep(retrier, throttler, start, script, n, isThrottle)
    {
      prevErr := err;
      err := script[n].err;
      if err.None? {
        return Succeeded, n + 1, sleeps;
      }
      var stop, after := RetryOrStop(retrier, throttler, start, script, n, sleeps, isRetryable, isThrottle);
      if stop {
        return GaveUp(if prevErr.Some? then prevErr.value else err.value), n + 1, sleeps;
      }
      sleeps := after;
    }
    return StillRunning, |script|, sleeps;
  }

  /** Each retry so far has used up one attempt. */
  lemma RetriesAreCounted<E(!new)>(p: Policy, start: int, script: seq<Call<E>>, n: nat, isRetryable: E -> bool)
    requires AllRetried(DelaysOf(p), start, script, n, isRetryable) && p.maximumAttempts > 0
    ensures n <= p.maximumAttempts
  {
    if n > 0 {
      assert !Stops(DelaysOf(p), start, script[n - 1], n - 1, isRetryable);
    }
  }

  /** When each call was made, and the draw it got. */
  function Asks<E>(start: int, script: seq<Call<E>>, n: nat): seq<Ask>
    requires n <= |script|
  {
    seq(n, i requires 0 <= i < n => Ask(script[i].now - start, script[i].draw))
  }

  lemma RetryWasAllowed<E(!new)>(p: Policy, start: int, call: Call<E>, i: nat, isRetryable: E -> bool)
    requires call.err.Some? && !Stops(DelaysOf(p), start, call, i, isRetryable)
    ensures !Exhausted(p, call.now - start, i)
  {
  }

  lemma SleepsAtLeast<E(!new)>(p: Policy, throttlePolicy: Delays, start: int, script: seq<Call<E>>, i: nat,
                               isThrottle: E -> bool)
    requires i < |script| && script[i].err.Some?
    ensures SleepAfter(DelaysOf(p), throttlePolicy, start, script, i, isThrottle)
         >= ComputeNextDelay(p, script[i].now - start, i, script[i].draw)
  {
  }

  lemma CallsAreApart<E(!new)>(p: Policy, throttlePolicy: Delays, start: int, script: seq<Call<E>>, i: nat,
                               isThrottle: E -> bool)
    requires SleepsBetween(DelaysOf(p), throttlePolicy, start, script, isThrottle)
    requires i < |script| - 1 && script[i].err.Some?
    ensures script[i + 1].now >= script[i].now + ComputeNextDelay(p, script[i].now - start, i, script[i].draw)
  {
    SleepsAtLeast(p, throttlePolicy, start, script, i, isThrottle);
  }

  lemma AskIsAllowed<E(!new)>(p: Policy, start: int, script: seq<Call<E>>, n: nat, i: nat, isRetryable: E -> bool)
    requires AllRetried(DelaysOf(p), start, script, n, isRetryable) && i < n
    ensures Asks(start, script, n)[i].elapsed == script[i].now - start
    ensures !Exhausted(p, Asks(start, script, n)[i].elapsed, i)
  {
    RetryWasAllowed(p, start, script[i], i, isRetryable);
  }

  lemma AsksAreApart<E(!new)>(p: Policy, throttlePolicy: Delays, start: int, script: seq<Call<E>>, n: nat, i: nat,
                              isRetryable: E -> bool, isThrottle: E -> bool)
    requires AllRetried(DelaysOf(p), start, script, n, isRetryable) && i < n - 1
    requires SleepsBetween(DelaysOf(p), throttlePolicy, start, script, isThrottle)
    ensures
      var asks := Asks(start, script, n);
      asks[i + 1].elapsed >= asks[i].elapsed + ComputeNextDelay(p, asks[i].elapsed, i, asks[i].draw)
  {
    CallsAreApart(p, throttlePolicy, start, script, i, isThrottle);
  }

  lemma RetriesAreAsks<E(!new)>(p: Policy, throttlePolicy: Delays, start: int, script: seq<Call<E>>, n: nat,
                                isRetryable: E -> bool, isThrottle: E -> bool)
    requires AllRetried(DelaysOf(p), start, script, n, isRetryable)
    requires SleepsBetween(DelaysOf(p), throttlePolicy, start, script, isThrottle)
    ensures SleepsAsTold(p, Asks(start, script, n))
  {
    var asks := Asks(start, script, n);
    forall i | 0 <= i < n
      ensures asks[i].elapsed >= 0 && !Exhausted(p, asks[i].elapsed, i)
    {
      AskIsAllowed(p, start, script, n, i, isRetryable);
    }
    forall i | 0 <= i < n - 1
      ensures asks[i + 1].elapsed >= asks[i].elapsed + ComputeNextDelay(p, asks[i].elapsed, i, asks[i].draw)
    {
      AsksAreApart(p, throttlePolicy, start, script, n, i, isRetryable, isThrottle);
    }
  }

  /** An expiration is set, and the policy cannot hand out zero delays for ever. */
  predicate Expires(p: Policy) {
    p.expirationInterval > 0 && !Stalls(p)
  }

  /** Without any limit on attempts, an expiration alone bounds the retries, for every policy that does not stall. */
  lemma ExpirationBoundsRetries<E(!new)>(p: Policy, throttlePolicy: Delays, start: int, script: seq<Call<E>>, n: nat,
                                         isRetryable: E -> bool, isThrottle: E -> bool)
    requires AllRetried(DelaysOf(p), start, script, n, isRetryable)
    requires SleepsBetween(DelaysOf(p), throttlePolicy, start, script, isThrottle)
    requires Expires(p)
    ensures n <= p.expirationInterval + 1
  {
    RetriesAreAsks(p, throttlePolicy, start, script, n, isRetryable, isThrottle);
    NotStalling(p, Asks(start, script, n));
  }

  /** The loop under exponential policies: at most one call more than the attempts allowed, and no more calls than fit
      before the expiration when it sleeps as it decided to. */
  method DoExponential<E(!new)>(p: Policy, throttle: Policy, start: int, script: seq<Call<E>>, isRetryable: E -> bool,
                                isThrottle: E -> bool)
    returns (r: Outcome<E>, calls: nat, sleeps: seq<int>)
    ensures calls <= |script|
    ensures r.StillRunning? ==> calls == |script| && AllRetried(DelaysOf(p), start, script, calls, isRetryable)
    ensures !r.StillRunning? ==> calls > 0 && AllRetried(DelaysOf(p), start, script, calls - 1, isRetryable)
    ensures r.Succeeded? <==> calls > 0 && script[calls - 1].err.None?
    ensures r.GaveUp? ==> calls > 0 && r.err == script[if calls >= 2 then calls - 2 else calls - 1].err.value
    ensures r.GaveUp? ==> var last := script[calls - 1];
      && last.err.Some?
      && (!isRetryable(last.err.value) || last.cancelled
          || DelaysOf(p)(last.now - start, calls - 1, last.draw) == DONE)
    ensures |sleeps| == (if r.StillRunning? then calls else calls - 1) && forall i :: 0 <= i < |sleeps| ==>
      script[i].err.Some? && WaitsAfter(DelaysOf(p), DelaysOf(throttle), start, script, i, isThrottle, sleeps[i])
    ensures p.maximumAttempts > 0 ==> calls <= p.maximumAttempts + 1
    ensures Expires(p) && SleepsBetween(DelaysOf(p), DelaysOf(throttle), start, script, isThrottle) ==>
      calls <= p.expirationInterval + 2
  {
    r, calls, sleeps := Do(DelaysOf(p), DelaysOf(throttle), start, script, isRetryable, isThrottle);
    var retried := if r.StillRunning? then calls else calls - 1;
    if p.maximumAttempts > 0 {
      RetriesAreCounted(p, start, script, retried, isRetryable);
    }
    if Expires(p) && SleepsBetween(DelaysOf(p), DelaysOf(throttle), start, script, isThrottle) {
      ExpirationBoundsRetries(p, DelaysOf(throttle), start, script, retried, isRetryable, isThrottle);
    }
  }
}
