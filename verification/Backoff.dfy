/** Exponential backoff with jitter.  Durations are integers; the floating-point intermediate is an exact real. */
module Backoff {
  import opened RealArith
  import opened Powers

  const DONE: int := -1
  const NO_INTERVAL: int := 0
  const NO_MAXIMUM_ATTEMPTS: int := 0

  datatype Policy = Policy(
    initialInterval: int,
    backoffCoefficient: real,
    maximumInterval: int,
    expirationInterval: int,
    maximumAttempts: int)

  function Power(c: real, n: nat): real {
    if n == 0 then 1.0 else c * Power(c, n - 1)
  }

  /** Conversion of a float to an integer truncates toward zero. */
  function Trunc(x: real): int {
    if x >= 0.0 then x.Floor else -((-x).Floor)
  }

  function MinReal(a: real, b: real): real {
    if a < b then a else b
  }

  /** Lower `x` to a limit when there is one. */
  function Capped(x: real, limit: int, limited: bool): real {
    if limited then MinReal(x, limit as real) else x
  }

  function Remaining(p: Policy, elapsed: int): int {
    if p.expirationInterval - elapsed > 0 then p.expirationInterval - elapsed else 0
  }

  function Raw(p: Policy, attempt: nat): real {
    p.initialInterval as real * Power(p.backoffCoefficient, attempt)
  }

  function Interval(p: Policy, elapsed: int, attempt: nat): real {
    Capped(Capped(Raw(p, attempt), p.maximumInterval, p.maximumInterval != NO_INTERVAL),
           Remaining(p, elapsed), p.expirationInterval != NO_INTERVAL)
  }

  /** The policy gives up. */
  predicate Exhausted(p: Policy, elapsed: int, attempt: nat) {
    || (p.maximumAttempts != NO_MAXIMUM_ATTEMPTS && attempt >= p.maximumAttempts)
    || (p.expirationInterval != NO_INTERVAL && elapsed > p.expirationInterval)
    || Raw(p, attempt) <= 0.0
    || Trunc(Interval(p, elapsed, attempt)) < p.initialInterval
  }

  function JitterPortion(interval: real): (j: nat)
    ensures j > 0
  {
    if Trunc(0.2 * interval) < 1 then 1 else Trunc(0.2 * interval)
  }

  /** `draw` stands for the random number; any natural number is folded into the range of the draw. */
  function ComputeNextDelay(p: Policy, elapsed: int, attempt: nat, draw: nat): int {
    if Exhausted(p, elapsed, attempt) then DONE
    else
      var interval := Interval(p, elapsed, attempt);
      Trunc(interval * 0.8 + (draw % JitterPortion(interval)) as real)
  }

  lemma {:induction false} PowerAtLeastOne(c: real, n: nat)
    requires c >= 1.0
    ensures Power(c, n) >= 1.0
  {
    if n > 0 {
      PowerAtLeastOne(c, n - 1);
      RealMulMonotone(1.0, c, Power(c, n - 1));
    }
  }

  lemma {:induction false} PowerPositive(c: real, n: nat)
    requires c > 0.0
    ensures Power(c, n) > 0.0
  {
    if n > 0 {
      PowerPositive(c, n - 1);
    }
  }

  lemma {:induction false} PowerShrinks(c: real, n: nat, m: nat)
    requires 0.0 < c < 1.0 && n <= m
    ensures Power(c, m) <= Power(c, n)
    decreases m - n
  {
    if n < m {
      PowerShrinks(c, n, m - 1);
      PowerPositive(c, m - 1);
      RealMulMonotone(c, 1.0, Power(c, m - 1));
    }
  }

  /** Repeated multiplication: exponents add, and the first power is the coefficient. */
  lemma {:induction false} PowerAdds(c: real, m: nat, n: nat)
    ensures Power(c, m + n) == Power(c, m) * Power(c, n) && Power(c, 0) == 1.0 && Power(c, 1) == c
  {
    assert Power(c, 1) == c * Power(c, 0);
    if m > 0 {
      PowerAdds(c, m - 1, n);
      RealMulAssociates(c, Power(c, m - 1), Power(c, n));
    }
  }

  lemma {:induction false} PowerOfInteger(b: nat, n: nat)
    ensures Power(b as real, n) == Pow(b, n) as real
  {
    if n > 0 {
      PowerOfInteger(b, n - 1);
    }
  }

  lemma PositiveInitial(p: Policy, elapsed: int, attempt: nat)
    requires p.backoffCoefficient > 0.0 && !Exhausted(p, elapsed, attempt)
    ensures p.initialInterval > 0 && p.maximumInterval >= 0
  {
    PowerPositive(p.backoffCoefficient, attempt);
    if p.initialInterval <= 0 {
      RealMulMonotone(p.initialInterval as real, 0.0, Power(p.backoffCoefficient, attempt));
    }
  }

  /** A delay handed out is at most the interval it was drawn from, and at least four fifths of it, rounded down. */
  lemma JitterRange(x: real, draw: nat)
    requires x >= 0.0
    ensures Trunc(x * 0.8) <= Trunc(x * 0.8 + (draw % JitterPortion(x)) as real)
    ensures Trunc(x * 0.8 + (draw % JitterPortion(x)) as real) as real <= x
  {
    var j := draw % JitterPortion(x);
    assert j as real <= 0.2 * x by {
      if j > 0 {
        assert j <= Trunc(0.2 * x);
      }
    }
  }

  /**
   Whatever the random draw, a delay ends no later than the expiration, and respects the maximum interval exactly when
   that is not negative; then it is also a real delay, between four fifths of the initial interval and the raw one.
   */
  lemma DelayBounds(p: Policy, elapsed: int, attempt: nat, draw: nat)
    requires !Exhausted(p, elapsed, attempt)
    ensures var delay := ComputeNextDelay(p, elapsed, attempt, draw);
      && (p.expirationInterval != NO_INTERVAL ==> elapsed + delay <= p.expirationInterval)
      && (p.maximumInterval != NO_INTERVAL ==> (delay <= p.maximumInterval <==> p.maximumInterval >= 0))
      && (p.maximumInterval >= 0 ==>
            delay != DONE && Trunc(0.8 * p.initialInterval as real) <= delay && delay as real <= Raw(p, attempt))
  {
    var x := Interval(p, elapsed, attempt);
    if p.maximumInterval >= 0 {
      JitterRange(x, draw);
      TruncOrder(0.8 * p.initialInterval as real, x * 0.8);
    } else {
      assert x == p.maximumInterval as real && JitterPortion(x) == 1;
    }
  }

  function Smaller(a: int, b: int): int {
    if a < b then a else b
  }

  /** In whole nanoseconds, for a whole coefficient: the initial interval times a power of the coefficient, lowered to
      the maximum interval and to the time left, when these are set. */
  function WholeInterval(p: Policy, b: nat, elapsed: int, attempt: nat): int {
    var grown := p.initialInterval * Pow(b, attempt);
    var capped := if p.maximumInterval != NO_INTERVAL then Smaller(grown, p.maximumInterval) else grown;
    var left := if elapsed < p.expirationInterval then p.expirationInterval - elapsed else 0;
    if p.expirationInterval != NO_INTERVAL then Smaller(capped, left) else capped
  }

  lemma IntervalIsWhole(p: Policy, b: nat, elapsed: int, attempt: nat)
    requires p.backoffCoefficient == b as real
    ensures Raw(p, attempt) == (p.initialInterval * Pow(b, attempt)) as real
    ensures Interval(p, elapsed, attempt) == WholeInterval(p, b, elapsed, attempt) as real
  {
    PowerOfInteger(b, attempt);
  }

  lemma FloorIs(x: real, q: int)
    requires q as real <= x < q as real + 1.0
    ensures x.Floor == q
  {
  }

  /** The jittered delay of a whole interval. */
  lemma WholeJitter(m: int, draw: nat)
    requires m > 0
    ensures JitterPortion(m as real) == if m < 5 then 1 else m / 5
    ensures var x := m as real;
      Trunc(x * 0.8 + (draw % JitterPortion(x)) as real) == 4 * m / 5 + draw % JitterPortion(x)
  {
    var x := m as real;
    FloorIs(0.2 * x, m / 5);
    var k := draw % JitterPortion(x);
    FloorIs(x * 0.8 + k as real, 4 * m / 5 + k);
  }

  /** Why a policy with a whole coefficient gives up, in whole nanoseconds. */
  predicate GivesUp(p: Policy, b: nat, elapsed: int, attempt: nat) {
    || (p.maximumAttempts != NO_MAXIMUM_ATTEMPTS && attempt >= p.maximumAttempts)
    || (p.expirationInterval != NO_INTERVAL && elapsed > p.expirationInterval)
    || p.initialInterval <= 0
    || WholeInterval(p, b, elapsed, attempt) < p.initialInterval
  }

  lemma ExhaustedExactlyWhen(p: Policy, b: nat, elapsed: int, attempt: nat)
    requires p.backoffCoefficient == b as real && b >= 1
    ensures Exhausted(p, elapsed, attempt) <==> GivesUp(p, b, elapsed, attempt)
  {
    IntervalIsWhole(p, b, elapsed, attempt);
    PowPositive(b, attempt);
    if p.initialInterval > 0 {
      MulMono2(1, p.initialInterval, 1, Pow(b, attempt));
    } else {
      NegativeProduct(p.initialInterval, Pow(b, attempt));
    }
  }

  lemma NegativeProduct(a: int, b: nat)
    requires a <= 0
    ensures a * b <= 0
  {
    assert (-a) * b >= 0;
  }

  /** The smallest delay for a whole interval, and how many delays the jitter can give. */
  function LeastDelay(m: int): int {
    4 * m / 5
  }

  function Choices(m: int): (n: nat)
    ensures n > 0
  {
    if m < 5 then 1 else m / 5
  }

  lemma DelayIs(p: Policy, b: nat, elapsed: int, attempt: nat, draw: nat)
    requires p.backoffCoefficient == b as real && b >= 1 && !GivesUp(p, b, elapsed, attempt)
    ensures var m := WholeInterval(p, b, elapsed, attempt);
      ComputeNextDelay(p, elapsed, attempt, draw) == LeastDelay(m) + draw % Choices(m)
  {
    ExhaustedExactlyWhen(p, b, elapsed, attempt);
    IntervalIsWhole(p, b, elapsed, attempt);
    WholeJitter(WholeInterval(p, b, elapsed, attempt), draw);
  }

  lemma SmallDraw(k: nat, n: nat)
    requires k < n
    ensures k % n == k
  {
  }

  /**
   The delays of a policy with a whole coefficient, exactly: none when it gives up, and otherwise, over all random
   draws, the whole numbers from four fifths of the interval on, as many as a fifth of it and at least one.
   */
  lemma DelaysExactly(p: Policy, b: nat, elapsed: int, attempt: nat, delay: int)
    requires p.backoffCoefficient == b as real && b >= 1
    ensures GivesUp(p, b, elapsed, attempt) ==>
      forall draw: nat :: ComputeNextDelay(p, elapsed, attempt, draw) == DONE
    ensures !GivesUp(p, b, elapsed, attempt) ==>
      var m := WholeInterval(p, b, elapsed, attempt);
      (exists draw: nat :: ComputeNextDelay(p, elapsed, attempt, draw) == delay) <==>
        LeastDelay(m) <= delay < LeastDelay(m) + Choices(m)
  {
    ExhaustedExactlyWhen(p, b, elapsed, attempt);
    if !GivesUp(p, b, elapsed, attempt) {
      var m := WholeInterval(p, b, elapsed, attempt);
      if draw: nat :| ComputeNextDelay(p, elapsed, attempt, draw) == delay {
        DelayIs(p, b, elapsed, attempt, draw);
      }
      if LeastDelay(m) <= delay < LeastDelay(m) + Choices(m) {
        var draw := delay - LeastDelay(m);
        SmallDraw(draw, Choices(m));
        DelayIs(p, b, elapsed, attempt, draw);
      }
    }
  }

  /** So a delay lies between four fifths of the grown and limited interval, rounded down, and that interval. */
  lemma DelayGrows(p: Policy, b: nat, elapsed: int, attempt: nat, draw: nat)
    requires p.backoffCoefficient == b as real && b >= 1 && !GivesUp(p, b, elapsed, attempt)
    ensures var m, delay := WholeInterval(p, b, elapsed, attempt), ComputeNextDelay(p, elapsed, attempt, draw);
      delay != DONE && 4 * m / 5 <= delay <= m
  {
    DelayIs(p, b, elapsed, attempt, draw);
  }

  lemma TruncOrder(x: real, y: real)
    requires x <= y
    ensures Trunc(x) <= Trunc(y)
  {
  }

  /** Why an interval falls below the initial one. */
  predicate TooShort(p: Policy, elapsed: int, attempt: nat) {
    || Raw(p, attempt) < p.initialInterval as real
    || (p.maximumInterval != NO_INTERVAL && p.maximumInterval < p.initialInterval)
    || (p.expirationInterval != NO_INTERVAL && Remaining(p, elapsed) < p.initialInterval)
  }

  lemma TooShortExactly(p: Policy, elapsed: int, attempt: nat)
    requires p.initialInterval > 0
    ensures Trunc(Interval(p, elapsed, attempt)) < p.initialInterval <==> TooShort(p, elapsed, attempt)
  {
  }

  lemma TooShortStays(p: Policy, elapsed: int, attempt: nat, later: int, laterAttempt: nat)
    requires p.backoffCoefficient > 0.0 && p.initialInterval > 0 && TooShort(p, elapsed, attempt)
    requires elapsed <= later && attempt <= laterAttempt
    ensures TooShort(p, later, laterAttempt)
  {
    var c, i := p.backoffCoefficient, p.initialInterval;
    if Raw(p, attempt) < i as real {
      BelowInitial(c, i, attempt);
      PowerShrinks(c, attempt, laterAttempt);
      RealMulMonotone(Power(c, laterAttempt), Power(c, attempt), i as real);
    }
  }

  /** Giving up is final: with a clock that does not go back, an exhausted policy stays exhausted. */
  lemma DoneIsAbsorbing(p: Policy, elapsed: int, attempt: nat, later: int, laterAttempt: nat)
    requires p.backoffCoefficient > 0.0 && Exhausted(p, elapsed, attempt)
    requires elapsed <= later && attempt <= laterAttempt
    ensures Exhausted(p, later, laterAttempt)
  {
    PowerPositive(p.backoffCoefficient, attempt);
    PowerPositive(p.backoffCoefficient, laterAttempt);
    if p.initialInterval <= 0 {
      RealMulMonotone(p.initialInterval as real, 0.0, Power(p.backoffCoefficient, laterAttempt));
    } else {
      TooShortExactly(p, elapsed, attempt);
      TooShortExactly(p, later, laterAttempt);
      if TooShort(p, elapsed, attempt) {
        TooShortStays(p, elapsed, attempt, later, laterAttempt);
      }
    }
  }

  /** Only a coefficient below one can bring an interval below the initial one. */
  lemma BelowInitial(c: real, initial: int, attempt: nat)
    requires c > 0.0 && initial > 0 && initial as real * Power(c, attempt) < initial as real
    ensures c < 1.0
  {
    if c >= 1.0 {
      PowerAtLeastOne(c, attempt);
      RealMulMonotone(1.0, Power(c, attempt), initial as real);
    }
  }

  /** One request for a delay: when it is made, and the random draw it gets. */
  datatype Ask = Ask(elapsed: int, draw: nat)

  /** A caller that was given a delay each time and never asks again before having slept it. */
  ghost predicate SleepsAsTold(p: Policy, asks: seq<Ask>) {
    && (forall i :: 0 <= i < |asks| ==> asks[i].elapsed >= 0 && !Exhausted(p, asks[i].elapsed, i))
    && (forall i :: 0 <= i < |asks| - 1 ==>
          asks[i + 1].elapsed >= asks[i].elapsed + ComputeNextDelay(p, asks[i].elapsed, i, asks[i].draw))
  }

  /** Only a policy with positive parameters hands out a second delay. */
  lemma SecondDelay(p: Policy, asks: seq<Ask>)
    requires SleepsAsTold(p, asks) && |asks| >= 2
    ensures p.backoffCoefficient > 0.0 && p.initialInterval > 0 && p.maximumInterval >= 0
  {
    assert !Exhausted(p, asks[0].elapsed, 0) && !Exhausted(p, asks[1].elapsed, 1);
    assert Raw(p, 0) > 0.0 && Raw(p, 1) > 0.0;
    PositiveFactors(p.backoffCoefficient, p.initialInterval);
    PositiveInitial(p, asks[1].elapsed, 1);
  }

  lemma PositiveFactors(c: real, initial: int)
    requires initial as real * Power(c, 0) > 0.0 && initial as real * Power(c, 1) > 0.0
    ensures c > 0.0
  {
    assert Power(c, 1) == c;
    if c <= 0.0 {
      RealMulMonotone(c, 0.0, initial as real);
    }
  }

  lemma {:induction false} TimePasses(p: Policy, asks: seq<Ask>, n: nat)
    requires SleepsAsTold(p, asks) && n < |asks|
    ensures n * Trunc(0.8 * p.initialInterval as real) <= asks[n].elapsed
  {
    if n > 0 {
      TimePasses(p, asks, n - 1);
      SecondDelay(p, asks);
      DelayBounds(p, asks[n - 1].elapsed, n - 1, asks[n - 1].draw);
      var d := Trunc(0.8 * p.initialInterval as real);
      assert n * d == (n - 1) * d + d;
    }
  }

  /** With an expiration and no limit on attempts, the number of delays is bounded by time alone. */
  lemma DelaysAreBounded(p: Policy, asks: seq<Ask>)
    requires p.expirationInterval > 0 && SleepsAsTold(p, asks) && asks != []
    ensures (|asks| - 1) * Trunc(0.8 * p.initialInterval as real) <= p.expirationInterval
  {
    TimePasses(p, asks, |asks| - 1);
    assert !Exhausted(p, asks[|asks| - 1].elapsed, |asks| - 1);
  }

  ghost predicate AtMost(p: Policy, limit: nat) {
    forall asks :: SleepsAsTold(p, asks) ==> |asks| <= limit
  }

  ghost predicate Bounded(p: Policy) {
    exists limit: nat :: AtMost(p, limit)
  }

  /** A policy that can hand out zero delays for ever: one nanosecond to start with, and nothing to end it. */
  predicate Stalls(p: Policy) {
    p.initialInterval == 1 && p.backoffCoefficient >= 1.0 && p.maximumInterval >= 0
  }

  /** The bound fails only for the one-nanosecond policies: a zero delay there can repeat without end. */
  lemma BoundedExactlyWhen(p: Policy)
    requires p.expirationInterval > 0 && p.maximumAttempts == NO_MAXIMUM_ATTEMPTS
    ensures Bounded(p) <==> !Stalls(p)
  {
    if Stalls(p) {
      forall limit: nat
        ensures !AtMost(p, limit)
      {
        StallingRun(p, limit + 1);
      }
    } else {
      forall asks | SleepsAsTold(p, asks)
        ensures |asks| <= p.expirationInterval + 1
      {
        NotStalling(p, asks);
      }
      assert AtMost(p, p.expirationInterval + 1);
    }
  }

  /** A one-nanosecond policy that does not stall gives up at its second delay at the latest. */
  lemma OneNanosecond(p: Policy, elapsed: int)
    requires p.backoffCoefficient > 0.0 && p.initialInterval == 1 && !Stalls(p)
    ensures Exhausted(p, elapsed, 1)
  {
    assert Power(p.backoffCoefficient, 1) == p.backoffCoefficient * Power(p.backoffCoefficient, 0);
    assert Raw(p, 1) == p.backoffCoefficient;
  }

  lemma NotStalling(p: Policy, asks: seq<Ask>)
    requires p.expirationInterval > 0 && !Stalls(p) && SleepsAsTold(p, asks)
    ensures |asks| <= p.expirationInterval + 1
  {
    if |asks| >= 2 {
      SecondDelay(p, asks);
      assert !Exhausted(p, asks[1].elapsed, 1);
      if p.initialInterval == 1 {
        OneNanosecond(p, asks[1].elapsed);
      }
      DelaysAreBounded(p, asks);
      AtLeastOneEach(|asks| - 1, Trunc(0.8 * p.initialInterval as real));
    }
  }

  lemma AtLeastOneEach(n: nat, d: int)
    requires d >= 1
    ensures n <= n * d
  {
    assert n * (d - 1) >= 0;
  }

  lemma StallingRun(p: Policy, n: nat)
    requires Stalls(p) && p.expirationInterval > 0 && p.maximumAttempts == NO_MAXIMUM_ATTEMPTS
    ensures exists asks :: SleepsAsTold(p, asks) && |asks| == n
  {
    var t := p.expirationInterval - 1;
    var asks := seq(n, i => Ask(t, 0));
    forall i | 0 <= i < n
      ensures !Exhausted(p, t, i) && ComputeNextDelay(p, t, i, 0) == 0
    {
      PowerAtLeastOne(p.backoffCoefficient, i);
      assert Interval(p, t, i) == 1.0;
      assert JitterPortion(1.0) == 1;
    }
    assert SleepsAsTold(p, asks);
  }

  /** A retry policy as a retrier sees it: a delay for each elapsed time, attempt number and random draw. */
  type Delays = (int, nat, nat) -> int

  function DelaysOf(p: Policy): Delays {
    (elapsed: int, attempt: nat, draw: nat) => ComputeNextDelay(p, elapsed, attempt, draw)
  }

  class Retrier {
    const policy: Delays
    var currentAttempt: nat
    var startTime: int

    constructor (p: Delays, now: int)
      ensures policy == p && currentAttempt == 0 && startTime == now
    {
      policy, currentAttempt, startTime := p, 0, now;
    }

    method Reset(now: int)
      modifies this
      ensures startTime == now && currentAttempt == 0
    {
      startTime, currentAttempt := now, 0;
    }

    method NextBackOff(now: int, draw: nat) returns (delay: int)
      modifies this`currentAttempt
      ensures delay == policy(now - startTime, old(currentAttempt), draw)
      ensures currentAttempt == old(currentAttempt) + 1
    {
      delay := policy(now - startTime, currentAttempt, draw);
      currentAttempt := currentAttempt + 1;
    }
  }
}

/** How long the cache's refresh loop waits between refreshes. */
module RefreshLoop {
  import opened Backoff
  import opened Powers

  const MILLISECOND: int := 1_000_000
  const SECOND: int := 1000 * MILLISECOND

  const REFRESH_POLICY := Policy(10 * MILLISECOND, 2.0, SECOND, NO_INTERVAL, NO_MAXIMUM_ATTEMPTS)

  /** A random number around `input`; `draw` is folded into the range of the draw.  The source panics on a coefficient
      outside [0, 1], and on a negative input unless the coefficient is 0. */
  function JitInt64(input: int, coefficient: real, draw: nat): int
    requires 0.0 <= coefficient <= 1.0 && (input >= 0 || coefficient == 0.0)
  {
    if coefficient == 0.0 || input == 0 then input
    else
      var base := Trunc(input as real * (1.0 - coefficient));
      BaseBelow(input, coefficient);
      base + draw % (2 * (input - base))
  }

  lemma BaseBelow(input: int, coefficient: real)
    requires input > 0 && 0.0 < coefficient <= 1.0
    ensures input as real * (1.0 - coefficient) >= 0.0
    ensures 0 <= Trunc(input as real * (1.0 - coefficient)) < input
  {
    var x := input as real;
    assert x * (1.0 - coefficient) == x - x * coefficient;
    assert x * coefficient > 0.0;
    assert x * (1.0 - coefficient) >= 0.0;
  }

  /** The numbers the jitter can give: from the lower end, rounded down, to as far above the input as that is below. */
  lemma JitterExactly(input: int, coefficient: real, x: int)
    requires 0.0 < coefficient <= 1.0 && input > 0
    ensures var low := (input as real * (1.0 - coefficient)).Floor;
      (exists draw: nat :: JitInt64(input, coefficient, draw) == x) <==> low <= x < 2 * input - low
  {
    BaseBelow(input, coefficient);
    var low := (input as real * (1.0 - coefficient)).Floor;
    if low <= x < 2 * input - low {
      SmallDraw(x - low, 2 * (input - low));
      assert JitInt64(input, coefficient, x - low) == x;
    }
  }

  predicate Whole(x: real) {
    x == x.Floor as real
  }

  ghost predicate NeverBelow(input: int, coefficient: real)
    requires 0.0 <= coefficient <= 1.0 && input >= 0
  {
    forall draw: nat :: input as real * (1.0 - coefficient) <= JitInt64(input, coefficient, draw) as real
  }

  /** The documented upper end always holds for a positive coefficient and input. */
  lemma JitterBelowUpperEnd(input: int, coefficient: real, draw: nat)
    requires 0.0 < coefficient <= 1.0 && input > 0
    ensures JitInt64(input, coefficient, draw) as real < input as real * (1.0 + coefficient)
  {
    BaseBelow(input, coefficient);
    var x := input as real;
    assert x * (1.0 + coefficient) == 2.0 * x - x * (1.0 - coefficient);
  }

  /** The documented lower end holds for every draw exactly when it is a whole number: otherwise it is rounded down. */
  lemma LowerEndExactlyWhen(input: int, coefficient: real)
    requires 0.0 <= coefficient <= 1.0 && input >= 0
    ensures NeverBelow(input, coefficient) <==> Whole(input as real * (1.0 - coefficient))
  {
    var low := input as real * (1.0 - coefficient);
    if coefficient == 0.0 || input == 0 {
      assert low == input as real;
    } else {
      BaseBelow(input, coefficient);
      assert JitInt64(input, coefficient, 0) == Trunc(low);
    }
  }

  /** The lower end missed: a jitter of one half around 1 can be 0. */
  lemma LowerEndCanFail()
    ensures !NeverBelow(1, 0.5) && JitInt64(1, 0.5, 0) == 0
  {
    LowerEndExactlyWhen(1, 0.5);
  }

  function ReconcileDelay(draw: nat): int {
    JitInt64(10 * SECOND, 0.2, draw)
  }

  lemma ReconcileDelayRange(draw: nat)
    ensures 8 * SECOND <= ReconcileDelay(draw) < 12 * SECOND
  {
    ReconcileDelayExactly(ReconcileDelay(draw));
  }

  /** After a success every wait from eight seconds up to twelve is possible, and no other. */
  lemma ReconcileDelayExactly(x: int)
    ensures (exists draw: nat :: ReconcileDelay(draw) == x) <==> 8 * SECOND <= x < 12 * SECOND
  {
    FloorIs((10 * SECOND) as real * (1.0 - 0.2), 8 * SECOND);
    JitterExactly(10 * SECOND, 0.2, x);
    if 8 * SECOND <= x < 12 * SECOND {
      var draw: nat :| JitInt64(10 * SECOND, 0.2, draw) == x;
      assert ReconcileDelay(draw) == x;
    }
  }

  /** The retry interval after so many earlier failures: doubled from 10ms each time, up to a second. */
  function Grown(failures: nat): int {
    Smaller(10 * MILLISECOND * Pow(2, failures), SECOND)
  }

  lemma GrownInterval(elapsed: int, failures: nat)
    ensures WholeInterval(REFRESH_POLICY, 2, elapsed, failures) == Grown(failures) >= 10 * MILLISECOND
    ensures !GivesUp(REFRESH_POLICY, 2, elapsed, failures)
  {
    PowPositive(2, failures);
  }

  /** From the eighth failure in a row on, the interval is the maximum. */
  lemma GrownToMaximum(failures: nat)
    ensures failures >= 7 ==> Grown(failures) == SECOND
    ensures failures < 7 ==> Grown(failures) < SECOND
  {
    if failures >= 7 {
      PowAdd(2, 7, failures - 7);
      PowPositive(2, failures - 7);
      assert Pow(2, 7) == 128;
      MulMono2(128, 128, 1, Pow(2, failures - 7));
    } else {
      PowAdd(2, failures, 6 - failures);
      PowPositive(2, 6 - failures);
      assert Pow(2, 6) == 64;
      MulMono2(Pow(2, failures), Pow(2, failures), 1, Pow(2, 6 - failures));
    }
  }

  /** The delay is between four fifths of the grown interval and the whole of it. */
  predicate InRetryRange(failures: nat, delay: int) {
    4 * Grown(failures) / 5 <= delay <= Grown(failures)
  }

  lemma RetryRange(elapsed: int, failures: nat, draw: nat)
    ensures InRetryRange(failures, ComputeNextDelay(REFRESH_POLICY, elapsed, failures, draw))
    ensures failures >= 7 ==>
      800 * MILLISECOND <= ComputeNextDelay(REFRESH_POLICY, elapsed, failures, draw) <= SECOND
  {
    GrownInterval(elapsed, failures);
    DelayGrows(REFRESH_POLICY, 2, elapsed, failures, draw);
    GrownToMaximum(failures);
  }

  /** A failed refresh is always retried: however many failures came before, and however long ago the first was. */
  lemma RetryNeverGivesUp(elapsed: int, failures: nat, draw: nat)
    ensures !Exhausted(REFRESH_POLICY, elapsed, failures)
    ensures 8 * MILLISECOND <= ComputeNextDelay(REFRESH_POLICY, elapsed, failures, draw) <= SECOND
  {
    PowerAtLeastOne(2.0, failures);
    assert Raw(REFRESH_POLICY, failures) >= (10 * MILLISECOND) as real * 1.0;
    DelayBounds(REFRESH_POLICY, elapsed, failures, draw);
    assert 0.8 * (10 * MILLISECOND) as real == (8 * MILLISECOND) as real;
  }

  method NextDelay(failed: bool, retrier: Retrier, now: int, draw: nat) returns (delay: int)
    requires retrier.policy == DelaysOf(REFRESH_POLICY)
    modifies retrier
    ensures failed ==> 8 * MILLISECOND <= delay <= SECOND && retrier.currentAttempt == old(retrier.currentAttempt) + 1
    ensures failed ==> InRetryRange(old(retrier.currentAttempt), delay)
    ensures !failed ==> 8 * SECOND <= delay < 12 * SECOND && retrier.currentAttempt == 0 && retrier.startTime == now
  {
    if !failed {
      retrier.Reset(now);
      ReconcileDelayRange(draw);
      return ReconcileDelay(draw);
    }
    RetryNeverGivesUp(now - retrier.startTime, retrier.currentAttempt, draw);
    RetryRange(now - retrier.startTime, retrier.currentAttempt, draw);
    var retryIn := retrier.NextBackOff(now, draw);
    if retryIn <= 0 {
      retryIn := SECOND;
    }
    return retryIn;
  }

  /** What ends a wait: the stop channel, the change channel closing, or a change or timeout followed by a refresh. */
  datatype Wait = StopRequested | ChangesClosed | Refresh(failed: bool, now: int, draw: nat)

  /** How many refreshes in a row failed just before wait number `i`. */
  function FailuresBefore(waits: seq<Wait>, i: nat): nat
    requires i <= |waits|
  {
    if i > 0 && waits[i - 1].Refresh? && waits[i - 1].failed then 1 + FailuresBefore(waits, i - 1) else 0
  }

  /** The loop ends only on stop or closed channel; until then every wait is within the bounds its last refresh
      allows. */
  method NamespaceRefreshLoop(waits: seq<Wait>, start: int, draw: nat) returns (delays: seq<int>, ended: bool)
    ensures ended <==> exists i :: 0 <= i < |waits| && !waits[i].Refresh?
    ensures 0 < |delays| <= |waits| + 1
    ensures if ended then |delays| <= |waits| && !waits[|delays| - 1].Refresh? else |delays| == |waits| + 1
    ensures forall i :: 0 <= i < |delays| - 1 ==> waits[i].Refresh?
    ensures 8 * SECOND <= delays[0] < 12 * SECOND
    ensures forall i :: 0 <= i < |delays| - 1 ==>
      if waits[i].failed then 8 * MILLISECOND <= delays[i + 1] <= SECOND else 8 * SECOND <= delays[i + 1] < 12 * SECOND
    ensures forall i :: 0 <= i < |delays| - 1 && waits[i].failed ==>
      InRetryRange(FailuresBefore(waits, i), delays[i + 1])
  {
    var retrier := new Retrier(DelaysOf(REFRESH_POLICY), start);
    var delay := NextDelay(false, retrier, start, draw);
    delays := [delay];
    for n := 0 to |waits|
      invariant |delays| == n + 1 && retrier.policy == DelaysOf(REFRESH_POLICY) && fresh(retrier)
      invariant forall i :: 0 <= i < n ==> waits[i].Refresh?
      invariant 8 * SECOND <= delays[0] < 12 * SECOND && retrier.currentAttempt == FailuresBefore(waits, n)
      invariant forall i :: 0 <= i < n && waits[i].failed ==> InRetryRange(FailuresBefore(waits, i), delays[i + 1])
      invariant forall i :: 0 <= i < n ==>
        if waits[i].failed then 8 * MILLISECOND <= delays[i + 1] <= SECOND
          else 8 * SECOND <= delays[i + 1] < 12 * SECOND
    {
      if !waits[n].Refresh? {
        return delays, true;
      }
      delay := NextDelay(waits[n].failed, retrier, waits[n].now, waits[n].draw);
      delays := delays + [delay];
    }
    ended := false;
  }
}
