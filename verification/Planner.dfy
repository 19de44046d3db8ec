/** Planning of on-demand placements: deduplication, then one least-loaded executor per shard. */
module Planner {
  import opened Common
  import opened Store

  datatype Placement = Placement(shard: ShardId, executor: ExecId)

  datatype PlanError = NoActiveExecutors | UnsupportedMode

  /** Greedy mode carries the smoothed load of each shard that has reported at least once. */
  datatype Mode = Naive | Greedy(measured: map<ShardId, real>) | OtherMode

  datatype ExecutorLoad = ExecutorLoad(smoothedLoad: real, shardCount: nat)

  ghost predicate NoDuplicates<T(!new)>(s: seq<T>) {
    forall i, j :: 0 <= i < j < |s| ==> s[i] != s[j]
  }

  ghost function FirstIndex(s: seq<ShardId>, x: ShardId): (k: nat)
    requires x in s
    ensures k < |s| && s[k] == x && x !in s[..k]
  {
    if s[0] == x then 0 else
      var k := 1 + FirstIndex(s[1..], x);
      assert s[..k] == [s[0]] + s[1..][..k - 1];
      k
  }

  /** The three clauses leave exactly one possible result. */
  method DedupeShardIDs(shardIDs: seq<ShardId>) returns (unique: seq<ShardId>)
    ensures NoDuplicates(unique)
    ensures forall x :: x in unique <==> x in shardIDs
    ensures forall i, j :: 0 <= i < j < |unique| ==> FirstIndex(shardIDs, unique[i]) < FirstIndex(shardIDs, unique[j])
  {
    var seen: set<ShardId> := {};
    unique := [];
    for n := 0 to |shardIDs|
      invariant NoDuplicates(unique)
      invariant forall x :: x in seen <==> x in unique
      invariant forall x :: x in unique <==> x in shardIDs[..n]
      invariant forall x :: x in unique ==> x in shardIDs
      invariant forall i :: 0 <= i < |unique| ==> FirstIndex(shardIDs, unique[i]) < n
      invariant forall i, j :: 0 <= i < j < |unique| ==>
        FirstIndex(shardIDs, unique[i]) < FirstIndex(shardIDs, unique[j])
    {
      var x := shardIDs[n];
      assert shardIDs[..n + 1] == shardIDs[..n] + [x];
      if x !in seen {
        assert FirstIndex(shardIDs, x) == n;
        seen := seen + {x};
        unique := unique + [x];
      }
    }
    assert shardIDs[..|shardIDs|] == shardIDs;
  }

  predicate NotAbove(a: ExecutorLoad, b: ExecutorLoad) {
    a.smoothedLoad < b.smoothedLoad || (a.smoothedLoad == b.smoothedLoad && a.shardCount <= b.shardCount)
  }

  /** Lexicographic order of identifiers. */
  predicate InOrder(a: ExecId, b: ExecId) {
    a == "" || (b != "" && (a[0] < b[0] || (a[0] == b[0] && InOrder(a[1..], b[1..]))))
  }

  lemma {:induction false} InOrderTotal(a: ExecId, b: ExecId)
    ensures InOrder(a, b) || InOrder(b, a)
    ensures InOrder(a, b) && InOrder(b, a) ==> a == b
  {
    if a != "" && b != "" && a[0] == b[0] {
      InOrderTotal(a[1..], b[1..]);
      assert a == [a[0]] + a[1..] && b == [b[0]] + b[1..];
    }
  }

  lemma {:induction false} InOrderTransitive(a: ExecId, b: ExecId, c: ExecId)
    requires InOrder(a, b) && InOrder(b, c)
    ensures InOrder(a, c)
  {
    if a != "" && a[0] == b[0] == c[0] {
      InOrderTransitive(a[1..], b[1..], c[1..]);
    }
  }

  /** At position `k` the strings differ for the first time, and `a` has the smaller character. */
  predicate SmallerAt(a: string, b: string, k: nat) {
    k < |a| && k < |b| && a[..k] == b[..k] && a[k] < b[k]
  }

  /** It is the order of strings: a prefix first, else the first difference decides. */
  lemma {:induction false} InOrderExactly(a: ExecId, b: ExecId)
    ensures InOrder(a, b) <==> a <= b || exists k: nat :: SmallerAt(a, b, k)
  {
    if a != "" && b != "" {
      if a[0] == b[0] {
        InOrderExactly(a[1..], b[1..]);
        SameHead(a, b);
      } else if a[0] < b[0] {
        assert SmallerAt(a, b, 0);
      } else {
        forall k: nat
          ensures !SmallerAt(a, b, k)
        {
          assert k > 0 && k < |a| && k < |b| ==> a[..k][0] != b[..k][0];
        }
      }
    }
  }

  lemma SameHead(a: string, b: string)
    requires a != "" && b != "" && a[0] == b[0]
    ensures a <= b <==> a[1..] <= b[1..]
    ensures (exists k: nat :: SmallerAt(a, b, k)) <==> exists k: nat :: SmallerAt(a[1..], b[1..], k)
  {
    assert a == [a[0]] + a[1..] && b == [b[0]] + b[1..];
    forall k: nat
      ensures SmallerAt(a, b, k + 1) <==> SmallerAt(a[1..], b[1..], k)
    {
      if k + 1 < |a| && k + 1 < |b| {
        assert a[..k + 1] == [a[0]] + a[1..][..k] && b[..k + 1] == [b[0]] + b[1..][..k];
        assert a[..k + 1][1..] == a[1..][..k] && b[..k + 1][1..] == b[1..][..k];
      }
    }
    forall k: nat | SmallerAt(a, b, k)
      ensures k > 0 && SmallerAt(a[1..], b[1..], k - 1)
    {
      assert SmallerAt(a, b, (k - 1) + 1);
    }
  }

  /** Smaller load first, then fewer shards, then the smaller identifier. */
  predicate Precedes(la: ExecutorLoad, a: ExecId, lb: ExecutorLoad, b: ExecId) {
    NotAbove(la, lb) && (la == lb ==> InOrder(a, b))
  }

  lemma PrecedesTotal(la: ExecutorLoad, a: ExecId, lb: ExecutorLoad, b: ExecId)
    ensures Precedes(la, a, lb, b) || Precedes(lb, b, la, a)
    ensures Precedes(la, a, lb, b) && Precedes(lb, b, la, a) ==> a == b
  {
    InOrderTotal(a, b);
  }

  lemma PrecedesTransitive(la: ExecutorLoad, a: ExecId, lb: ExecutorLoad, b: ExecId, lc: ExecutorLoad, c: ExecId)
    requires Precedes(la, a, lb, b) && Precedes(lb, b, lc, c)
    ensures Precedes(la, a, lc, c)
  {
    if la == lb == lc {
      InOrderTransitive(a, b, c);
    }
  }

  /** The one least executor; the order is total, so there is no other. */
  method ChooseExecutor(loads: map<ExecId, ExecutorLoad>) returns (chosen: Option<ExecId>)
    ensures chosen.None? <==> loads == map[]
    ensures chosen.Some? ==> chosen.value in loads && forall e :: e in loads ==>
      Precedes(loads[chosen.value], chosen.value, loads[e], e)
    ensures chosen.Some? ==> forall e :: e in loads ==>
      var c := loads[chosen.value];
      && c.smoothedLoad <= loads[e].smoothedLoad
      && (c.smoothedLoad == loads[e].smoothedLoad ==> c.shardCount <= loads[e].shardCount)
      && (c == loads[e] ==> InOrder(chosen.value, e))
  {
    chosen := None;
    var remaining := loads.Keys;
    while remaining != {}
      invariant remaining <= loads.Keys
      invariant chosen.None? <==> remaining == loads.Keys
      invariant chosen.Some? ==> chosen.value in loads
      invariant chosen.Some? ==> forall e :: e in loads.Keys - remaining ==>
        Precedes(loads[chosen.value], chosen.value, loads[e], e)
    {
      var e :| e in remaining;
      PrecedesTotal(loads[e], e, loads[e], e);
      if chosen.None? {
        chosen := Some(e);
      } else if !Precedes(loads[chosen.value], chosen.value, loads[e], e) {
        PrecedesTotal(loads[e], e, loads[chosen.value], chosen.value);
        forall x | x in loads.Keys - remaining
          ensures Precedes(loads[e], e, loads[x], x)
        {
          PrecedesTransitive(loads[e], e, loads[chosen.value], chosen.value, loads[x], x);
        }
        chosen := Some(e);
      }
      remaining := remaining - {e};
    }
  }

  /** How many of the placements go to `e`. */
  function Received(placements: seq<Placement>, e: ExecId): nat {
    if placements == [] then 0
    else Received(placements[..|placements| - 1], e) + (if placements[|placements| - 1].executor == e then 1 else 0)
  }

  function LoadAfter(loads: map<ExecId, ExecutorLoad>, average: real, placements: seq<Placement>, e: ExecId): real
    requires e in loads
  {
    loads[e].smoothedLoad + Received(placements, e) as real * average
  }

  function AfterPlacing(loads: map<ExecId, ExecutorLoad>, average: real, placements: seq<Placement>,
                        e: ExecId): ExecutorLoad
    requires e in loads
  {
    ExecutorLoad(LoadAfter(loads, average, placements, e), loads[e].shardCount + Received(placements, e))
  }

  /** `x` is at most one average shard above `y`, and at most one shard above it when no load is measured. */
  predicate OneAbove(x: ExecutorLoad, y: ExecutorLoad, average: real, sameStart: bool) {
    && x.smoothedLoad <= y.smoothedLoad + average
    && (average == 0.0 && sameStart ==> x.shardCount <= y.shardCount + 1)
  }

  /** An executor that took part of the batch ends at most one shard above every other executor. */
  ghost predicate Balanced(loads: map<ExecId, ExecutorLoad>, average: real, placements: seq<Placement>) {
    forall x, y :: x in loads && y in loads && Received(placements, x) > 0 ==>
      OneAbove(AfterPlacing(loads, average, placements, x), AfterPlacing(loads, average, placements, y), average,
               loads[x].smoothedLoad == loads[y].smoothedLoad)
  }

  lemma AfterPlacingOneMore(start: map<ExecId, ExecutorLoad>, average: real, placements: seq<Placement>, p: Placement,
                            e: ExecId)
    requires e in start
    ensures Received(placements + [p], e) == Received(placements, e) + (if p.executor == e then 1 else 0)
    ensures AfterPlacing(start, average, placements + [p], e)
         == (var before := AfterPlacing(start, average, placements, e);
             if p.executor == e then ExecutorLoad(before.smoothedLoad + average, before.shardCount + 1) else before)
  {
    assert (placements + [p])[..|placements|] == placements;
    var k := Received(placements, e);
    assert (k + 1) as real * average == k as real * average + average;
  }

  /** One round of the planning loop keeps the batch balanced. */
  lemma BalancedStep(start: map<ExecId, ExecutorLoad>, average: real, placements: seq<Placement>, p: Placement)
    requires average >= 0.0 && Balanced(start, average, placements) && p.executor in start
    requires forall y :: y in start ==>
      NotAbove(AfterPlacing(start, average, placements, p.executor), AfterPlacing(start, average, placements, y))
    ensures Balanced(start, average, placements + [p])
  {
    forall x, y | x in start && y in start && Received(placements + [p], x) > 0
      ensures OneAbove(AfterPlacing(start, average, placements + [p], x),
          AfterPlacing(start, average, placements + [p], y),
                       average, start[x].smoothedLoad == start[y].smoothedLoad)
    {
      AfterPlacingOneMore(start, average, placements, p, x);
      AfterPlacingOneMore(start, average, placements, p, y);
      var x0, y0 := AfterPlacing(start, average, placements, x), AfterPlacing(start, average, placements, y);
      if x == p.executor {
        assert NotAbove(x0, y0);
        if average == 0.0 && start[x].smoothedLoad == start[y].smoothedLoad {
          UnmeasuredLoads(start, placements, x);
          UnmeasuredLoads(start, placements, y);
        }
      } else {
        assert OneAbove(x0, y0, average, start[x].smoothedLoad == start[y].smoothedLoad);
      }
    }
  }

  lemma UnmeasuredLoads(start: map<ExecId, ExecutorLoad>, placements: seq<Placement>, e: ExecId)
    requires e in start
    ensures AfterPlacing(start, 0.0, placements, e).smoothedLoad == start[e].smoothedLoad
  {
  }

  /** With the placements made so far counted in, `e` comes before every other executor. */
  ghost predicate IsLeast(start: map<ExecId, ExecutorLoad>, average: real, placements: seq<Placement>, e: ExecId) {
    && e in start
    && forall x :: x in start ==>
         Precedes(AfterPlacing(start, average, placements, e), e, AfterPlacing(start, average, placements, x), x)
  }

  /** Each placement went to the executor that was least at its turn. */
  ghost predicate EachLeast(start: map<ExecId, ExecutorLoad>, average: real, placements: seq<Placement>) {
    forall i :: 0 <= i < |placements| ==> IsLeast(start, average, placements[..i], placements[i].executor)
  }

  lemma EachLeastOneMore(start: map<ExecId, ExecutorLoad>, average: real, placements: seq<Placement>, p: Placement)
    requires EachLeast(start, average, placements) && IsLeast(start, average, placements, p.executor)
    ensures EachLeast(start, average, placements + [p])
  {
    var next := placements + [p];
    forall i | 0 <= i < |next|
      ensures IsLeast(start, average, next[..i], next[i].executor)
    {
      assert next[..i] == placements[..i];
      assert i == |placements| ==> placements[..i] == placements;
    }
  }

  /** Always choosing the least executor balances the batch. */
  lemma {:induction false} LeastChoicesBalance(start: map<ExecId, ExecutorLoad>, average: real,
                                               placements: seq<Placement>)
    requires average >= 0.0 && EachLeast(start, average, placements)
    ensures Balanced(start, average, placements)
    decreases |placements|
  {
    if placements != [] {
      var n := |placements| - 1;
      var before, p := placements[..n], placements[n];
      assert placements == before + [p];
      assert IsLeast(start, average, before, p.executor);
      forall i | 0 <= i < n
        ensures IsLeast(start, average, before[..i], before[i].executor)
      {
        assert before[..i] == placements[..i];
      }
      LeastChoicesBalance(start, average, before);
      BalancedStep(start, average, before, p);
    }
  }

  /** `loads` are the starting loads with the placements counted in. */
  ghost predicate Tracks(loads: map<ExecId, ExecutorLoad>, start: map<ExecId, ExecutorLoad>, average: real,
                         placements: seq<Placement>) {
    loads.Keys == start.Keys && forall e :: e in start ==> loads[e] == AfterPlacing(start, average, placements, e)
  }

  lemma TracksOneMore(loads: map<ExecId, ExecutorLoad>, start: map<ExecId, ExecutorLoad>, average: real,
                      placements: seq<Placement>, p: Placement)
    requires Tracks(loads, start, average, placements) && p.executor in loads
    ensures var l := loads[p.executor];
      Tracks(loads[p.executor := ExecutorLoad(l.smoothedLoad + average, l.shardCount + 1)], start, average,
             placements + [p])
  {
    forall x | x in start
      ensures AfterPlacing(start, average, placements + [p], x)
           == if x == p.executor then ExecutorLoad(loads[x].smoothedLoad + average, loads[x].shardCount + 1)
             else loads[x]
    {
      AfterPlacingOneMore(start, average, placements, p, x);
    }
  }

  /** The least executor takes the shard, and its load is updated. */
  method ChooseExecutorAndUpdateLoads(loads: map<ExecId, ExecutorLoad>, average: real, shard: ShardId,
                                      ghost start: map<ExecId, ExecutorLoad>, ghost placements: seq<Placement>)
    returns (r: Option<Placement>, next: map<ExecId, ExecutorLoad>)
    requires Tracks(loads, start, average, placements) && EachLeast(start, average, placements)
    ensures r.None? <==> start == map[]
    ensures r.Some? ==> r.value.shard == shard && r.value.executor in start
    ensures r.Some? ==>
      Tracks(next, start, average, placements + [r.value]) && EachLeast(start, average, placements + [r.value])
  {
    var chosen := ChooseExecutor(loads);
    if chosen.None? {
      assert start.Keys == {};
      return None, loads;
    }
    var e := chosen.value;
    assert IsLeast(start, average, placements, e);
    EachLeastOneMore(start, average, placements, Placement(shard, e));
    TracksOneMore(loads, start, average, placements, Placement(shard, e));
    next := loads[e := ExecutorLoad(loads[e].smoothedLoad + average, loads[e].shardCount + 1)];
    return Some(Placement(shard, e)), next;
  }

  method PlaceEach(start: map<ExecId, ExecutorLoad>, average: real, shardIDs: seq<ShardId>)
    returns (r: Result<seq<Placement>, PlanError>)
    ensures r.Err? <==> start == map[] && shardIDs != []
    ensures r.Ok? ==> |r.value| == |shardIDs|
    ensures r.Ok? ==> forall i :: 0 <= i < |shardIDs| ==>
      r.value[i].shard == shardIDs[i] && r.value[i].executor in start
    ensures r.Ok? ==> EachLeast(start, average, r.value)
  {
    var loads := start;
    var placements: seq<Placement> := [];
    for n := 0 to |shardIDs|
      invariant |placements| == n && Tracks(loads, start, average, placements)
      invariant n > 0 ==> start != map[]
      invariant forall i :: 0 <= i < n ==> placements[i].shard == shardIDs[i] && placements[i].executor in start
      invariant EachLeast(start, average, placements)
    {
      var p;
      p, loads := ChooseExecutorAndUpdateLoads(loads, average, shardIDs[n], start, placements);
      if p.None? {
        return Err(NoActiveExecutors);
      }
      placements := placements + [p.value];
    }
    return Ok(placements);
  }

  ghost function SumOver<T(!new)>(f: T -> real, xs: set<T>): real {
    if xs == {} then 0.0 else
      var x :| x in xs;
      f(x) + SumOver(f, xs - {x})
  }

  /** The sum does not depend on the order. */
  lemma {:induction false} SumOverInsert<T(!new)>(f: T -> real, xs: set<T>, x: T)
    requires x !in xs
    ensures SumOver(f, xs + {x}) == SumOver(f, xs) + f(x)
    decreases |xs|
  {
    var all := xs + {x};
    var y :| y in all && SumOver(f, all) == f(y) + SumOver(f, all - {y});
    if y == x {
      assert all - {y} == xs;
    } else {
      assert all - {y} == (xs - {y}) + {x};
      SumOverInsert(f, xs - {y}, x);
      SumOverInsert(f, xs - {y}, y);
      assert (xs - {y}) + {y} == xs;
    }
  }

  lemma {:induction false} SumOverNonNegative<T(!new)>(f: T -> real, xs: set<T>)
    requires forall x :: x in xs ==> f(x) >= 0.0
    ensures SumOver(f, xs) >= 0.0
    decreases |xs|
  {
    if xs != {} {
      var x :| x in xs && SumOver(f, xs) == f(x) + SumOver(f, xs - {x});
      SumOverNonNegative(f, xs - {x});
    }
  }

  function ShardsOf(ns: Namespace, e: ExecId): set<ShardId> {
    if e in ns.records then ns.records[e].shards.Keys else {}
  }

  /** What the loops over executors and their shards visit: each measured shard with the executor it is on. */
  function MeasuredPairs(measured: map<ShardId, real>, ns: Namespace): set<(ExecId, ShardId)> {
    set e, s | e in Assignable(ns, {}) && s in ShardsOf(ns, e) && s in measured :: (e, s)
  }

  function LoadOf(measured: map<ShardId, real>): ((ExecId, ShardId)) -> real {
    (p: (ExecId, ShardId)) => if p.1 in measured then measured[p.1] else 0.0
  }

  /** A shard that never reported counts as the average. */
  function EffectiveLoad(measured: map<ShardId, real>, average: real): ShardId -> real {
    (s: ShardId) => if s in measured then measured[s] else average
  }

  ghost function AverageOf(measured: map<ShardId, real>, pairs: set<(ExecId, ShardId)>): real {
    if |pairs| == 0 then 0.0 else SumOver(LoadOf(measured), pairs) / |pairs| as real
  }

  /** The average load of the measured shards; zero in naive mode and when nothing is measured. */
  ghost function AverageLoad(mode: Mode, ns: Namespace): real {
    if mode.Greedy? then AverageOf(mode.measured, MeasuredPairs(mode.measured, ns)) else 0.0
  }

  ghost function StartingLoad(mode: Mode, ns: Namespace, e: ExecId): ExecutorLoad {
    var shards := ShardsOf(ns, e);
    ExecutorLoad(if mode.Greedy? then SumOver(EffectiveLoad(mode.measured, AverageLoad(mode, ns)), shards) else 0.0,
                 |shards|)
  }

  ghost function StartingLoads(mode: Mode, ns: Namespace): map<ExecId, ExecutorLoad> {
    map e | e in Assignable(ns, {}) :: StartingLoad(mode, ns, e)
  }

  lemma {:induction false} SumOverUniform<T(!new)>(f: T -> real, xs: set<T>, c: real)
    requires forall x :: x in xs ==> f(x) == c
    ensures SumOver(f, xs) == |xs| as real * c
    decreases |xs|
  {
    if xs != {} {
      var x :| x in xs && SumOver(f, xs) == f(x) + SumOver(f, xs - {x});
      SumOverUniform(f, xs - {x}, c);
      assert |xs| as real * c == |xs - {x}| as real * c + c;
    }
  }

  lemma {:induction false} SumOverSame<T(!new)>(f: T -> real, g: T -> real, xs: set<T>)
    requires forall x :: x in xs ==> f(x) == g(x)
    ensures SumOver(f, xs) == SumOver(g, xs)
    decreases |xs|
  {
    if xs != {} {
      var x :| x in xs;
      SumOverSame(f, g, xs - {x});
      assert xs == (xs - {x}) + {x};
      SumOverInsert(f, xs - {x}, x);
      SumOverInsert(g, xs - {x}, x);
    }
  }

  lemma {:induction false} SumOverSplits<T(!new)>(f: T -> real, xs: set<T>, ys: set<T>)
    requires xs !! ys
    ensures SumOver(f, xs + ys) == SumOver(f, xs) + SumOver(f, ys)
    decreases |ys|
  {
    if ys == {} {
      assert xs + ys == xs;
    } else {
      var y :| y in ys;
      SumOverSplits(f, xs, ys - {y});
      assert ys == (ys - {y}) + {y} && xs + ys == (xs + (ys - {y})) + {y};
      SumOverInsert(f, ys - {y}, y);
      SumOverInsert(f, xs + (ys - {y}), y);
    }
  }

  /** The shards in the executor's record, split by whether they ever reported. */
  function Reporting(measured: map<ShardId, real>, ns: Namespace, e: ExecId): set<ShardId> {
    set s | e in ns.records && s in ns.records[e].shards && s in measured
  }

  function Silent(measured: map<ShardId, real>, ns: Namespace, e: ExecId): set<ShardId> {
    set s | e in ns.records && s in ns.records[e].shards && s !in measured
  }

  function Reported(measured: map<ShardId, real>): ShardId -> real {
    (s: ShardId) => if s in measured then measured[s] else 0.0
  }

  function Times(n: nat, x: real): real {
    n as real * x
  }

  /** The loads reported for the executor's shards, and one average for each of its shards that never reported. */
  ghost function LoadWithSilent(measured: map<ShardId, real>, ns: Namespace, e: ExecId, average: real): real {
    SumOver(Reported(measured), Reporting(measured, ns, e)) + Times(|Silent(measured, ns, e)|, average)
  }

  lemma EffectiveSum(measured: map<ShardId, real>, ns: Namespace, e: ExecId, average: real)
    ensures SumOver(EffectiveLoad(measured, average), ShardsOf(ns, e)) == LoadWithSilent(measured, ns, e, average)
  {
    var reporting, silent, f := Reporting(measured, ns, e), Silent(measured, ns, e), EffectiveLoad(measured, average);
    assert ShardsOf(ns, e) == reporting + silent;
    SumOverSplits(f, reporting, silent);
    SumOverSame(f, Reported(measured), reporting);
    SumOverUniform(f, silent, average);
  }

  /** An executor starts with the loads its shards reported, and one average for each that never did. */
  lemma StartingLoadExactly(mode: Mode, ns: Namespace, e: ExecId)
    ensures StartingLoad(mode, ns, e).shardCount == if e in ns.records then |ns.records[e].shards| else 0
    ensures !mode.Greedy? ==> StartingLoad(mode, ns, e).smoothedLoad == 0.0 && AverageLoad(mode, ns) == 0.0
    ensures mode.Greedy? ==>
      StartingLoad(mode, ns, e).smoothedLoad == LoadWithSilent(mode.measured, ns, e, AverageLoad(mode, ns))
  {
    if mode.Greedy? {
      EffectiveSum(mode.measured, ns, e, AverageLoad(mode, ns));
    }
  }

  /** An executor whose shards never reported starts at one average per shard. */
  lemma SilentExecutorLoad(mode: Mode, ns: Namespace, e: ExecId)
    requires mode.Greedy? && Reporting(mode.measured, ns, e) == {}
    ensures StartingLoad(mode, ns, e).smoothedLoad
         == Times(StartingLoad(mode, ns, e).shardCount, AverageLoad(mode, ns))
  {
    EffectiveSum(mode.measured, ns, e, AverageLoad(mode, ns));
    UniformSum(mode.measured, ns, e, AverageLoad(mode, ns), 0.0);
  }

  /** When all reports agree, every executor starts at that load per shard. */
  lemma UniformLoads(mode: Mode, ns: Namespace, e: ExecId, x: real)
    requires mode.Greedy? && AllReport(mode.measured, ns, x)
    requires Takes(ns, e) && Reporting(mode.measured, ns, e) != {}
    ensures AverageLoad(mode, ns) == x
    ensures StartingLoad(mode, ns, e).smoothedLoad == Times(StartingLoad(mode, ns, e).shardCount, x)
  {
    var s :| s in Reporting(mode.measured, ns, e);
    assert (e, s) in MeasuredPairs(mode.measured, ns);
    UniformAverage(mode.measured, ns, x);
    EffectiveSum(mode.measured, ns, e, x);
    UniformSum(mode.measured, ns, e, x, x);
  }

  lemma UniformSum(measured: map<ShardId, real>, ns: Namespace, e: ExecId, average: real, x: real)
    requires forall s :: s in Reporting(measured, ns, e) ==> measured[s] == x
    requires Reporting(measured, ns, e) == {} || average == x
    ensures LoadWithSilent(measured, ns, e, average) == Times(|ShardsOf(ns, e)|, average)
  {
    var reporting, silent := Reporting(measured, ns, e), Silent(measured, ns, e);
    assert ShardsOf(ns, e) == reporting + silent && |reporting + silent| == |reporting| + |silent|;
    SumOverUniform(Reported(measured), reporting, x);
    assert Times(|reporting| + |silent|, x) == Times(|reporting|, x) + Times(|silent|, x);
  }

  /** Every report about a shard of an active executor on a host that is not drained is `x`. */
  ghost predicate AllReport(measured: map<ShardId, real>, ns: Namespace, x: real) {
    forall e, s :: Takes(ns, e) && s in Reporting(measured, ns, e) ==> measured[s] == x
  }

  lemma UniformAverage(measured: map<ShardId, real>, ns: Namespace, x: real)
    requires AllReport(measured, ns, x) && MeasuredPairs(measured, ns) != {}
    ensures AverageOf(measured, MeasuredPairs(measured, ns)) == x
  {
    var pairs := MeasuredPairs(measured, ns);
    forall p | p in pairs
      ensures LoadOf(measured)(p) == x
    {
      assert Takes(ns, p.0) && p.1 in Reporting(measured, ns, p.0);
    }
    SumOverUniform(LoadOf(measured), pairs, x);
    QuotientOfProduct(|pairs| as real, x);
  }

  lemma QuotientOfProduct(n: real, x: real)
    requires n > 0.0
    ensures (n * x) / n == x
  {
  }

  /** The executor can take shards: it is active and its host, if known, is not drained. */
  predicate Takes(ns: Namespace, e: ExecId) {
    && e in ns.executors && ns.executors[e].status.Active?
    && (ns.executors[e].hostname == "" || ns.executors[e].hostname !in ns.drainedHosts)
  }

  lemma AverageIsNonNegative(mode: Mode, ns: Namespace)
    requires mode.Greedy? ==> forall s :: s in mode.measured ==> mode.measured[s] >= 0.0
    ensures AverageLoad(mode, ns) >= 0.0
  {
    if mode.Greedy? {
      var pairs := MeasuredPairs(mode.measured, ns);
      SumOverNonNegative(LoadOf(mode.measured), pairs);
      if |pairs| > 0 {
        QuotientNonNegative(SumOver(LoadOf(mode.measured), pairs), |pairs| as real);
      }
    }
  }

  lemma QuotientNonNegative(x: real, y: real)
    requires x >= 0.0 && y > 0.0
    ensures x / y >= 0.0
  {
  }

  /** A loop that adds up, in whatever order. */
  method AddUp<T(!new, ==)>(f: T -> real, xs: set<T>) returns (sum: real)
    ensures sum == SumOver(f, xs)
  {
    sum := 0.0;
    var remaining := xs;
    assert xs - remaining == {};
    while remaining != {}
      invariant remaining <= xs && sum == SumOver(f, xs - remaining)
    {
      var x :| x in remaining;
      SumOverInsert(f, xs - remaining, x);
      assert xs - (remaining - {x}) == (xs - remaining) + {x};
      sum := sum + f(x);
      remaining := remaining - {x};
    }
    assert xs - remaining == xs;
  }

  method AverageMeasuredShardLoad(measured: map<ShardId, real>, pairs: set<(ExecId, ShardId)>) returns (average: real)
    ensures average == AverageOf(measured, pairs)
    ensures average * |pairs| as real == SumOver(LoadOf(measured), pairs) && (pairs == {} ==> average == 0.0)
  {
    if |pairs| == 0 {
      return 0.0;
    }
    var sum := AddUp(LoadOf(measured), pairs);
    return sum / |pairs| as real;
  }

  method ExecutorLoads(mode: Mode, ns: Namespace) returns (loads: map<ExecId, ExecutorLoad>, average: real)
    ensures loads == StartingLoads(mode, ns) && average == AverageLoad(mode, ns)
    ensures forall e :: e in loads <==> Takes(ns, e)
    ensures forall e :: e in loads ==> loads[e].shardCount == if e in ns.records then |ns.records[e].shards| else 0
    ensures mode.Greedy? ==> forall e :: e in loads ==>
      loads[e].smoothedLoad == LoadWithSilent(mode.measured, ns, e, average)
    ensures !mode.Greedy? ==> average == 0.0 && forall e :: e in loads ==> loads[e].smoothedLoad == 0.0
  {
    loads, average := AddUpLoads(mode, ns);
    forall e | e in loads
      ensures loads[e].shardCount == if e in ns.records then |ns.records[e].shards| else 0
      ensures mode.Greedy? ==> loads[e].smoothedLoad == LoadWithSilent(mode.measured, ns, e, average)
      ensures !mode.Greedy? ==> loads[e].smoothedLoad == 0.0
    {
      StartingLoadExactly(mode, ns, e);
    }
  }

  method AddUpLoads(mode: Mode, ns: Namespace) returns (loads: map<ExecId, ExecutorLoad>, average: real)
    ensures loads == StartingLoads(mode, ns) && average == AverageLoad(mode, ns)
  {
    average := 0.0;
    if mode.Greedy? {
      average := AverageMeasuredShardLoad(mode.measured, MeasuredPairs(mode.measured, ns));
    }
    loads := map[];
    var executors := Assignable(ns, {});
    while executors != {}
      invariant executors <= Assignable(ns, {}) && loads.Keys == Assignable(ns, {}) - executors
      invariant forall e :: e in loads ==> loads[e] == StartingLoad(mode, ns, e)
    {
      var e :| e in executors;
      var smoothedLoad := 0.0;
      if mode.Greedy? {
        smoothedLoad := AddUp(EffectiveLoad(mode.measured, average), ShardsOf(ns, e));
      }
      loads := loads[e := ExecutorLoad(smoothedLoad, |ShardsOf(ns, e)|)];
      executors := executors - {e};
    }
    assert loads.Keys == StartingLoads(mode, ns).Keys;
  }

  /** Exactly one placement per distinct requested shard, each on an assignable executor. */
  ghost predicate Places(ns: Namespace, shardIDs: seq<ShardId>, placements: seq<Placement>) {
    && (forall i, j :: 0 <= i < j < |placements| ==> placements[i].shard != placements[j].shard)
    && (forall s :: s in shardIDs <==> exists p :: p in placements && p.shard == s)
    && (forall p :: p in placements ==> p.executor in Assignable(ns, {}))
  }

  method PlanInitialPlacement(mode: Mode, ns: Namespace, shardIDs: seq<ShardId>)
    returns (r: Result<seq<Placement>, PlanError>)
    ensures r == Err(UnsupportedMode) <==> mode.OtherMode?
    ensures r == Err(NoActiveExecutors) <==> !mode.OtherMode? && (forall e :: !Takes(ns, e)) && shardIDs != []
    ensures r.Ok? ==> Places(ns, shardIDs, r.value)
    ensures r.Ok? ==> forall p :: p in r.value ==> Takes(ns, p.executor)
    ensures r.Ok? ==> EachLeast(StartingLoads(mode, ns), AverageLoad(mode, ns), r.value)
  {
    var unique := DedupeShardIDs(shardIDs);
    if mode.OtherMode? {
      return Err(UnsupportedMode);
    }
    assert unique == [] <==> shardIDs == [] by {
      if shardIDs != [] { assert shardIDs[0] in unique; }
      if unique != [] { assert unique[0] in shardIDs; }
    }
    var loads, average := ExecutorLoads(mode, ns);
    assert loads.Keys == Assignable(ns, {});
    r := PlaceEach(loads, average, unique);
    if r.Err? {
      assert Assignable(ns, {}) == {};
      return Err(NoActiveExecutors);
    }
    forall s | s in shardIDs
      ensures exists p :: p in r.value && p.shard == s
    {
      var i :| 0 <= i < |unique| && unique[i] == s;
      assert r.value[i] in r.value;
    }
  }

  /** For non-negative loads the planner's batches are balanced. */
  lemma PlansBalance(mode: Mode, ns: Namespace, placements: seq<Placement>)
    requires mode.Greedy? ==> forall s :: s in mode.measured ==> mode.measured[s] >= 0.0
    requires EachLeast(StartingLoads(mode, ns), AverageLoad(mode, ns), placements)
    ensures Balanced(StartingLoads(mode, ns), AverageLoad(mode, ns), placements)
  {
    AverageIsNonNegative(mode, ns);
    LeastChoicesBalance(StartingLoads(mode, ns), AverageLoad(mode, ns), placements);
  }
}
