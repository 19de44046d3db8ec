/** The leader's rebalance of an ephemeral namespace: how it redistributes shards, and what its commit does to the
    store. */
module Leader {
  import opened Common
  import opened Store
  import opened Planner
  import opened Arith

  type Distribution = map<ExecId, seq<ShardId>>

  datatype Move = Move(shard: ShardId, from: ExecId, to: ExecId)

  predicate At(cur: Distribution, e: ExecId, s: ShardId) {
    e in cur && s in cur[e]
  }

  /** Every available shard is in exactly one place, once: on one executor or among those still to be placed. */
  ghost predicate Partition(cur: Distribution, rest: seq<ShardId>, available: set<ShardId>) {
    && (forall e :: e in cur ==> NoDuplicates(cur[e]))
    && (forall e1, e2, s :: At(cur, e1, s) && At(cur, e2, s) ==> e1 == e2)
    && NoDuplicates(rest)
    && (forall e, s :: At(cur, e, s) ==> s !in rest && s in available)
    && (forall s :: s in rest ==> s in available)
    && (forall s :: s in available ==> s in rest || exists e :: At(cur, e, s))
  }

  /** A missing entry reads as the empty list. */
  function ListAt(cur: Distribution, e: ExecId): seq<ShardId> {
    if e in cur then cur[e] else []
  }

  /** Appending a shard that is nowhere yet, to an executor's list. */
  lemma PartitionPlace(cur: Distribution, rest: seq<ShardId>, available: set<ShardId>, e: ExecId, s: ShardId)
    requires Partition(cur, rest, available) && s !in available
    ensures Partition(cur[e := ListAt(cur, e) + [s]], rest, available + {s})
  {
    var next := cur[e := ListAt(cur, e) + [s]];
    assert At(next, e, s) && s !in rest;
    assert forall x :: !At(cur, x, s);
    assert !At(cur, e, s) && NoDuplicates(next[e]);
    assert forall x, t :: At(next, x, t) <==> At(cur, x, t) || (x == e && t == s);
    forall t | t in available && t !in rest
      ensures exists x :: At(next, x, t)
    {
      var x :| At(cur, x, t);
      assert At(next, x, t);
    }
  }

  lemma PartitionDefer(cur: Distribution, rest: seq<ShardId>, available: set<ShardId>, s: ShardId)
    requires Partition(cur, rest, available) && s !in available
    ensures Partition(cur, rest + [s], available + {s})
  {
  }

  /** Taking the first deferred shard out of the distribution's reach. */
  lemma PartitionPop(cur: Distribution, rest: seq<ShardId>, available: set<ShardId>)
    requires Partition(cur, rest, available) && rest != []
    ensures Partition(cur, rest[1..], available - {rest[0]})
  {
    assert forall s :: s in rest <==> s == rest[0] || s in rest[1..];
  }

  /** Taking a shard off an executor, given the executor's list without it. */
  lemma PartitionTake(cur: Distribution, rest: seq<ShardId>, available: set<ShardId>, e: ExecId, s: ShardId,
                      shorter: seq<ShardId>)
    requires Partition(cur, rest, available) && At(cur, e, s) && NoDuplicates(shorter)
    requires forall t :: t in shorter <==> t in cur[e] && t != s
    ensures Partition(cur[e := shorter], rest, available - {s})
  {
    var next := cur[e := shorter];
    assert forall x, t :: x != e ==> (At(next, x, t) <==> At(cur, x, t));
    assert forall t :: At(next, e, t) <==> At(cur, e, t) && t != s;
    forall t | t in available && t != s && t !in rest
      ensures exists x :: At(next, x, t)
    {
      var x :| At(cur, x, t);
      assert At(next, x, t);
    }
  }

  /** The k-th executor in the order of iteration is the first that holds the shard. */
  predicate FirstAt(r: Records, order: seq<ExecId>, k: nat, s: ShardId) {
    k < |order| && Holds(r, order[k], s) && forall m :: 0 <= m < k ==> !Holds(r, order[m], s)
  }

  ghost predicate FirstUpTo(r: Records, order: seq<ExecId>, n: nat, e: ExecId, s: ShardId) {
    exists k: nat :: k < n && FirstAt(r, order, k, s) && order[k] == e
  }

  ghost predicate FirstHolder(r: Records, order: seq<ExecId>, e: ExecId, s: ShardId) {
    FirstUpTo(r, order, |order|, e, s)
  }

  ghost predicate Untouched(r: Records, order: seq<ExecId>, n: nat, s: ShardId)
    requires n <= |order|
  {
    forall m :: 0 <= m < n ==> !Holds(r, order[m], s)
  }

  ghost predicate Enumerates(order: seq<ExecId>, r: Records) {
    NoDuplicates(order) && forall e :: e in order <==> e in r
  }

  /** After the first `n` executors: their available shards are sorted by whoever holds each first, the rest is left. */
  ghost predicate Sorted(r: Records, order: seq<ExecId>, n: nat, assignable: set<ExecId>, available: set<ShardId>,
                         cur: Distribution, toReassign: seq<ShardId>, left: set<ShardId>)
    requires n <= |order|
  {
    && left <= available && cur.Keys == assignable && Partition(cur, toReassign, available - left)
    && (forall s :: s in left <==> s in available && Untouched(r, order, n, s))
    && (forall e, s :: At(cur, e, s) <==> e in assignable && s in available && FirstUpTo(r, order, n, e, s))
  }

  lemma SortedOneMore(r: Records, order: seq<ExecId>, n: nat, assignable: set<ExecId>, available: set<ShardId>,
                      before: Distribution, cur: Distribution, toReassign0: seq<ShardId>, toReassign: seq<ShardId>,
                      left0: set<ShardId>, left: set<ShardId>)
    requires n < |order| && Sorted(r, order, n, assignable, available, before, toReassign0, left0)
    requires left <= available && cur.Keys == assignable && Partition(cur, toReassign, available - left)
    requires forall s :: s in left <==> s in left0 && !Holds(r, order[n], s)
    requires forall e, s :: At(cur, e, s) <==>
      At(before, e, s) || (e == order[n] && e in assignable && s in left0 && Holds(r, e, s))
    ensures Sorted(r, order, n + 1, assignable, available, cur, toReassign, left)
  {
    forall s
      ensures Untouched(r, order, n + 1, s) <==> Untouched(r, order, n, s) && !Holds(r, order[n], s)
      ensures FirstAt(r, order, n, s) <==> Untouched(r, order, n, s) && Holds(r, order[n], s)
    {
    }
    forall e, s
      ensures FirstUpTo(r, order, n + 1, e, s) <==>
        FirstUpTo(r, order, n, e, s) || (FirstAt(r, order, n, s) && order[n] == e)
    {
    }
  }

  /** One executor's shards: kept if it is assignable and nobody before it held them, else set aside. */
  method SortExecutor(r: Records, order: seq<ExecId>, n: nat, assignable: set<ExecId>, ghost available: set<ShardId>,
                      before: Distribution, toReassign0: seq<ShardId>, left0: set<ShardId>)
    returns (cur: Distribution, toReassign: seq<ShardId>, left: set<ShardId>)
    requires n < |order| && order[n] in r && Sorted(r, order, n, assignable, available, before, toReassign0, left0)
    ensures Sorted(r, order, n + 1, assignable, available, cur, toReassign, left)
  {
    cur, toReassign, left := before, toReassign0, left0;
    var e := order[n];
    var shards := r[e].shards.Keys;
    while shards != {}
      invariant shards <= r[e].shards.Keys && left <= left0 && cur.Keys == assignable
      invariant Partition(cur, toReassign, available - left)
      invariant forall s :: s in left <==> s in left0 && (Holds(r, e, s) ==> s in shards)
      invariant forall x, s :: At(cur, x, s) <==>
        At(before, x, s) || (x == e && e in assignable && s in left0 && Holds(r, e, s) && s !in shards)
    {
      var s :| s in shards;
      if s in left {
        assert available - (left - {s}) == available - left + {s};
        if e in assignable {
          PartitionPlace(cur, toReassign, available - left, e, s);
          cur := cur[e := cur[e] + [s]];
        } else {
          PartitionDefer(cur, toReassign, available - left, s);
          toReassign := toReassign + [s];
        }
        left := left - {s};
      }
      shards := shards - {s};
    }
    SortedOneMore(r, order, n, assignable, available, before, cur, toReassign0, toReassign, left0, left);
  }

  /** What stays is what an assignable executor is the first to hold; everything else that is available is
      reassigned. */
  method FindShardsToReassign(r: Records, assignable: set<ExecId>, available: set<ShardId>, order: seq<ExecId>)
    returns (toReassign: seq<ShardId>, cur: Distribution)
    requires Enumerates(order, r)
    ensures Partition(cur, toReassign, available) && cur.Keys == assignable
    ensures forall e, s :: At(cur, e, s) <==> e in assignable && s in available && FirstHolder(r, order, e, s)
  {
    var left := available;
    toReassign := [];
    cur := map e | e in assignable :: [];
    assert available - left == {};
    for n := 0 to |order|
      invariant Sorted(r, order, n, assignable, available, cur, toReassign, left)
    {
      assert order[n] in order;
      cur, toReassign, left := SortExecutor(r, order, n, assignable, available, cur, toReassign, left);
    }
    while left != {}
      invariant left <= available && Partition(cur, toReassign, available - left)
    {
      var s :| s in left;
      assert available - (left - {s}) == available - left + {s};
      PartitionDefer(cur, toReassign, available - left, s);
      toReassign := toReassign + [s];
      left := left - {s};
    }
    assert available - left == available;
  }

  /** How many of the first `round` steals hit donor `j` of `donors`. */
  function Stolen(round: nat, donors: nat, j: nat): nat
    requires j < donors
  {
    (round + donors - 1 - j) / donors
  }

  /** After `q` full turns and `k` more steals, the first `k` donors are one ahead. */
  lemma StolenCount(round: nat, donors: nat, j: nat, q: nat, k: nat)
    requires j < donors && k < donors && round == q * donors + k
    ensures Stolen(round, donors, j) == q + (if j < k then 1 else 0)
  {
    assert (q + 1) * donors == q * donors + donors;
    if j < k {
      assert (q + 2) * donors == q * donors + donors + donors;
      DivUnique(round + donors - 1 - j, donors, q + 1);
    } else {
      DivUnique(round + donors - 1 - j, donors, q);
    }
  }

  lemma StolenStep(round: nat, donors: nat, j: nat)
    requires j < donors
    ensures Stolen(round + 1, donors, j) == Stolen(round, donors, j) + (if j == round % donors then 1 else 0)
    ensures j == round % donors ==> Stolen(round, donors, j) == round / donors
  {
    var q, k := round / donors, round % donors;
    StolenCount(round, donors, j, q, k);
    if k + 1 < donors {
      StolenCount(round + 1, donors, j, q, k + 1);
    } else {
      assert (q + 1) * donors == q * donors + donors;
      StolenCount(round + 1, donors, j, q + 1, 0);
    }
  }

  /** Rounding the even share down: what all the empty executors take together fits in what the donors can spare. */
  lemma ShareFits(least: nat, donors: nat, empties: nat, share: nat)
    requires 0 < donors && share == least * donors / (donors + empties)
    ensures share <= least && share * empties <= (least - share) * donors
  {
    var total := donors + empties;
    DivBounds(least * donors, total);
    assert share * total == share * donors + share * empties;
    assert (least + 1) * donors == least * donors + donors;
    if least < share {
      MulMonotone(least + 1, share, donors);
    }
    assert (least - share) * donors == least * donors - share * donors;
  }

  /** Every steal finds a shard to take, and each donor keeps at least the share. */
  lemma StealBounds(least: nat, donors: nat, empties: nat, share: nat, round: nat, j: nat)
    requires j < donors && share == least * donors / (donors + empties) && round <= share * empties
    ensures round < share * empties ==> round / donors < least
    ensures Stolen(round, donors, j) + share <= least
  {
    ShareFits(least, donors, empties, share);
    var room := least - share;
    assert (room + 1) * donors == room * donors + donors;
    DivBelow(round + donors - 1 - j, donors, room + 1);
    if round < share * empties {
      DivBelow(round, donors, room);
    }
  }

  function Donors(cur: Distribution): set<ExecId> {
    set e | e in cur && cur[e] != []
  }

  ghost predicate Attained(cur: Distribution, n: nat) {
    exists e :: e in cur && cur[e] != [] && |cur[e]| == n
  }

  lemma {:induction false} CountWithoutDuplicates(s: seq<ExecId>)
    requires NoDuplicates(s)
    ensures |set e | e in s| == |s|
    decreases |s|
  {
    if s != [] {
      CountWithoutDuplicates(s[1..]);
      assert (set e | e in s) == {s[0]} + set e | e in s[1..];
    }
  }

  lemma DonorsCounted(cur: Distribution, donors: seq<ExecId>)
    requires NoDuplicates(donors) && forall e :: e in donors <==> e in cur && cur[e] != []
    ensures |donors| == |Donors(cur)|
  {
    CountWithoutDuplicates(donors);
    assert Donors(cur) == set e | e in donors;
  }

  /** The smallest number of shards any executor with shards has. */
  ghost predicate IsLeastLoad(cur: Distribution, least: nat) {
    && Attained(cur, least)
    && (forall e :: e in cur && cur[e] != [] ==> least <= |cur[e]|)
  }

  method ClassifyExecutors(cur: Distribution) returns (empties: seq<ExecId>, donors: seq<ExecId>, least: nat)
    ensures NoDuplicates(empties) && NoDuplicates(donors)
    ensures forall e :: e in empties <==> e in cur && cur[e] == []
    ensures forall e :: e in donors <==> e in cur && cur[e] != []
    ensures forall e :: e in donors ==> 0 < least <= |cur[e]|
    ensures donors != [] ==> IsLeastLoad(cur, least)
    ensures |donors| == |Donors(cur)| && |empties| + |donors| == |cur|
  {
    empties, donors, least := [], [], 0;
    var executors := cur.Keys;
    while executors != {}
      invariant executors <= cur.Keys
      invariant NoDuplicates(empties) && NoDuplicates(donors)
      invariant forall e :: e in empties <==> e in cur.Keys - executors && cur[e] == []
      invariant forall e :: e in donors <==> e in cur.Keys - executors && cur[e] != []
      invariant forall e :: e in donors ==> 0 < least <= |cur[e]|
      invariant if donors == [] then least == 0 else Attained(cur, least)
      invariant |empties| + |donors| + |executors| == |cur.Keys|
    {
      var e :| e in executors;
      if cur[e] == [] {
        empties := empties + [e];
      } else {
        donors := donors + [e];
        assert Attained(cur, |cur[e]|);
        if least == 0 || |cur[e]| < least {
          least := |cur[e]|;
        }
      }
      executors := executors - {e};
    }
    DonorsCounted(cur, donors);
  }

  /** After `round` steals and `share` full rounds plus `k` more, every list has the length the arithmetic says. */
  ghost predicate StealProgress(before: Distribution, cur: Distribution, empties: seq<ExecId>, donors: seq<ExecId>,
                                full: nat, k: nat, round: nat) {
    && cur.Keys == before.Keys
    && (forall i :: 0 <= i < |empties| ==> empties[i] in cur && |cur[empties[i]]| == full + (if i < k then 1 else 0))
    && (forall j :: 0 <= j < |donors| ==> donors[j] in before && donors[j] in cur)
    && (forall j :: 0 <= j < |donors| ==> |cur[donors[j]]| == |before[donors[j]]| - Stolen(round, |donors|, j))
    && (forall j :: 0 <= j < |donors| ==> Suffix(cur[donors[j]], before[donors[j]]))
  }

  /** The end of a list, which lost its first elements. */
  predicate Suffix(rest: seq<ShardId>, list: seq<ShardId>) {
    |rest| <= |list| && rest == list[|list| - |rest|..]
  }

  method StealOne(cur: Distribution, ghost available: set<ShardId>, ghost rest: seq<ShardId>, donor: ExecId,
                  empty: ExecId)
    returns (next: Distribution)
    requires Partition(cur, rest, available) && donor in cur && empty in cur && donor != empty && cur[donor] != []
    ensures Partition(next, rest, available) && next.Keys == cur.Keys
    ensures next == cur[donor := cur[donor][1..]][empty := cur[empty] + [cur[donor][0]]]
  {
    var stolen := cur[donor][0];
    assert At(cur, donor, stolen);
    assert forall t :: t in cur[donor] <==> t == stolen || t in cur[donor][1..];
    PartitionTake(cur, rest, available, donor, stolen, cur[donor][1..]);
    next := cur[donor := cur[donor][1..]];
    PartitionPlace(next, rest, available - {stolen}, empty, stolen);
    assert available - {stolen} + {stolen} == available;
    next := next[empty := next[empty] + [stolen]];
  }

  lemma StealProgressStep(before: Distribution, cur: Distribution, next: Distribution, empties: seq<ExecId>,
                          donors: seq<ExecId>,
                          full: nat, k: nat, round: nat)
    requires StealProgress(before, cur, empties, donors, full, k, round)
    requires k < |empties| && 0 < |donors| && NoDuplicates(empties) && NoDuplicates(donors)
    requires forall e :: e in empties ==> e !in donors
    requires cur[donors[round % |donors|]] != []
    requires next == (var d := donors[round % |donors|];
                      cur[d := cur[d][1..]][empties[k] := cur[empties[k]] + [cur[d][0]]])
    ensures StealProgress(before, next, empties, donors, full, k + 1, round + 1)
  {
    var d := donors[round % |donors|];
    assert d in donors && empties[k] in empties;
    forall j | 0 <= j < |donors|
      ensures donors[j] in next && |next[donors[j]]| == |before[donors[j]]| - Stolen(round + 1, |donors|, j)
      ensures Suffix(next[donors[j]], before[donors[j]])
    {
      StolenStep(round, |donors|, j);
      assert donors[j] in donors;
      assert Suffix(cur[donors[j]], before[donors[j]]);
    }
    forall i | 0 <= i < |empties|
      ensures empties[i] in next && |next[empties[i]]| == full + (if i < k + 1 then 1 else 0)
    {
      assert empties[i] in empties;
    }
  }

  lemma StealStart(before: Distribution, empties: seq<ExecId>, donors: seq<ExecId>)
    requires forall e :: e in empties ==> e in before && before[e] == []
    requires forall e :: e in donors ==> e in before
    ensures StealProgress(before, before, empties, donors, 0, 0, 0)
  {
    forall j | 0 <= j < |donors|
      ensures donors[j] in before && Stolen(0, |donors|, j) == 0
    {
      assert donors[j] in donors;
      DivUnique(|donors| - 1 - j, |donors|, 0);
    }
    forall i | 0 <= i < |empties|
      ensures empties[i] in before && before[empties[i]] == []
    {
      assert empties[i] in empties;
    }
  }

  lemma StealEnd(before: Distribution, cur: Distribution, empties: seq<ExecId>, donors: seq<ExecId>, least: nat,
                 share: nat)
    requires 0 < |donors| && share == least * |donors| / (|donors| + |empties|)
    requires StealProgress(before, cur, empties, donors, share, 0, share * |empties|)
    requires forall e :: e in donors ==> e in before && least <= |before[e]|
    ensures forall e :: e in empties ==> e in cur && |cur[e]| == share
    ensures forall e :: e in donors ==> e in cur && share <= |cur[e]| && Suffix(cur[e], before[e])
  {
    forall e | e in donors
      ensures e in cur && share <= |cur[e]| && Suffix(cur[e], before[e])
    {
      var j :| 0 <= j < |donors| && donors[j] == e;
      StealBounds(least, |donors|, |empties|, share, share * |empties|, j);
    }
  }

  /** The next steal takes from a donor that still has a shard. */
  lemma StealFinds(before: Distribution, cur: Distribution, empties: seq<ExecId>, donors: seq<ExecId>, least: nat,
                   share: nat,
                   full: nat, k: nat, round: nat)
    requires StealProgress(before, cur, empties, donors, full, k, round) && k < |empties| && 0 < |donors|
    requires forall e :: e in empties ==> e !in donors
    requires forall e :: e in donors ==> e in before && least <= |before[e]|
    requires share == least * |donors| / (|donors| + |empties|) && round < share * |empties|
    ensures empties[k] in cur && empties[k] !in donors
    ensures donors[round % |donors|] in cur && cur[donors[round % |donors|]] != []
  {
    var j := round % |donors|;
    StealBounds(least, |donors|, |empties|, share, round, j);
    StolenStep(round, |donors|, j);
    assert donors[j] in donors && empties[k] in empties;
  }

  /** One steal: the next donor in turn gives its first shard to the `k`-th empty executor. */
  method StealNext(ghost before: Distribution, cur: Distribution, empties: seq<ExecId>, donors: seq<ExecId>,
                   ghost least: nat, ghost share: nat, ghost full: nat, k: nat, round: nat,
                   ghost rest: seq<ShardId>, ghost available: set<ShardId>)
    returns (next: Distribution)
    requires NoDuplicates(empties) && NoDuplicates(donors) && 0 < |donors| &&
      (forall e :: e in empties ==> e !in donors)
    requires forall e :: e in donors ==> e in before && least <= |before[e]|
    requires share == least * |donors| / (|donors| + |empties|) && k < |empties| && round < share * |empties|
    requires Partition(cur, rest, available) && StealProgress(before, cur, empties, donors, full, k, round)
    ensures Partition(next, rest, available) && StealProgress(before, next, empties, donors, full, k + 1, round + 1)
  {
    StealFinds(before, cur, empties, donors, least, share, full, k, round);
    next := StealOne(cur, available, rest, donors[round % |donors|], empties[k]);
    StealProgressStep(before, cur, next, empties, donors, full, k, round);
  }

  /** One shard for every empty executor, continuing the round-robin over the donors. */
  method StealRound(before: Distribution, start: Distribution, empties: seq<ExecId>, donors: seq<ExecId>, least: nat,
                    share: nat, i: nat, round: nat, ghost rest: seq<ShardId>, ghost available: set<ShardId>)
    returns (cur: Distribution)
    requires NoDuplicates(empties) && NoDuplicates(donors) && 0 < |donors| &&
      (forall e :: e in empties ==> e !in donors)
    requires forall e :: e in donors ==> e in before && least <= |before[e]|
    requires share == least * |donors| / (|donors| + |empties|) && i < share && round == i * |empties|
    requires Partition(start, rest, available) && StealProgress(before, start, empties, donors, i, 0, round)
    ensures Partition(cur, rest, available) && StealProgress(before, cur, empties, donors, i + 1, 0, round + |empties|)
  {
    assert round + |empties| <= share * |empties| by {
      MulMonotone(i + 1, share, |empties|);
      assert (i + 1) * |empties| == i * |empties| + |empties|;
    }
    cur := start;
    for k := 0 to |empties|
      invariant Partition(cur, rest, available)
      invariant StealProgress(before, cur, empties, donors, i, k, round + k)
    {
      cur := StealNext(before, cur, empties, donors, least, share, i, k, round + k, rest, available);
    }
  }

  function EvenShare(least: nat, donors: nat, empties: nat): nat
    requires 0 < donors
  {
    least * donors / (donors + empties)
  }

  /** The steals: `share` rounds, one shard per empty executor in each. */
  method StealShares(before: Distribution, empties: seq<ExecId>, donors: seq<ExecId>, least: nat, share: nat,
                     ghost rest: seq<ShardId>, ghost available: set<ShardId>)
    returns (cur: Distribution)
    requires NoDuplicates(empties) && NoDuplicates(donors) && 0 < |donors| &&
      share == EvenShare(least, |donors|, |empties|)
    requires forall e :: e in empties ==> e in before && before[e] == [] && e !in donors
    requires forall e :: e in donors ==> e in before && least <= |before[e]|
    requires forall e :: e in before ==> e in empties || e in donors
    requires Partition(before, rest, available)
    ensures Partition(cur, rest, available) && cur.Keys == before.Keys
    ensures forall e :: e in empties ==> |cur[e]| == share
    ensures forall e :: e in donors ==> share <= |cur[e]| && Suffix(cur[e], before[e])
  {
    cur := before;
    StealStart(before, empties, donors);
    var stealRound: nat := 0;
    for i := 0 to share
      invariant stealRound == i * |empties|
      invariant Partition(cur, rest, available)
      invariant StealProgress(before, cur, empties, donors, i, 0, stealRound)
    {
      cur := StealRound(before, cur, empties, donors, least, share, i, stealRound, rest, available);
      stealRound := stealRound + |empties|;
    }
    StealEnd(before, cur, empties, donors, least, share);
  }

  /**
   Give every empty executor an equal share, stolen round-robin.  Nothing is lost or duplicated, no executor that had
   shards is left with fewer than the share handed out, and the index into a donor's list never fails.
   */
  method AssignShardsToEmptyExecutors(before: Distribution, ghost rest: seq<ShardId>, ghost available: set<ShardId>)
    returns (cur: Distribution, changed: bool, share: nat)
    requires Partition(before, rest, available)
    ensures Partition(cur, rest, available) && cur.Keys == before.Keys
    ensures changed <==> Donors(before) != {} && Donors(before) != before.Keys
    ensures !changed ==> cur == before
    ensures changed ==> exists least: nat :: IsLeastLoad(before, least) && share == least * |Donors(before)| / |before|
    ensures changed ==> forall e :: e in before && before[e] == [] ==> |cur[e]| == share
    ensures changed ==> forall e :: e in before && before[e] != [] ==> share <= |cur[e]| && Suffix(cur[e], before[e])
  {
    cur, share := before, 0;
    var empties, donors, least := ClassifyExecutors(before);
    if |empties| == 0 || |donors| == 0 {
      assert |donors| == 0 ==> Donors(before) == {};
      assert |empties| == 0 ==> Donors(before) == before.Keys;
      return cur, false, share;
    }
    assert donors[0] in donors && donors[0] in Donors(before);
    assert empties[0] in empties && empties[0] !in Donors(before);
    share := EvenShare(least, |donors|, |empties|);
    cur := StealShares(before, empties, donors, least, share, rest, available);
    changed := true;
  }

  /** What executor `j` of `count` gains when cards number `start` to `end` are dealt in turn. */
  function Dealt(start: nat, end: nat, count: nat, j: nat): int
    requires j < count
  {
    Stolen(end, count, j) - Stolen(start, count, j)
  }

  /** Dealing in turn is even from any starting point: no two executors' gains differ by more than one. */
  lemma DealtEvenly(start: nat, end: nat, count: nat, i: nat, j: nat)
    requires i < count && j < count
    ensures Dealt(start, end, count, i) <= Dealt(start, end, count, j) + 1
  {
    DealtCount(start, end, count, i, start / count, start % count, end / count, end % count);
    DealtCount(start, end, count, j, start / count, start % count, end / count, end % count);
  }

  lemma DealtCount(start: nat, end: nat, count: nat, j: nat, q0: nat, k0: nat, q1: nat, k1: nat)
    requires j < count && k0 < count && k1 < count && start == q0 * count + k0 && end == q1 * count + k1
    ensures Dealt(start, end, count, j) == q1 - q0 + (if j < k1 then 1 else 0) - (if j < k0 then 1 else 0)
  {
    StolenCount(start, count, j, q0, k0);
    StolenCount(end, count, j, q1, k1);
  }

  ghost predicate DealtTo(before: Distribution, cur: Distribution, active: seq<ExecId>, start: nat, end: nat) {
    && cur.Keys == before.Keys
    && (forall j :: 0 <= j < |active| ==> active[j] in before)
    && (forall j :: 0 <= j < |active| ==> |cur[active[j]]| == |before[active[j]]| + Dealt(start, end, |active|, j))
  }

  lemma DealtOneMore(before: Distribution, cur: Distribution, active: seq<ExecId>, start: nat, end: nat, s: ShardId)
    requires DealtTo(before, cur, active, start, end) && NoDuplicates(active) && active != []
    ensures var e := active[end % |active|]; DealtTo(before, cur[e := cur[e] + [s]], active, start, end + 1)
  {
    forall j | 0 <= j < |active|
      ensures Dealt(start, end + 1, |active|, j) == Dealt(start, end, |active|, j)
        + (if j == end % |active| then 1 else 0)
    {
      StolenStep(end, |active|, j);
    }
  }

  /** The first `n` shards are on successive executors, from number `start` on, around and around. */
  ghost predicate InTurn(cur: Distribution, shards: seq<ShardId>, active: seq<ExecId>, start: nat, n: nat) {
    active != [] && n <= |shards| && forall m: nat :: m < n ==> At(cur, active[(start + m) % |active|], shards[m])
  }

  lemma InTurnOneMore(before: Distribution, cur: Distribution, shards: seq<ShardId>, active: seq<ExecId>, start: nat,
                      n: nat)
    requires InTurn(before, shards, active, start, n) && n < |shards|
    requires forall e, s :: At(before, e, s) ==> At(cur, e, s)
    requires At(cur, active[(start + n) % |active|], shards[n])
    ensures InTurn(cur, shards, active, start, n + 1)
  {
  }

  /** The first `n` shards have been dealt and nothing else has moved. */
  ghost predicate Dealing(before: Distribution, cur: Distribution, shards: seq<ShardId>, active: seq<ExecId>,
                          start: nat, n: nat, available: set<ShardId>) {
    && n <= |shards| && Partition(cur, shards[n..], available)
    && (forall e, s :: At(before, e, s) ==> At(cur, e, s))
    && DealtTo(before, cur, active, start, start + n) && InTurn(cur, shards, active, start, n)
  }

  method DealNext(ghost before: Distribution, cur: Distribution, shards: seq<ShardId>, active: seq<ExecId>,
                  ghost start: nat, n: nat, i: nat, ghost available: set<ShardId>)
    returns (next: Distribution)
    requires Dealing(before, cur, shards, active, start, n, available) && n < |shards| && i == start + n
    requires NoDuplicates(active)
    ensures Dealing(before, next, shards, active, start, n + 1, available)
  {
    var s, e := shards[n], active[i % |active|];
    DealtOneMore(before, cur, active, start, i, s);
    PartitionPop(cur, shards[n..], available);
    assert shards[n..][1..] == shards[n + 1..];
    PartitionPlace(cur, shards[n + 1..], available - {s}, e, s);
    assert available - {s} + {s} == available;
    next := cur[e := cur[e] + [s]];
    InTurnOneMore(cur, next, shards, active, start, n);
  }

  /** Spread what is left in turn, from a random start; nothing else moves. */
  method UpdateAssignments(toReassign: seq<ShardId>, active: seq<ExecId>, before: Distribution, start: nat,
                           ghost available: set<ShardId>)
    returns (cur: Distribution)
    requires Partition(before, toReassign, available)
    requires active != [] && NoDuplicates(active) && forall e :: e in active ==> e in before
    ensures Partition(cur, [], available) && cur.Keys == before.Keys
    ensures forall e, s :: At(before, e, s) ==> At(cur, e, s)
    ensures DealtTo(before, cur, active, start, start + |toReassign|)
    ensures forall n: nat :: n < |toReassign| ==> At(cur, active[(start + n) % |active|], toReassign[n])
    ensures toReassign == [] ==> cur == before
  {
    cur := before;
    var i := start;
    assert forall j :: 0 <= j < |active| ==> active[j] in active;
    assert toReassign[0..] == toReassign;
    for n := 0 to |toReassign|
      invariant i == start + n && Dealing(before, cur, toReassign, active, start, n, available)
      invariant n == 0 ==> cur == before
    {
      cur := DealNext(before, cur, toReassign, active, start, n, i, available);
      i := i + 1;
    }
    assert toReassign[|toReassign|..] == [];
  }

  method IndexOf(list: seq<ShardId>, s: ShardId) returns (idx: int)
    ensures idx == -1 <==> s !in list
    ensures idx != -1 ==> 0 <= idx < |list| && list[idx] == s
  {
    for n := 0 to |list|
      invariant s !in list[..n]
    {
      if list[n] == s {
        return n;
      }
      assert list[..n + 1] == list[..n] + [list[n]];
    }
    assert list[..|list|] == list;
    return -1;
  }

  /** Where a shard that starts on `e` is after the moves: at the target of its last move, if it has one. */
  function Destination(moves: seq<Move>, s: ShardId, e: ExecId): ExecId {
    if moves == [] then e
    else
      var n := |moves| - 1;
      if moves[n].shard == s then moves[n].to else Destination(moves[..n], s, e)
  }

  ghost predicate Carried(before: Distribution, cur: Distribution, moves: seq<Move>) {
    forall e, s :: At(before, e, s) ==> At(cur, Destination(moves, s, e), s)
  }

  /** The n-th move takes its shard from where the earlier moves left it. */
  ghost predicate MoveFits(before: Distribution, moves: seq<Move>, n: nat) {
    && n < |moves|
    && exists e :: At(before, e, moves[n].shard) && Destination(moves[..n], moves[n].shard, e) == moves[n].from
  }

  ghost predicate AllFit(before: Distribution, moves: seq<Move>, n: nat) {
    forall k :: 0 <= k < n ==> MoveFits(before, moves, k)
  }

  lemma SourceExactlyWhenFits(before: Distribution, cur: Distribution, available: set<ShardId>, moves: seq<Move>,
                              n: nat)
    requires Partition(before, [], available) && Partition(cur, [], available) && n < |moves| &&
      Carried(before, cur, moves[..n])
    ensures At(cur, moves[n].from, moves[n].shard) <==> MoveFits(before, moves, n)
  {
    var m := moves[n];
    if At(cur, m.from, m.shard) {
      var e :| At(before, e, m.shard);
      assert At(cur, Destination(moves[..n], m.shard, e), m.shard);
    }
  }

  /** One move, with the source's hole filled by its last shard. */
  method ApplyMove(cur: Distribution, m: Move, ghost available: set<ShardId>) returns (r: Option<Distribution>)
    requires Partition(cur, [], available)
    ensures r.Some? <==> At(cur, m.from, m.shard)
    ensures r.Some? ==> Partition(r.value, [], available) && r.value.Keys == cur.Keys + {m.to}
    ensures r.Some? ==> forall e, s :: At(r.value, e, s) <==> if s == m.shard then e == m.to else At(cur, e, s)
  {
    var list := ListAt(cur, m.from);
    var idx := IndexOf(list, m.shard);
    if idx == -1 {
      return None;
    }
    var shorter := list[idx := list[|list| - 1]][..|list| - 1];
    SwapRemove(list, idx);
    assert At(cur, m.from, m.shard);
    PartitionTake(cur, [], available, m.from, m.shard, shorter);
    var taken := cur[m.from := shorter];
    assert forall e, s :: At(taken, e, s) <==> At(cur, e, s) && s != m.shard by {
      assert forall e :: At(cur, e, m.shard) ==> e == m.from;
    }
    PartitionPlace(taken, [], available - {m.shard}, m.to, m.shard);
    assert available - {m.shard} + {m.shard} == available;
    var next := taken[m.to := ListAt(taken, m.to) + [m.shard]];
    assert forall e, s :: At(next, e, s) <==> At(taken, e, s) || (e == m.to && s == m.shard);
    return Some(next);
  }

  lemma CarriedOneMore(before: Distribution, cur: Distribution, next: Distribution, moves: seq<Move>, m: Move)
    requires Carried(before, cur, moves)
    requires forall e, s :: At(next, e, s) <==> if s == m.shard then e == m.to else At(cur, e, s)
    ensures Carried(before, next, moves + [m])
  {
    assert (moves + [m])[..|moves|] == moves;
    forall e, s | At(before, e, s)
      ensures At(next, Destination(moves + [m], s, e), s)
    {
      assert At(cur, Destination(moves, s, e), s);
    }
  }

  function Targets(moves: seq<Move>): set<ExecId> {
    set m | m in moves :: m.to
  }

  /** The distribution after these moves. */
  ghost predicate Moved(before: Distribution, cur: Distribution, moves: seq<Move>, available: set<ShardId>) {
    Partition(cur, [], available) && cur.Keys == before.Keys + Targets(moves) && Carried(before, cur, moves)
  }

  lemma MovedOneMore(before: Distribution, cur: Distribution, next: Distribution, moves: seq<Move>, m: Move,
                     available: set<ShardId>)
    requires Moved(before, cur, moves, available)
    requires Partition(next, [], available) && next.Keys == cur.Keys + {m.to}
    requires forall e, s :: At(next, e, s) <==> if s == m.shard then e == m.to else At(cur, e, s)
    ensures Moved(before, next, moves + [m], available)
  {
    CarriedOneMore(before, cur, next, moves, m);
    assert Targets(moves + [m]) == Targets(moves) + {m.to};
  }

  method ApplyMoveAt(ghost before: Distribution, cur: Distribution, moves: seq<Move>, n: nat,
                     ghost available: set<ShardId>)
    returns (next: Option<Distribution>)
    requires n < |moves| && Partition(before, [], available) && Moved(before, cur, moves[..n], available)
    ensures next.Some? <==> MoveFits(before, moves, n)
    ensures next.Some? ==> Moved(before, next.value, moves[..n + 1], available)
  {
    SourceExactlyWhenFits(before, cur, available, moves, n);
    next := ApplyMove(cur, moves[n], available);
    if next.Some? {
      MovedOneMore(before, cur, next.value, moves[..n], moves[n], available);
      assert moves[..n] + [moves[n]] == moves[..n + 1];
    }
  }

  /** Every shard ends where its last move sends it, on a new entry if need be, and it is an error exactly when some
      move does not find its shard at its source. */
  method ApplyMoves(before: Distribution, moves: seq<Move>, ghost available: set<ShardId>)
    returns (r: Option<Distribution>)
    requires Partition(before, [], available)
    ensures r.Some? <==> AllFit(before, moves, |moves|)
    ensures r.Some? ==> Moved(before, r.value, moves, available)
    ensures moves == [] ==> r == Some(before)
  {
    var cur := before;
    assert moves[..0] == [];
    for n := 0 to |moves|
      invariant Moved(before, cur, moves[..n], available) && (n == 0 ==> cur == before)
      invariant AllFit(before, moves, n)
    {
      var next := ApplyMoveAt(before, cur, moves, n, available);
      if next.None? {
        return None;
      }
      cur := next.value;
    }
    assert moves[..|moves|] == moves;
    return Some(cur);
  }

  /** Overwriting an element with the last one and dropping the last position removes just that element. */
  lemma SwapRemove(list: seq<ShardId>, idx: nat)
    requires NoDuplicates(list) && idx < |list|
    ensures NoDuplicates(list[idx := list[|list| - 1]][..|list| - 1])
    ensures forall t :: t in list[idx := list[|list| - 1]][..|list| - 1] <==> t in list && t != list[idx]
  {
    var last := |list| - 1;
    var shorter := list[idx := list[last]][..last];
    forall t | t in list && t != list[idx]
      ensures t in shorter
    {
      var k :| 0 <= k < |list| && list[k] == t;
      assert shorter[if k == last then idx else k] == t;
    }
  }
}
