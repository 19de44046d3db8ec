/** The namespace cache: its indexes, its revision gate, and lookups that interleave with concurrent refreshes. */
module Cache {
  import opened Common
  import opened Store
  import opened Planner
  import opened Api

  /** One consistent read of the store.  Every executor with any key has a metadata entry. */
  datatype Snapshot = Snapshot(
    executorMetadata: map<ExecId, map<string, string>>,
    shardAssignments: Records,
    drainedShards: set<ShardId>,
    revision: nat)

  datatype View = View(
    shardToExecutor: map<ShardId, ShardOwner>,
    shardOwners: map<ExecId, ShardOwner>,
    executorToShards: map<ShardOwner, seq<ShardId>>,
    executorRevision: map<ExecId, nat>,
    drainedShards: set<ShardId>)

  const EMPTY_VIEW := View(map[], map[], map[], map[], {})

  function OwnerOf(st: Snapshot, e: ExecId): ShardOwner
    requires e in st.executorMetadata
  {
    ShardOwner(e, st.executorMetadata[e])
  }

  predicate VisiblyHolds(st: Snapshot, seen: set<ExecId>, e: ExecId, s: ShardId) {
    e in seen && Holds(st.shardAssignments, e, s)
  }

  ghost predicate OwnersOver(owners: map<ExecId, ShardOwner>, st: Snapshot, seen: set<ExecId>)
    requires seen <= st.executorMetadata.Keys
  {
    owners.Keys == seen && forall e :: e in owners ==> owners[e] == OwnerOf(st, e)
  }

  /** A shard with two owners may show either. */
  ghost predicate ShardIndexOver(index: map<ShardId, ShardOwner>, st: Snapshot, seen: set<ExecId>)
    requires seen <= st.executorMetadata.Keys
  {
    && (forall e, s :: VisiblyHolds(st, seen, e, s) ==> s in index)
    && (forall s :: s in index ==>
      VisiblyHolds(st, seen, index[s].executorID, s) && index[s] == OwnerOf(st, index[s].executorID))
  }

  ghost predicate ExecutorIndexOver(lists: map<ShardOwner, seq<ShardId>>, st: Snapshot, seen: set<ExecId>)
    requires seen <= st.executorMetadata.Keys
  {
    && (forall e :: e in seen && e in st.shardAssignments ==> OwnerOf(st, e) in lists)
    && (forall o :: o in lists ==>
      o.executorID in seen && o.executorID in st.shardAssignments && o == OwnerOf(st, o.executorID))
    && (forall o, s :: o in lists ==> (s in lists[o] <==> Holds(st.shardAssignments, o.executorID, s)))
    && (forall o :: o in lists ==> NoDuplicates(lists[o]))
  }

  ghost predicate RevisionsOver(revisions: map<ExecId, nat>, st: Snapshot, seen: set<ExecId>) {
    && (forall e :: e in revisions <==> e in seen && e in st.shardAssignments)
    && (forall e :: e in revisions ==> revisions[e] == st.shardAssignments[e].modRevision)
  }

  /** The structures describe the executors of `st` in `seen`. */
  ghost predicate ViewOver(v: View, st: Snapshot, seen: set<ExecId>)
    requires seen <= st.executorMetadata.Keys
  {
    && OwnersOver(v.shardOwners, st, seen) && ShardIndexOver(v.shardToExecutor, st, seen)
    && ExecutorIndexOver(v.executorToShards, st, seen) && RevisionsOver(v.executorRevision, st, seen)
    && v.drainedShards == st.drainedShards
  }

  /** All five cached structures describe `st`. */
  ghost predicate IsView(v: View, st: Snapshot) {
    ViewOver(v, st, st.executorMetadata.Keys)
  }

  /** The structures in the snapshot's own terms: an owner is an executor with its metadata, a shard is shown on a
      holder, a list has what its executor holds, and a revision is that of the executor's record. */
  lemma ViewExactly(v: View, st: Snapshot)
    requires IsView(v, st)
    ensures forall e :: e in v.shardOwners <==> e in st.executorMetadata
    ensures forall e :: e in v.shardOwners ==> v.shardOwners[e] == ShardOwner(e, st.executorMetadata[e])
    ensures forall s :: s in v.shardToExecutor <==>
      exists e :: e in st.executorMetadata && Holds(st.shardAssignments, e, s)
    ensures forall s :: s in v.shardToExecutor ==> Owns(st, v.shardToExecutor[s], s)
    ensures Lists(st, v.executorToShards)
    ensures forall e :: e in v.executorRevision <==> e in st.executorMetadata && e in st.shardAssignments
    ensures forall e :: e in v.executorRevision ==> v.executorRevision[e] == st.shardAssignments[e].modRevision
    ensures v.drainedShards == st.drainedShards
  {
    forall s
      ensures s in v.shardToExecutor <==> exists e :: e in st.executorMetadata && Holds(st.shardAssignments, e, s)
    {
      if e :| e in st.executorMetadata && Holds(st.shardAssignments, e, s) {
        assert VisiblyHolds(st, st.executorMetadata.Keys, e, s);
      }
    }
  }

  /** `o` is an executor of the snapshot that holds the shard, with the metadata it has there. */
  predicate Owns(st: Snapshot, o: ShardOwner, s: ShardId) {
    && o.executorID in st.executorMetadata && o.metadata == st.executorMetadata[o.executorID]
    && o.executorID in st.shardAssignments && s in st.shardAssignments[o.executorID].shards
  }

  /** One list per executor with a record, of exactly the shards in it, each once. */
  ghost predicate Lists(st: Snapshot, lists: map<ShardOwner, seq<ShardId>>) {
    && (forall o :: o in lists <==>
          && o.executorID in st.executorMetadata && o.executorID in st.shardAssignments
          && o.metadata == st.executorMetadata[o.executorID])
    && (forall o, s :: o in lists ==> (s in lists[o] <==> s in st.shardAssignments[o.executorID].shards))
    && (forall o :: o in lists ==> NoDuplicates(lists[o]))
  }

  /** With unique ownership the indexes agree with each other and with flattening the assignments. */
  lemma IndexesAgree(v: View, st: Snapshot)
    requires IsView(v, st) && Unique(st.shardAssignments) && st.shardAssignments.Keys <= st.executorMetadata.Keys
    ensures forall s, o :: s in v.shardToExecutor && v.shardToExecutor[s] == o <==>
      o in v.executorToShards && s in v.executorToShards[o]
    ensures forall e :: e in v.shardOwners ==> v.shardOwners[e].executorID == e
    ensures forall e1, e2 :: e1 in v.shardOwners && e2 in v.shardOwners && v.shardOwners[e1] == v.shardOwners[e2] ==>
      e1 == e2
    ensures forall e, s :: Holds(st.shardAssignments, e, s) <==>
      s in v.shardToExecutor && v.shardToExecutor[s].executorID == e
  {
    forall e, s | Holds(st.shardAssignments, e, s)
      ensures s in v.shardToExecutor && v.shardToExecutor[s].executorID == e
    {
      assert VisiblyHolds(st, st.executorMetadata.Keys, e, s);
    }
  }

  /** The snapshot a cache that applied these, in this order, is showing: the first of the highest positive revision. */
  function Newest(applied: seq<Snapshot>): Option<Snapshot> {
    if applied == [] then None
    else
      var before := Newest(applied[..|applied| - 1]);
      var st := applied[|applied| - 1];
      if st.revision > RevisionOf(before) then Some(st) else before
  }

  function RevisionOf(st: Option<Snapshot>): nat {
    if st.Some? then st.value.revision else 0
  }

  /** Snapshot `i` has a higher revision than every one offered before it. */
  predicate FirstOfItsRevision(applied: seq<Snapshot>, i: nat) {
    i < |applied| && forall j :: 0 <= j < i ==> applied[j].revision < applied[i].revision
  }

  lemma {:induction false} NewestBounds(applied: seq<Snapshot>)
    ensures forall i :: 0 <= i < |applied| ==> applied[i].revision <= RevisionOf(Newest(applied))
    ensures Newest(applied).Some? ==> Newest(applied).value.revision > 0
  {
    if applied != [] {
      NewestBounds(applied[..|applied| - 1]);
    }
  }

  lemma {:induction false} NewestIsFirst(applied: seq<Snapshot>) returns (i: nat)
    requires Newest(applied).Some?
    ensures FirstOfItsRevision(applied, i) && applied[i] == Newest(applied).value
  {
    var n := |applied| - 1;
    NewestBounds(applied[..n]);
    if applied[n].revision > RevisionOf(Newest(applied[..n])) {
      i := n;
      assert forall j :: 0 <= j < n ==> applied[..n][j] == applied[j];
    } else {
      i := NewestIsFirst(applied[..n]);
    }
  }

  /** `Newest` is what its name says, whatever the order of application: the first of the highest revision. */
  lemma NewestIsHighest(applied: seq<Snapshot>)
    ensures forall i :: 0 <= i < |applied| ==> applied[i].revision <= RevisionOf(Newest(applied))
    ensures Newest(applied).Some? ==> Newest(applied).value.revision > 0
    ensures Newest(applied).Some? ==>
      exists i: nat :: FirstOfItsRevision(applied, i) && applied[i] == Newest(applied).value
  {
    NewestBounds(applied);
    if Newest(applied).Some? {
      var _ := NewestIsFirst(applied);
    }
  }

  lemma {:induction false} NewestOnlyAdvances(applied: seq<Snapshot>, n: nat)
    requires n <= |applied|
    ensures RevisionOf(Newest(applied[..n])) <= RevisionOf(Newest(applied))
    decreases |applied| - n
  {
    if n < |applied| {
      assert applied[..n + 1][..n] == applied[..n];
      NewestOnlyAdvances(applied, n + 1);
    } else {
      assert applied[..n] == applied;
    }
  }

  /** The contents and revision of a cache showing `st`. */
  ghost predicate Shows(v: View, revision: nat, st: Option<Snapshot>) {
    match st
    case None => revision == 0 && v == EMPTY_VIEW
    case Some(st) => revision == st.revision && IsView(v, st)
  }

  lemma NewestAppend(applied: seq<Snapshot>, st: Snapshot)
    ensures Newest(applied + [st]) == if st.revision > RevisionOf(Newest(applied)) then Some(st) else Newest(applied)
  {
    assert (applied + [st])[..|applied|] == applied;
  }

  /** How a refresh shared between callers ends for this caller: it fails; it applies its snapshot while the caller
      waits; or the caller joins it after it has applied its snapshot, number `index` of those offered, and before it
      returns. */
  datatype Flight = FlightFailed | FlightCompleted(st: Snapshot) | FlightJoinedLate(index: nat)

  /**
   The environment of one lookup.  `others[k]` are the snapshots that refreshers elsewhere apply while the lookup is
   between its critical sections; `flights[k]` is the outcome of its k-th refresh, possibly joined.
   */
  datatype Env = Env(others: seq<seq<Snapshot>>, flights: seq<Flight>)

  ghost predicate Positive(sts: seq<Snapshot>) {
    forall i :: 0 <= i < |sts| ==> sts[i].revision > 0
  }

  /** Store revisions are positive. */
  ghost predicate GoodEnv(env: Env) {
    && (forall k :: 0 <= k < |env.others| ==> Positive(env.others[k]))
    && (forall k :: 0 <= k < |env.flights| && env.flights[k].FlightCompleted? ==> env.flights[k].st.revision > 0)
  }

  /** What others apply at the k-th yield, and how many snapshots the k-th flight applies while the caller waits. */
  function Others(env: Env, k: nat): seq<Snapshot> {
    if k < |env.others| then env.others[k] else []
  }

  function Own(env: Env, k: nat): nat {
    if k < |env.flights| && env.flights[k].FlightCompleted? then 1 else 0
  }

  /** A flight joined late has applied its snapshot by the time it is joined, when `n` have been offered. */
  ghost predicate Joinable(env: Env, k: nat, n: nat) {
    k < |env.flights| && env.flights[k].FlightJoinedLate? ==> env.flights[k].index < n
  }

  /** How many snapshots have been offered after the drained check of a lookup that started with `n`. */
  function AfterCheck(env: Env, n: nat, loaded: bool): nat {
    n + |Others(env, 0)| + (if loaded then 0 else Own(env, CHECK_FLIGHT) + |Others(env, 1)| + |Others(env, 2)|)
  }

  /** The refreshes of a lookup: one for the drained check if the cache was never loaded, one after a miss. */
  const CHECK_FLIGHT: nat := 0
  const MISS_FLIGHT: nat := 1

  /** The flight returned successfully between `from` and `to`, and the cache had been offered its snapshot by then. */
  ghost predicate Landed(f: Flight, applied: seq<Snapshot>, from: nat, to: nat) {
    match f
    case FlightFailed => false
    case FlightCompleted(st) => exists i :: from <= i < to <= |applied| && applied[i] == st
    case FlightJoinedLate(index) => index < to <= |applied|
  }

  /** The refresh this lookup made after its miss completed within the lookup. */
  ghost predicate RefreshedWithin(env: Env, applied: seq<Snapshot>, from: nat, to: nat) {
    MISS_FLIGHT < |env.flights| && Landed(env.flights[MISS_FLIGHT], applied, from, to)
  }

  /** Once anything was offered, the cache is loaded. */
  lemma OfferedMeansLoaded(applied: seq<Snapshot>)
    requires Positive(applied) && applied != []
    ensures Newest(applied).Some? && RevisionOf(Newest(applied)) > 0
  {
    NewestBounds(applied);
    assert applied[0].revision > 0;
  }

  lemma LandedNow(before: seq<Snapshot>, st: Snapshot)
    ensures Landed(FlightCompleted(st), before + [st], |before|, |before| + 1)
  {
    assert (before + [st])[|before|] == st;
  }

  lemma LandedStays(f: Flight, refreshed: seq<Snapshot>, applied: seq<Snapshot>, from: nat)
    requires Landed(f, refreshed, from, |refreshed|) && refreshed <= applied
    ensures Landed(f, applied, from, |applied|)
  {
    if f.FlightCompleted? {
      var i :| from <= i < |refreshed| && refreshed[i] == f.st;
      assert applied[i] == f.st;
    }
  }

  lemma LandedSince(f: Flight, applied: seq<Snapshot>, earlier: nat, from: nat)
    requires Landed(f, applied, from, |applied|) && earlier <= from
    ensures Landed(f, applied, earlier, |applied|)
  {
  }

  datatype Index = ByShard | ByExecutor

  datatype Lookup = Found(owner: ShardOwner) | DrainedShard | NotFound | RefreshFailed

  class ShardCache {
    var shardToExecutor: map<ShardId, ShardOwner>
    var shardOwners: map<ExecId, ShardOwner>
    var executorToShards: map<ShardOwner, seq<ShardId>>
    var executorRevision: map<ExecId, nat>
    var drainedShards: set<ShardId>
    var lastRevision: nat
    /** Every snapshot any refresher ever offered to this cache, in order. */
    ghost var applied: seq<Snapshot>

    ghost function Content(): View
      reads this
    {
      View(shardToExecutor, shardOwners, executorToShards, executorRevision, drainedShards)
    }

    ghost predicate Valid()
      reads this
    {
      Shows(Content(), lastRevision, Newest(applied))
    }

    constructor ()
      ensures Valid() && applied == []
    {
      shardToExecutor, shardOwners, executorToShards, executorRevision := map[], map[], map[], map[];
      drainedShards, lastRevision, applied := {}, 0, [];
    }

    method ReplaceNamespaceState(st: Snapshot, v: View) returns (updated: bool)
      requires Valid() && IsView(v, st)
      modifies this
      ensures Valid() && applied == old(applied) + [st]
      ensures updated <==> st.revision > old(lastRevision)
      ensures updated <==> lastRevision > old(lastRevision)
    {
      NewestAppend(applied, st);
      applied := applied + [st];
      if st.revision <= lastRevision {
        return false;
      }
      lastRevision := st.revision;
      shardToExecutor, shardOwners := v.shardToExecutor, v.shardOwners;
      executorToShards, executorRevision := v.executorToShards, v.executorRevision;
      drainedShards := v.drainedShards;
      return true;
    }

    /** Whatever refreshers race, the cache shows the highest revision offered so far, and reports each advance. */
    method ApplyNamespaceState(st: Snapshot) returns (updated: bool)
      requires Valid()
      modifies this
      ensures Valid() && applied == old(applied) + [st]
      ensures updated <==> st.revision > old(lastRevision)
      ensures updated <==> lastRevision > old(lastRevision)
    {
      var v := BuildView(st);
      updated := ReplaceNamespaceState(st, v);
    }

    /** Other refreshers get the lock. */
    method Interfere(sts: seq<Snapshot>)
      requires Valid()
      modifies this
      ensures Valid() && applied == old(applied) + sts
    {
      for i := 0 to |sts|
        invariant Valid() && applied == old(applied) + sts[..i]
      {
        assert sts[..i + 1] == sts[..i] + [sts[i]];
        var _ := ApplyNamespaceState(sts[i]);
      }
      assert sts[..|sts|] == sts;
    }

    /** The k-th time this lookup leaves the lock. */
    method Yield(env: Env, k: nat)
      requires Valid() && GoodEnv(env) && Positive(applied)
      modifies this
      ensures Valid() && Positive(applied) && applied == old(applied) + Others(env, k)
    {
      if k < |env.others| {
        Interfere(env.others[k]);
      }
    }

    /** A refresh this call started or joined; on success its snapshot has reached the cache before it returns. */
    method RefreshSingleFlight(env: Env, k: nat) returns (ok: bool)
      requires Valid() && GoodEnv(env) && Positive(applied) && Joinable(env, k, |applied|)
      modifies this
      ensures Valid() && Positive(applied) && old(applied) <= applied && |applied| == |old(applied)| + Own(env, k)
      ensures ok <==> k < |env.flights| && !env.flights[k].FlightFailed?
      ensures ok ==> lastRevision > 0 && Landed(env.flights[k], applied, |old(applied)|, |applied|)
    {
      if k >= |env.flights| || env.flights[k].FlightFailed? {
        return false;
      }
      if env.flights[k].FlightCompleted? {
        var st := env.flights[k].st;
        var _ := ApplyNamespaceState(st);
        LandedNow(old(applied), st);
      }
      OfferedMeansLoaded(applied);
      return true;
    }

    method IsShardDrained(env: Env, shardID: ShardId) returns (r: Option<bool>, ghost at: nat)
      requires Valid() && GoodEnv(env) && Positive(applied)
      requires lastRevision == 0 ==> Joinable(env, CHECK_FLIGHT, |applied| + |Others(env, 0)|)
      modifies this
      ensures Valid() && Positive(applied) && old(applied) <= applied
      ensures r.Some? ==> |applied| == AfterCheck(env, |old(applied)|, old(lastRevision) > 0)
      ensures |old(applied)| <= at <= |applied|
      ensures r.Some? ==>
        Newest(applied[..at]).Some? && (r.value <==> shardID in Newest(applied[..at]).value.drainedShards)
      ensures r.None? ==> |env.flights| <= CHECK_FLIGHT || env.flights[CHECK_FLIGHT].FlightFailed?
    {
      at := |applied|;
      ghost var seen := applied;
      assert applied[..at] == applied;
      if lastRevision > 0 {
        r := Some(shardID in drainedShards);
        Yield(env, 0);
        assert applied[..at] == seen;
        return;
      }
      Yield(env, 0);
      var ok := RefreshSingleFlight(env, CHECK_FLIGHT);
      if !ok {
        return None, at;
      }
      Yield(env, 1);
      at := |applied|;
      assert applied[..at] == applied;
      OfferedMeansLoaded(applied);
      r := Some(shardID in drainedShards);
      seen := applied;
      Yield(env, 2);
      assert applied[..at] == seen;
    }

    function Find(index: Index, key: string): Option<ShardOwner>
      reads this
    {
      match index
      case ByShard => if key in shardToExecutor then Some(shardToExecutor[key]) else None
      case ByExecutor => if key in shardOwners then Some(shardOwners[key]) else None
    }

    lemma FindAnswers(index: Index, key: string)
      requires Valid()
      ensures Find(index, key).Some? ==> Newest(applied).Some?
      ensures Newest(applied).Some? ==>
        var r := if Find(index, key).Some? then Found(Find(index, key).value) else NotFound;
        Answered(Newest(applied).value, index, key, r)
    {
    }

    /** The first look. */
    method FindFirst(env: Env, index: Index, key: string) returns (owner: Option<ShardOwner>)
      requires Valid() && GoodEnv(env) && Positive(applied)
      modifies this
      ensures Valid() && Positive(applied) && applied == old(applied) + Others(env, 3)
      ensures owner.Some? ==>
        Newest(old(applied)).Some? && Answered(Newest(old(applied)).value, index, key, Found(owner.value))
    {
      owner := Find(index, key);
      FindAnswers(index, key);
      Yield(env, 3);
    }

    /** The second look, after a refresh. */
    method FindAgain(env: Env, index: Index, key: string) returns (r: Lookup)
      requires Valid() && GoodEnv(env) && Positive(applied) && lastRevision > 0
      modifies this
      ensures Valid() && Positive(applied) && old(applied) <= applied
      ensures r.Found? || r.NotFound?
      ensures Newest(applied).Some? && Answered(Newest(applied).value, index, key, r)
      ensures old(lastRevision) <= lastRevision == RevisionOf(Newest(applied))
    {
      ghost var refreshed := applied;
      Yield(env, 4);
      assert applied[..|refreshed|] == refreshed;
      NewestOnlyAdvances(applied, |refreshed|);
      var owner := Find(index, key);
      FindAnswers(index, key);
      r := if owner.Some? then Found(owner.value) else NotFound;
    }

    /** After a miss: refresh, and look again once the refresh has completed. */
    method RefreshAndFind(env: Env, index: Index, key: string) returns (r: Lookup)
      requires Valid() && GoodEnv(env) && Positive(applied) && Joinable(env, MISS_FLIGHT, |applied|)
      modifies this
      ensures Valid() && Positive(applied) && old(applied) <= applied
      ensures !r.DrainedShard?
      ensures !r.RefreshFailed? ==> Newest(applied).Some? && Answered(Newest(applied).value, index, key, r)
      ensures !r.RefreshFailed? ==> RefreshedWithin(env, applied, |old(applied)|, |applied|)
    {
      var ok := RefreshSingleFlight(env, MISS_FLIGHT);
      if !ok {
        return RefreshFailed;
      }
      ghost var refreshed := applied;
      r := FindAgain(env, index, key);
      LandedStays(env.flights[MISS_FLIGHT], refreshed, applied, |old(applied)|);
    }

    /** A hit answers from the state at hand; a miss answers only after a refresh completed within this call. */
    method GetShardOwnerInMap(env: Env, index: Index, key: string) returns (r: Lookup, ghost at: nat)
      requires Valid() && GoodEnv(env) && Positive(applied)
      requires Joinable(env, MISS_FLIGHT, |applied| + |Others(env, 3)|)
      modifies this
      ensures Valid() && Positive(applied) && old(applied) <= applied
      ensures |old(applied)| <= at <= |applied|
      ensures !r.DrainedShard?
      ensures r.Found? || r.NotFound? ==>
        Newest(applied[..at]).Some? && Answered(Newest(applied[..at]).value, index, key, r)
      ensures r.NotFound? ==> RefreshedWithin(env, applied, |old(applied)|, at)
    {
      at := |applied|;
      var owner := FindFirst(env, index, key);
      assert applied[..at] == old(applied);
      if owner.Some? {
        return Found(owner.value), at;
      }
      ghost var before := |applied|;
      r := RefreshAndFind(env, index, key);
      if r.RefreshFailed? {
        return r, at;
      }
      at := |applied|;
      assert applied[..at] == applied;
      LandedSince(env.flights[MISS_FLIGHT], applied, |old(applied)|, before);
    }

    /**
     A lookup.  An owner comes from one applied snapshot, the drained check from one no newer; drained and not-found are
     never answered from a cache that was never loaded, and not-found only after a refresh completed within the call.
     */
    method GetShardOwner(env: Env, shardID: ShardId) returns (r: Lookup, ghost drainedAt: nat, ghost ownerAt: nat)
      requires Valid() && GoodEnv(env) && Positive(applied)
      requires lastRevision == 0 ==> Joinable(env, CHECK_FLIGHT, |applied| + |Others(env, 0)|)
      requires Joinable(env, MISS_FLIGHT, AfterCheck(env, |applied|, lastRevision > 0) + |Others(env, 3)|)
      modifies this
      ensures Valid() && old(applied) <= applied
      ensures |old(applied)| <= drainedAt <= ownerAt <= |applied|
      ensures RevisionOf(Newest(applied[..drainedAt])) <= RevisionOf(Newest(applied[..ownerAt]))
      ensures !r.RefreshFailed? ==> Newest(applied[..drainedAt]).Some? &&
                                    (r.DrainedShard? <==> shardID in Newest(applied[..drainedAt]).value.drainedShards)
      ensures r.Found? || r.NotFound? ==>
        Newest(applied[..ownerAt]).Some? && Answered(Newest(applied[..ownerAt]).value, ByShard, shardID, r)
      ensures r.Found? ==> Owns(Newest(applied[..ownerAt]).value, r.owner, shardID)
      ensures r.NotFound? ==>
        var st := Newest(applied[..ownerAt]).value;
        forall e :: e in st.executorMetadata && e in st.shardAssignments ==> shardID !in st.shardAssignments[e].shards
      ensures r.NotFound? ==> RefreshedWithin(env, applied, |old(applied)|, ownerAt)
    {
      var drained;
      drained, drainedAt := IsShardDrained(env, shardID);
      ghost var checked := applied;
      ownerAt := drainedAt;
      if drained.None? {
        return RefreshFailed, drainedAt, ownerAt;
      }
      if drained.value {
        return DrainedShard, drainedAt, ownerAt;
      }
      r, ownerAt := GetShardOwnerInMap(env, ByShard, shardID);
      if r.NotFound? {
        UnheldByAll(Newest(applied[..ownerAt]).value, shardID);
      }
      assert checked[..drainedAt] == applied[..drainedAt];
      assert applied[..ownerAt][..drainedAt] == applied[..drainedAt];
      NewestOnlyAdvances(applied[..ownerAt], drainedAt);
    }

    /** What a watch stream is sent: the shards of each owner and the drained shards, of one snapshot. */
    method GetShardAssignments() returns (executors: map<ShardOwner, seq<ShardId>>, drained: set<ShardId>)
      requires Valid()
      ensures Newest(applied).None? ==> executors == map[] && drained == {}
      ensures Newest(applied).Some? ==> IsAssignments(Newest(applied).value, executors, drained)
      ensures Newest(applied).Some? ==>
        Lists(Newest(applied).value, executors) && drained == Newest(applied).value.drainedShards
    {
      if Newest(applied).Some? {
        ViewExactly(Content(), Newest(applied).value);
      }
      return executorToShards, drainedShards;
    }

    /** The owner found for an executor is that executor; an executor is unknown only after a refresh within the
        call. */
    method GetExecutor(env: Env, executorID: ExecId) returns (r: Lookup, ghost at: nat)
      requires Valid() && GoodEnv(env) && Positive(applied)
      requires Joinable(env, MISS_FLIGHT, |applied| + |Others(env, 3)|)
      modifies this
      ensures Valid() && old(applied) <= applied
      ensures r.Found? ==> r.owner.executorID == executorID
      ensures |old(applied)| <= at <= |applied|
      ensures r.Found? || r.NotFound? ==>
        Newest(applied[..at]).Some? && Answered(Newest(applied[..at]).value, ByExecutor, executorID, r)
      ensures r.Found? || r.NotFound? ==> (r.Found? <==> executorID in Newest(applied[..at]).value.executorMetadata)
      ensures r.Found? ==> r.owner.metadata == Newest(applied[..at]).value.executorMetadata[executorID]
      ensures r.NotFound? ==> RefreshedWithin(env, applied, |old(applied)|, at)
    {
      r, at := GetShardOwnerInMap(env, ByExecutor, executorID);
    }
  }

  /** The assignments and drained shards of `st`. */
  ghost predicate IsAssignments(st: Snapshot, executors: map<ShardOwner, seq<ShardId>>, drained: set<ShardId>) {
    ExecutorIndexOver(executors, st, st.executorMetadata.Keys) && drained == st.drainedShards
  }

  /** What the lookup result says about the snapshot it was read from. */
  ghost predicate Answered(st: Snapshot, index: Index, key: string, r: Lookup) {
    match (index, r)
    case (ByShard, Found(o)) => VisiblyHolds(st, st.executorMetadata.Keys, o.executorID, key) &&
      o == OwnerOf(st, o.executorID)
    case (ByShard, NotFound) => forall e :: !VisiblyHolds(st, st.executorMetadata.Keys, e, key)
    case (ByExecutor, Found(o)) => key in st.executorMetadata && o == OwnerOf(st, key)
    case (ByExecutor, NotFound) => key !in st.executorMetadata
    case _ => true
  }

  lemma UnheldByAll(st: Snapshot, s: ShardId)
    requires Answered(st, ByShard, s, NotFound)
    ensures forall e :: e in st.executorMetadata && e in st.shardAssignments ==> s !in st.shardAssignments[e].shards
  {
    forall e | e in st.executorMetadata && e in st.shardAssignments
      ensures s !in st.shardAssignments[e].shards
    {
      assert !VisiblyHolds(st, st.executorMetadata.Keys, e, s);
    }
  }

  method ShardList(shards: set<ShardId>) returns (list: seq<ShardId>)
    ensures NoDuplicates(list) && forall s :: s in list <==> s in shards
  {
    list := [];
    var remaining := shards;
    while remaining != {}
      invariant remaining <= shards && NoDuplicates(list)
      invariant forall s :: s in list <==> s in shards - remaining
    {
      var s :| s in remaining;
      assert s !in list;
      list := list + [s];
      remaining := remaining - {s};
    }
  }

  method BuildView(st: Snapshot) returns (v: View)
    ensures IsView(v, st)
  {
    v := EMPTY_VIEW.(drainedShards := st.drainedShards);
    var remaining := st.executorMetadata.Keys;
    while remaining != {}
      invariant remaining <= st.executorMetadata.Keys
      invariant ViewOver(v, st, st.executorMetadata.Keys - remaining)
    {
      var e :| e in remaining;
      ghost var seen := st.executorMetadata.Keys - remaining;
      assert st.executorMetadata.Keys - (remaining - {e}) == seen + {e};
      v := AddExecutor(v, st, seen, e);
      remaining := remaining - {e};
    }
  }

  method AddExecutor(v: View, st: Snapshot, ghost seen: set<ExecId>, e: ExecId) returns (next: View)
    requires seen <= st.executorMetadata.Keys && ViewOver(v, st, seen) && e in st.executorMetadata && e !in seen
    ensures ViewOver(next, st, seen + {e})
  {
    var owner := OwnerOf(st, e);
    next := v.(shardOwners := v.shardOwners[e := owner]);
    OwnersGrow(v.shardOwners, st, seen, e);
    if e in st.shardAssignments {
      var list := ShardList(st.shardAssignments[e].shards.Keys);
      next := next.(
        shardToExecutor := v.shardToExecutor + (map s | s in st.shardAssignments[e].shards :: owner),
        executorToShards := v.executorToShards[owner := list],
        executorRevision := v.executorRevision[e := st.shardAssignments[e].modRevision]);
      ShardIndexGrows(v.shardToExecutor, st, seen, e);
      ExecutorIndexGrows(v.executorToShards, st, seen, e, list);
      RevisionsGrow(v.executorRevision, st, seen, e);
    } else {
      NothingAssigned(v, st, seen, e);
    }
  }

  lemma OwnersGrow(owners: map<ExecId, ShardOwner>, st: Snapshot, seen: set<ExecId>, e: ExecId)
    requires seen <= st.executorMetadata.Keys && OwnersOver(owners, st, seen) && e in st.executorMetadata
    ensures OwnersOver(owners[e := OwnerOf(st, e)], st, seen + {e})
  {
  }

  lemma RevisionsGrow(revisions: map<ExecId, nat>, st: Snapshot, seen: set<ExecId>, e: ExecId)
    requires RevisionsOver(revisions, st, seen) && e in st.shardAssignments
    ensures RevisionsOver(revisions[e := st.shardAssignments[e].modRevision], st, seen + {e})
  {
  }

  /** An executor without assignments adds nothing to the other indexes. */
  lemma NothingAssigned(v: View, st: Snapshot, seen: set<ExecId>, e: ExecId)
    requires seen <= st.executorMetadata.Keys && e in st.executorMetadata && e !in st.shardAssignments
    requires ShardIndexOver(v.shardToExecutor, st, seen) && ExecutorIndexOver(v.executorToShards, st, seen)
    requires RevisionsOver(v.executorRevision, st, seen)
    ensures ShardIndexOver(v.shardToExecutor, st, seen + {e}) && ExecutorIndexOver(v.executorToShards, st, seen + {e})
    ensures RevisionsOver(v.executorRevision, st, seen + {e})
  {
    assert forall x, s :: VisiblyHolds(st, seen + {e}, x, s) <==> VisiblyHolds(st, seen, x, s);
  }

  lemma ShardIndexGrows(index: map<ShardId, ShardOwner>, st: Snapshot, seen: set<ExecId>, e: ExecId)
    requires seen <= st.executorMetadata.Keys && ShardIndexOver(index, st, seen)
    requires e in st.executorMetadata && e in st.shardAssignments
    ensures ShardIndexOver(index + (map s | s in st.shardAssignments[e].shards :: OwnerOf(st, e)), st, seen + {e})
  {
    forall x, s | VisiblyHolds(st, seen + {e}, x, s) && x != e
      ensures s in index
    {
      assert VisiblyHolds(st, seen, x, s);
    }
  }

  lemma ExecutorIndexGrows(lists: map<ShardOwner, seq<ShardId>>, st: Snapshot, seen: set<ExecId>, e: ExecId,
                           list: seq<ShardId>)
    requires seen <= st.executorMetadata.Keys && ExecutorIndexOver(lists, st, seen)
    requires e in st.executorMetadata && e in st.shardAssignments
    requires NoDuplicates(list) && forall s :: s in list <==> s in st.shardAssignments[e].shards
    ensures ExecutorIndexOver(lists[OwnerOf(st, e) := list], st, seen + {e})
  {
  }
}
