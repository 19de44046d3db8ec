/**
 Watch streams over all interleavings of store writes, concurrent cache refreshes, notifications and watchers.

 A refresher fetches a snapshot, applies it under the cache lock, and only then notifies, one subscriber at a time under
 the subscribers' read lock.  A watcher reads the cache and sends what it read, in two separate steps.
 */
module Watch {
  import opened Common
  import opened Cache

  datatype Refresher = Resting | Fetched(st: Snapshot) | Owes | Notifying(remaining: set<nat>)

  /** A watcher sends the snapshot the cache shows, or nothing while the cache was never loaded. */
  datatype WatcherPhase = Behind | Sending(st: Option<Snapshot>) | Waiting

  datatype Watcher = Watcher(phase: WatcherPhase, token: bool, sent: seq<Option<Snapshot>>)

  /** `applied` are the snapshots the cache was offered, in order. */
  datatype System = System(storeRevision: nat, applied: seq<Snapshot>, refreshers: map<nat, Refresher>,
                           watchers: map<nat, Watcher>)

  function Shown(sys: System): Option<Snapshot> {
    Newest(sys.applied)
  }

  function CacheRevision(sys: System): nat {
    RevisionOf(Shown(sys))
  }

  datatype Step =
    | StoreWrite
    | Fetch(r: nat, st: Snapshot)
    | FetchFails(r: nat)
    | ApplySnapshot(r: nat)
    | StartNotify(r: nat)
    | NotifyOne(r: nat, w: nat)
    | EndNotify(r: nat)
    | Subscribe(w: nat)
    | ReadCache(w: nat)
    | Send(w: nat)
    | Receive(w: nat)
    | Leave(w: nat)

  function RefresherOf(sys: System, r: nat): Refresher {
    if r in sys.refreshers then sys.refreshers[r] else Resting
  }

  /** Someone holds the subscribers' read lock. */
  ghost predicate Locked(sys: System) {
    exists r :: r in sys.refreshers && sys.refreshers[r].Notifying?
  }

  ghost predicate Enabled(sys: System, step: Step) {
    match step
    case StoreWrite => true
    case Fetch(r, st) => RefresherOf(sys, r).Resting? && st.revision == sys.storeRevision
    case FetchFails(r) => RefresherOf(sys, r).Fetched?
    case ApplySnapshot(r) => RefresherOf(sys, r).Fetched?
    case StartNotify(r) => RefresherOf(sys, r).Owes?
    case NotifyOne(r, w) => RefresherOf(sys, r).Notifying? && w in RefresherOf(sys, r).remaining && w in sys.watchers
    case EndNotify(r) => RefresherOf(sys, r) == Notifying({})
    case Subscribe(w) => w !in sys.watchers && !Locked(sys)
    case ReadCache(w) => w in sys.watchers && sys.watchers[w].phase.Behind?
    case Send(w) => w in sys.watchers && sys.watchers[w].phase.Sending?
    case Receive(w) => w in sys.watchers && sys.watchers[w].phase.Waiting? && sys.watchers[w].token
    case Leave(w) => w in sys.watchers && !Locked(sys)
  }

  function Next(sys: System, step: Step): System
    requires Enabled(sys, step)
  {
    match step
    case StoreWrite => sys.(storeRevision := sys.storeRevision + 1)
    case Fetch(r, st) => sys.(refreshers := sys.refreshers[r := Fetched(st)])
    case FetchFails(r) => sys.(refreshers := sys.refreshers[r := Resting])
    case ApplySnapshot(r) =>
      var st := sys.refreshers[r].st;
      sys.(applied := sys.applied + [st],
           refreshers := sys.refreshers[r := if st.revision <= CacheRevision(sys) then Resting else Owes])
    case StartNotify(r) => sys.(refreshers := sys.refreshers[r := Notifying(sys.watchers.Keys)])
    case NotifyOne(r, w) =>
      sys.(refreshers := sys.refreshers[r := Notifying(sys.refreshers[r].remaining - {w})],
           watchers := sys.watchers[w := sys.watchers[w].(token := true)])
    case EndNotify(r) => sys.(refreshers := sys.refreshers[r := Resting])
    case Subscribe(w) => sys.(watchers := sys.watchers[w := Watcher(Behind, false, [])])
    case ReadCache(w) => sys.(watchers := sys.watchers[w := sys.watchers[w].(phase := Sending(Shown(sys)))])
    case Send(w) =>
      var watcher := sys.watchers[w];
      sys.(watchers := sys.watchers[w := watcher.(phase := Waiting, sent := watcher.sent + [watcher.phase.st])])
    case Receive(w) => sys.(watchers := sys.watchers[w := sys.watchers[w].(phase := Behind, token := false)])
    case Leave(w) => sys.(watchers := sys.watchers - {w})
  }

  /** Who subscribes, and whether its channel holds a notification. */
  function Channels(sys: System): map<nat, bool> {
    map w | w in sys.watchers :: sys.watchers[w].token
  }

  /** Refresher `r` alone holds the read lock, with these subscribers still to notify. */
  ghost predicate NotifyingOnly(sys: System, r: nat, remaining: set<nat>) {
    RefresherOf(sys, r) == Notifying(remaining) && forall x :: x in sys.refreshers && sys.refreshers[x].Notifying? ==>
      x == r
  }

  ghost predicate Initial(sys: System) {
    sys.applied == [] && sys.refreshers == map[] && sys.watchers == map[]
  }

  /** Some refresher has moved the cache but not yet notified `w`. */
  ghost predicate OwedTo(sys: System, w: nat) {
    exists r :: r in sys.refreshers &&
      (sys.refreshers[r].Owes? || (sys.refreshers[r].Notifying? && w in sys.refreshers[r].remaining))
  }

  ghost predicate NeverDecreases(sent: seq<Option<Snapshot>>) {
    forall i, j :: 0 <= i < j < |sent| ==> RevisionOf(sent[i]) <= RevisionOf(sent[j])
  }

  function Last(sent: seq<Option<Snapshot>>): Option<Snapshot> {
    if sent == [] then None else sent[|sent| - 1]
  }

  /** `st` is what the cache shows or something older. */
  ghost predicate NotAhead(sys: System, st: Option<Snapshot>) {
    RevisionOf(st) <= CacheRevision(sys) && (RevisionOf(st) == CacheRevision(sys) ==> st == Shown(sys))
  }

  /** A watcher that has fallen behind what it last read is about to be woken. */
  ghost predicate WatcherOk(sys: System, w: nat)
    requires w in sys.watchers
  {
    var watcher := sys.watchers[w];
    && NeverDecreases(watcher.sent)
    && NotAhead(sys, Last(watcher.sent))
    && (watcher.phase.Sending? ==> RevisionOf(Last(watcher.sent)) <= RevisionOf(watcher.phase.st))
    && (watcher.phase.Sending? ==> NotAhead(sys, watcher.phase.st))
    && (watcher.phase.Sending? && watcher.phase.st != Shown(sys) ==> watcher.token || OwedTo(sys, w))
    && (watcher.phase.Waiting? && Last(watcher.sent) != Shown(sys) ==> watcher.token || OwedTo(sys, w))
  }

  ghost predicate Invariant(sys: System) {
    && CacheRevision(sys) <= sys.storeRevision && (CacheRevision(sys) == 0 ==> Shown(sys) == None)
    && (forall r :: r in sys.refreshers && sys.refreshers[r].Fetched? ==>
      sys.refreshers[r].st.revision <= sys.storeRevision)
    && (forall w :: w in sys.watchers ==> WatcherOk(sys, w))
  }

  /** Applying a snapshot leaves the cache as it was, or moves it ahead of everything seen before. */
  lemma ApplyingMovesOn(sys: System, r: nat)
    requires Enabled(sys, ApplySnapshot(r))
    ensures var st, next := RefresherOf(sys, r).st, Next(sys, ApplySnapshot(r));
      if st.revision <= CacheRevision(sys) then Shown(next) == Shown(sys)
      else Shown(next) == Some(st) && next.refreshers[r].Owes?
  {
    NewestAppend(sys.applied, RefresherOf(sys, r).st);
  }

  /** A refresher's own step changes what it owes only by notifying. */
  lemma OwedAfter(sys: System, step: Step, w: nat)
    requires Invariant(sys) && Enabled(sys, step) && w in sys.watchers && w in Next(sys, step).watchers
    requires OwedTo(sys, w)
    ensures OwedTo(Next(sys, step), w) || Next(sys, step).watchers[w].token
  {
    var next := Next(sys, step);
    var r :| r in sys.refreshers &&
      (sys.refreshers[r].Owes? || (sys.refreshers[r].Notifying? && w in sys.refreshers[r].remaining));
    assert r in next.refreshers;
  }

  lemma ApplyKeepsWatcher(sys: System, r: nat, w: nat)
    requires Invariant(sys) && Enabled(sys, ApplySnapshot(r)) && w in sys.watchers
    ensures WatcherOk(Next(sys, ApplySnapshot(r)), w)
  {
    var next := Next(sys, ApplySnapshot(r));
    ApplyingMovesOn(sys, r);
    assert WatcherOk(sys, w);
    if Shown(next) == Shown(sys) {
      if OwedTo(sys, w) {
        OwedAfter(sys, ApplySnapshot(r), w);
      }
    } else {
      assert OwedTo(next, w);
    }
  }

  lemma OthersKeepWatcher(sys: System, step: Step, w: nat)
    requires Invariant(sys) && Enabled(sys, step) && !step.ApplySnapshot? && w in sys.watchers &&
      w in Next(sys, step).watchers
    ensures WatcherOk(Next(sys, step), w)
  {
    assert WatcherOk(sys, w) && Next(sys, step).applied == sys.applied;
    if OwedTo(sys, w) {
      OwedAfter(sys, step, w);
    }
  }

  lemma StepKeepsInvariant(sys: System, step: Step)
    requires Invariant(sys) && Enabled(sys, step)
    ensures Invariant(Next(sys, step))
  {
    var next := Next(sys, step);
    if step.ApplySnapshot? {
      ApplyingMovesOn(sys, step.r);
    }
    forall w | w in next.watchers
      ensures WatcherOk(next, w)
    {
      if step.ApplySnapshot? {
        ApplyKeepsWatcher(sys, step.r, w);
      } else if w in sys.watchers {
        OthersKeepWatcher(sys, step, w);
      }
    }
  }

  ghost predicate IsRun(start: System, steps: seq<Step>)
    decreases |steps|
  {
    steps == [] || (Enabled(start, steps[0]) && IsRun(Next(start, steps[0]), steps[1..]))
  }

  ghost function After(start: System, steps: seq<Step>): System
    requires IsRun(start, steps)
    decreases |steps|
  {
    if steps == [] then start else After(Next(start, steps[0]), steps[1..])
  }

  lemma RunStarts(start: System, step: Step)
    requires Enabled(start, step)
    ensures IsRun(start, [step]) && After(start, [step]) == Next(start, step)
  {
    assert [step][1..] == [];
    assert IsRun(Next(start, step), []);
  }

  lemma {:induction false} RunOneMore(start: System, steps: seq<Step>, step: Step)
    requires IsRun(start, steps) && Enabled(After(start, steps), step)
    ensures IsRun(start, steps + [step]) && After(start, steps + [step]) == Next(After(start, steps), step)
    decreases |steps|
  {
    if steps == [] {
      RunStarts(start, step);
    } else {
      RunOneMore(Next(start, steps[0]), steps[1..], step);
      assert (steps + [step])[1..] == steps[1..] + [step];
    }
  }

  lemma {:induction false} RunKeepsInvariant(start: System, steps: seq<Step>)
    requires Invariant(start) && IsRun(start, steps)
    ensures Invariant(After(start, steps))
    decreases |steps|
  {
    if steps != [] {
      StepKeepsInvariant(start, steps[0]);
      RunKeepsInvariant(Next(start, steps[0]), steps[1..]);
    }
  }

  /** These steps are notification steps and lead from one system to the other. */
  ghost predicate Notifies(before: System, steps: seq<Step>, sys: System) {
    && IsRun(before, steps) && After(before, steps) == sys
    && forall step :: step in steps ==> step.StartNotify? || step.NotifyOne? || step.EndNotify?
  }

  lemma NotifiesOneMore(before: System, steps: seq<Step>, sys: System, step: Step)
    requires Notifies(before, steps, sys) && Enabled(sys, step) && (step.NotifyOne? || step.EndNotify?)
    ensures Notifies(before, steps + [step], Next(sys, step))
  {
    RunOneMore(before, steps, step);
  }

  lemma NotifyStarts(sys: System, r: nat)
    requires Invariant(sys) && RefresherOf(sys, r).Owes? && !Locked(sys)
    ensures Enabled(sys, StartNotify(r)) && Notifies(sys, [StartNotify(r)], Next(sys, StartNotify(r)))
    ensures var next := Next(sys, StartNotify(r));
      Invariant(next) && NotifyingOnly(next, r, sys.watchers.Keys) && Channels(next) == Channels(sys) &&
        next.applied == sys.applied
  {
    StepKeepsInvariant(sys, StartNotify(r));
    RunStarts(sys, StartNotify(r));
  }

  lemma NotifyOneStep(sys: System, r: nat, remaining: set<nat>, w: nat)
    requires Invariant(sys) && NotifyingOnly(sys, r, remaining) && w in remaining && w in sys.watchers
    ensures Enabled(sys, NotifyOne(r, w))
    ensures var next := Next(sys, NotifyOne(r, w));
      Invariant(next) && NotifyingOnly(next, r, remaining - {w}) && Channels(next) == Channels(sys)[w := true] &&
        next.applied == sys.applied
  {
    StepKeepsInvariant(sys, NotifyOne(r, w));
  }

  lemma NotifyEnds(sys: System, r: nat)
    requires Invariant(sys) && NotifyingOnly(sys, r, {})
    ensures Enabled(sys, EndNotify(r))
    ensures var next := Next(sys, EndNotify(r));
      && Invariant(next) && !Locked(next) && RefresherOf(next, r).Resting?
      && Channels(next) == Channels(sys) && next.applied == sys.applied
  {
    StepKeepsInvariant(sys, EndNotify(r));
  }

  /** No lost update: a watcher left waiting with nothing to read and nobody about to notify it has sent the newest
      state. */
  lemma NoLostUpdate(start: System, steps: seq<Step>, w: nat)
    requires Initial(start) && IsRun(start, steps) && w in After(start, steps).watchers
    ensures var sys := After(start, steps); var watcher := sys.watchers[w];
      && NeverDecreases(watcher.sent)
      && (watcher.phase.Waiting? && !watcher.token && !OwedTo(sys, w) ==> Last(watcher.sent) == Newest(sys.applied))
  {
    RunKeepsInvariant(start, steps);
  }

  lemma {:induction false} RunsCompose(start: System, first: seq<Step>, second: seq<Step>)
    requires IsRun(start, first) && IsRun(After(start, first), second)
    ensures IsRun(start, first + second) && After(start, first + second) == After(After(start, first), second)
    decreases |first|
  {
    if first == [] {
      assert first + second == second;
    } else {
      RunsCompose(Next(start, first[0]), first[1..], second);
      assert (first + second)[1..] == first[1..] + second;
    }
  }

  ghost predicate Linked(s: System, step: Step, next: System) {
    Enabled(s, step) && Next(s, step) == next
  }

  lemma {:induction false} LinksMakeARun(states: seq<System>, steps: seq<Step>)
    requires |states| == |steps| + 1
    requires forall k :: 0 <= k < |steps| ==> Linked(states[k], steps[k], states[k + 1])
    ensures IsRun(states[0], steps) && After(states[0], steps) == states[|steps|]
    decreases |steps|
  {
    if steps != [] {
      assert Linked(states[0], steps[0], states[0 + 1]);
      LinksMakeARun(states[1..], steps[1..]);
    }
  }

  /** A refresher whose fetch failed can fetch again. */
  lemma FailedFetchIsRetried(sys: System, r: nat, st: Snapshot)
    requires Enabled(sys, FetchFails(r)) && st.revision == sys.storeRevision
    ensures Enabled(Next(sys, FetchFails(r)), Fetch(r, st)) && Shown(Next(sys, FetchFails(r))) == Shown(sys)
  {
  }

  /** A refresher picks up a new write and moves the cache to it. */
  lemma WriteIsApplied(sys: System, r: nat, st: Snapshot)
    requires Invariant(sys) && RefresherOf(sys, r).Resting? && st.revision == sys.storeRevision + 1
    ensures IsRun(sys, [StoreWrite, Fetch(r, st), ApplySnapshot(r)])
    ensures var next := After(sys, [StoreWrite, Fetch(r, st), ApplySnapshot(r)]);
      Shown(next) == Some(st) && RefresherOf(next, r).Owes? && next.watchers == sys.watchers
  {
    var written := Next(sys, StoreWrite);
    var fetched := Next(written, Fetch(r, st));
    var applied := Next(fetched, ApplySnapshot(r));
    ApplyingMovesOn(fetched, r);
    LinksMakeARun([sys, written, fetched, applied], [StoreWrite, Fetch(r, st), ApplySnapshot(r)]);
  }

  lemma NotificationArrives(sys: System, r: nat, w: nat)
    requires RefresherOf(sys, r).Owes? && w in sys.watchers && sys.watchers[w].phase.Waiting?
    ensures IsRun(sys, [StartNotify(r), NotifyOne(r, w)])
    ensures var next := After(sys, [StartNotify(r), NotifyOne(r, w)]);
      Enabled(next, Receive(w)) && next.applied == sys.applied
  {
    var notifying := Next(sys, StartNotify(r));
    LinksMakeARun([sys, notifying, Next(notifying, NotifyOne(r, w))], [StartNotify(r), NotifyOne(r, w)]);
  }

  function WakeUp(w: nat): seq<Step> {
    [Receive(w), ReadCache(w), Send(w)]
  }

  lemma WakeUpRuns(before: System, w: nat)
    requires Enabled(before, Receive(w))
    ensures IsRun(before, WakeUp(w))
    ensures var sys := After(before, WakeUp(w));
      && w in sys.watchers && Last(sys.watchers[w].sent) == Newest(before.applied)
      && |sys.watchers[w].sent| == |before.watchers[w].sent| + 1
  {
    var behind := Next(before, Receive(w));
    var sending := Next(behind, ReadCache(w));
    LinksMakeARun([before, behind, sending, Next(sending, Send(w))], WakeUp(w));
  }

  /** The steps from a store write to the watcher sending the snapshot that has it. */
  function Journey(r: nat, w: nat, st: Snapshot): seq<Step> {
    [StoreWrite, Fetch(r, st), ApplySnapshot(r)] + [StartNotify(r), NotifyOne(r, w)] + WakeUp(w)
  }

  /** A write gets through: in any reachable state with an idle refresher and a waiting watcher, a snapshot of the next
      write can be fetched, applied and notified, and the watcher then sends exactly that snapshot. */
  lemma WriteReachesWatcher(start: System, steps: seq<Step>, r: nat, w: nat, st: Snapshot)
    requires Initial(start) && IsRun(start, steps)
    requires var sys := After(start, steps);
      && RefresherOf(sys, r).Resting? && w in sys.watchers && sys.watchers[w].phase.Waiting?
      && st.revision == sys.storeRevision + 1
    ensures IsRun(After(start, steps), Journey(r, w, st))
    ensures var sys := After(After(start, steps), Journey(r, w, st));
      w in sys.watchers && Last(sys.watchers[w].sent) == Some(st)
  {
    RunKeepsInvariant(start, steps);
    var sys := After(start, steps);
    var applying, notifying := [StoreWrite, Fetch(r, st), ApplySnapshot(r)], [StartNotify(r), NotifyOne(r, w)];
    WriteIsApplied(sys, r, st);
    NotificationArrives(After(sys, applying), r, w);
    RunsCompose(sys, applying, notifying);
    WakeUpRuns(After(sys, applying + notifying), w);
    RunsCompose(sys, applying + notifying, WakeUp(w));
  }

  /** The wake-up works: with a notification pending, receiving, reading and sending brings the watcher up to date. */
  lemma WakeUpCatchesUp(start: System, steps: seq<Step>, w: nat)
    requires Initial(start) && IsRun(start, steps) && Enabled(After(start, steps), Receive(w))
    ensures IsRun(After(start, steps), WakeUp(w))
    ensures var before := After(start, steps); var sys := After(before, WakeUp(w));
      && w in sys.watchers && Last(sys.watchers[w].sent) == Newest(before.applied)
      && |sys.watchers[w].sent| == |before.watchers[w].sent| + 1
  {
    WakeUpRuns(After(start, steps), w);
  }
}

/**
 The notification channels of the watch streams: capacity one, one per subscriber; a full channel absorbs further
 notifications.  The object keeps the channels of a watch system, and its methods are steps of that system.
 */
module PubSub {
  import opened Watch

  class ExecutorStatePubSub {
    /** Subscriber id to whether its channel holds an unread notification. */
    var subscribers: map<nat, bool>
    /** The watch system these channels belong to. */
    ghost var world: System

    /** The channels are those of the system, in which every watcher that has fallen behind is about to be woken. */
    ghost predicate Valid()
      reads this
    {
      subscribers == Channels(world) && Invariant(world) && !Locked(world)
    }

    constructor (ghost start: System)
      requires Watch.Initial(start)
      ensures Valid() && world == start
    {
      subscribers, world := map[], start;
    }

    /** A subscriber that waits with an empty channel, when nobody owes it a notification, has sent the newest state. */
    lemma QuietMeansCurrent(id: nat)
      requires Valid() && id in subscribers && !subscribers[id]
      requires world.watchers[id].phase.Waiting? && !OwedTo(world, id)
      ensures Last(world.watchers[id].sent) == Shown(world)
    {
      assert WatcherOk(world, id);
    }

    /** Whatever the cache had shown before, the new subscriber has yet to read it: its channel is empty and it is not
        waiting, so its first send is of the state at hand, and later changes find its channel. */
    method Subscribe(id: nat)
      requires Valid() && id !in subscribers
      modifies this
      ensures Valid() && old(Enabled(world, Watch.Subscribe(id))) && world == Next(old(world), Watch.Subscribe(id))
      ensures id in subscribers && !subscribers[id] && world.watchers[id].phase.Behind?
      ensures forall w :: w in old(subscribers) ==> w in subscribers && subscribers[w] == old(subscribers)[w]
    {
      StepKeepsInvariant(world, Watch.Subscribe(id));
      world := Next(world, Watch.Subscribe(id));
      subscribers := subscribers[id := false];
    }

    /** The subscriber is forgotten, with anything unread; leaving twice is harmless, and nobody else notices. */
    method Unsubscribe(id: nat)
      requires Valid()
      modifies this
      ensures Valid() && id !in subscribers
      ensures id in old(subscribers) ==> old(Enabled(world, Leave(id))) && world == Next(old(world), Leave(id))
      ensures id !in old(subscribers) ==> world == old(world)
      ensures forall w :: w in old(subscribers) && w != id ==> w in subscribers && subscribers[w] == old(subscribers)[w]
    {
      if id in subscribers {
        StepKeepsInvariant(world, Leave(id));
        world := Next(world, Leave(id));
      }
      subscribers := subscribers - {id};
    }

    /** What happens around the channels: store writes, refreshes up to their notifications, and watchers reading and
        sending. */
    ghost method Elsewhere(step: Step)
      requires Valid() && Enabled(world, step)
      requires step.StoreWrite? || step.Fetch? || step.FetchFails? || step.ApplySnapshot? || step.ReadCache? ||
        step.Send?
      modifies this`world
      ensures Valid() && world == Next(old(world), step)
    {
      StepKeepsInvariant(world, step);
      world := Next(world, step);
    }

    /** A watcher takes its notification, and is then behind until it reads the cache. */
    method Receive(id: nat)
      requires Valid() && id in subscribers && subscribers[id] && world.watchers[id].phase.Waiting?
      modifies this
      ensures Valid() && old(Enabled(world, Watch.Receive(id))) && world == Next(old(world), Watch.Receive(id))
    {
      StepKeepsInvariant(world, Watch.Receive(id));
      world := Next(world, Watch.Receive(id));
      subscribers := subscribers[id := false];
    }

    /** Refresher `r` is in the middle of notifying, with these subscribers to go. */
    ghost predicate Busy(r: nat, remaining: set<nat>)
      reads this
    {
      && subscribers == Channels(world) && Invariant(world) && NotifyingOnly(world, r, remaining)
      && remaining <= subscribers.Keys && forall id :: id in subscribers && id !in remaining ==> subscribers[id]
    }

    /** The non-blocking send: a full channel is skipped. */
    method NotifyOneSubscriber(id: nat, ghost r: nat, ghost remaining: set<nat>)
      requires Busy(r, remaining) && id in remaining
      modifies this
      ensures Busy(r, remaining - {id}) && subscribers.Keys == old(subscribers).Keys &&
        world.applied == old(world).applied
      ensures old(Enabled(world, NotifyOne(r, id))) && world == Next(old(world), NotifyOne(r, id))
    {
      NotifyOneStep(world, r, remaining, id);
      world := Next(world, NotifyOne(r, id));
      if !subscribers[id] {
        subscribers := subscribers[id := true];
      }
    }

    /**
     Never blocks.  The loop is the refresher's notification steps of the system, one per subscriber; afterwards the
     refresher owes nobody anything and every subscriber has exactly one notification to read.
     */
    method NotifySubscribers(ghost r: nat) returns (ghost steps: seq<Step>)
      requires Valid() && RefresherOf(world, r).Owes?
      modifies this
      ensures Valid() && RefresherOf(world, r).Resting? && world.applied == old(world).applied
      ensures subscribers.Keys == old(subscribers).Keys && forall id :: id in subscribers ==> subscribers[id]
      ensures Notifies(old(world), steps, world)
    {
      ghost var before := world;
      steps := [StartNotify(r)];
      NotifyStarts(before, r);
      world := Next(world, StartNotify(r));
      var remaining := subscribers.Keys;
      while remaining != {}
        invariant Busy(r, remaining) && subscribers.Keys == old(subscribers).Keys && world.applied == before.applied
        invariant Notifies(before, steps, world)
      {
        var id :| id in remaining;
        ghost var previous := world;
        NotifyOneSubscriber(id, r, remaining);
        NotifiesOneMore(before, steps, previous, NotifyOne(r, id));
        steps := steps + [NotifyOne(r, id)];
        remaining := remaining - {id};
      }
      NotifyEnds(world, r);
      NotifiesOneMore(before, steps, world, EndNotify(r));
      steps := steps + [EndNotify(r)];
      world := Next(world, EndNotify(r));
    }
  }
}
