/** The refresh path and the watch handler over one cache and its notification channels. */
module Streams {
  import opened Common
  import opened Api
  import opened Cache
  import opened PubSub
  import W = Watch

  /** The channels and the cache are those of one watch system. */
  ghost predicate Together(cache: ShardCache, pubsub: ExecutorStatePubSub)
    reads cache, pubsub
  {
    cache.Valid() && pubsub.Valid() && cache.applied == pubsub.world.applied
  }

  /** Apply what was fetched, and notify exactly when that moved the cache.  Nobody is left owed a notification by this
      refresh. */
  method Refresh(cache: ShardCache, pubsub: ExecutorStatePubSub, st: Snapshot, ghost r: nat) returns (updated: bool)
    requires Together(cache, pubsub) && W.RefresherOf(pubsub.world, r) == W.Fetched(st)
    modifies cache, pubsub
    ensures Together(cache, pubsub) && cache.applied == old(cache.applied) + [st]
    ensures updated <==> st.revision > old(cache.lastRevision)
    ensures W.RefresherOf(pubsub.world, r).Resting? && pubsub.subscribers.Keys == old(pubsub.subscribers).Keys
    ensures updated ==> forall id :: id in pubsub.subscribers ==> pubsub.subscribers[id]
    ensures !updated ==> pubsub.subscribers == old(pubsub.subscribers)
  {
    updated := cache.ApplyNamespaceState(st);
    W.ApplyingMovesOn(pubsub.world, r);
    pubsub.Elsewhere(W.ApplySnapshot(r));
    if updated {
      ghost var _ := pubsub.NotifySubscribers(r);
    }
  }

  /** Send what the cache shows.  The response describes the snapshot recorded as sent. */
  method SendWatchResponse(cache: ShardCache, pubsub: ExecutorStatePubSub, ghost w: nat)
    returns (executors: map<ShardOwner, seq<ShardId>>, drained: set<ShardId>)
    requires Together(cache, pubsub) && w in pubsub.world.watchers && pubsub.world.watchers[w].phase.Behind?
    modifies pubsub
    ensures Together(cache, pubsub) && w in pubsub.world.watchers && pubsub.world.watchers[w].phase.Waiting?
    ensures pubsub.world.watchers[w].sent == old(pubsub.world).watchers[w].sent + [Newest(cache.applied)]
    ensures Newest(cache.applied).Some? ==> IsAssignments(Newest(cache.applied).value, executors, drained)
    ensures Newest(cache.applied).Some? ==>
      Lists(Newest(cache.applied).value, executors) && drained == Newest(cache.applied).value.drainedShards
    ensures pubsub.subscribers == old(pubsub.subscribers)
  {
    executors, drained := cache.GetShardAssignments();
    pubsub.Elsewhere(W.ReadCache(w));
    pubsub.Elsewhere(W.Send(w));
  }

  /** A stream that waits with an empty channel, when no refresh owes it a notification, last sent what the cache shows
      now: the newest of all snapshots the cache was ever offered. */
  lemma QuietStreamIsCurrent(cache: ShardCache, pubsub: ExecutorStatePubSub, w: nat)
    requires Together(cache, pubsub) && w in pubsub.subscribers && !pubsub.subscribers[w]
    requires pubsub.world.watchers[w].phase.Waiting? && !W.OwedTo(pubsub.world, w)
    ensures W.Last(pubsub.world.watchers[w].sent) == Newest(cache.applied)
    ensures forall i :: 0 <= i < |cache.applied| ==>
      cache.applied[i].revision <= RevisionOf(W.Last(pubsub.world.watchers[w].sent))
  {
    pubsub.QuietMeansCurrent(w);
    NewestIsHighest(cache.applied);
  }

  /** The loop of a watch stream after a wake-up: take the notification and send. */
  method OnNotification(cache: ShardCache, pubsub: ExecutorStatePubSub, w: nat)
    returns (executors: map<ShardOwner, seq<ShardId>>, drained: set<ShardId>)
    requires Together(cache, pubsub) && w in pubsub.subscribers && pubsub.subscribers[w]
    requires pubsub.world.watchers[w].phase.Waiting?
    modifies pubsub
    ensures Together(cache, pubsub) && w in pubsub.subscribers && !pubsub.subscribers[w]
    ensures pubsub.world.watchers[w].phase.Waiting?
    ensures W.Last(pubsub.world.watchers[w].sent) == Newest(cache.applied)
    ensures Newest(cache.applied).Some? ==> IsAssignments(Newest(cache.applied).value, executors, drained)
  {
    pubsub.Receive(w);
    executors, drained := SendWatchResponse(cache, pubsub, w);
  }
}
