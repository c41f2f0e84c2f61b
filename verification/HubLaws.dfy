/** What holds of the hub as a whole, whatever it is told and whatever its event cache can hold. */
module HubLaws {
  import opened Basics
  import opened Events
  import opened Queries
  import opened HubLog
  import opened Hubs
  import IndexSpec
  import IndexLaws
  import RingHistory
  import Rings
  import Caches

  /** Two hubs told the same, with the same ceiling on jobs and any two memories for events, agree on
      every statistic. Their caches differ only in payloads shed and in how many of the oldest events
      are gone, so while neither has dropped any, every query chooses the same positions of both. */
  lemma CacheSizeChangesNoStatistic(a: Hub, b: Hub, m: Option<Query>)
    requires a.Valid() && b.Valid()
    requires a.log == b.log && a.decode == b.decode && a.jobs.Lim() == b.jobs.Lim()
    ensures a.rings.log == b.rings.log && a.rings.hist == b.rings.hist
    ensures a.jobs.ix == b.jobs.ix && a.connected == b.connected && a.decodeErrors == b.decodeErrors
    ensures a.Counts() == b.Counts()
    ensures a.cache.added == b.cache.added
    ensures Caches.Marks(m, a.cache.events) == Caches.Marks(m, a.cache.added)[a.cache.dropped..]
    ensures a.cache.dropped == b.cache.dropped == 0 ==>
              Caches.Marks(m, a.cache.events) == Caches.Marks(m, b.cache.events)
  {
    assert a.Told() == b.Told();
    Caches.QueriesIgnoreShedding(m, a.cache.added, a.cache.events, a.cache.used, a.cache.shedIdx, a.cache.shed,
                                 a.cache.dropped, a.cache.turns);
    Caches.QueriesIgnoreShedding(m, b.cache.added, b.cache.events, b.cache.used, b.cache.shedIdx, b.cache.shed,
                                 b.cache.dropped, b.cache.turns);
  }

  /** The windows a snapshot shows count exactly the events that arrived during each bucket. */
  lemma WindowsCountArrivals(ops: seq<RingHistory.Op>, seconds: nat, minutes: nat,
      secs: seq<RingHistory.Bucket>, mins: seq<RingHistory.Bucket>)
    requires ShowsSeconds(ops, seconds, secs) && ShowsMinutes(ops, seconds, minutes, mins)
    ensures |secs| == 120 && Rings.CountsArrivals(secs, ops + [RingHistory.Poll(seconds)], RingHistory.SECOND)
    ensures |mins| == 60
    ensures Rings.CountsArrivals(mins, ops + [RingHistory.Poll(seconds), RingHistory.Poll(minutes)], RingHistory.MINUTE)
  {
    Rings.WindowCountsArrivals(ops + [RingHistory.Poll(seconds)], RingHistory.SECONDS);
    Rings.WindowCountsArrivals(ops + [RingHistory.Poll(seconds), RingHistory.Poll(minutes)], RingHistory.MINUTES);
  }

  // ---------------------------------------------------------------- looking

  function WithoutLooks(log: seq<Call>): seq<Call> {
    if log == [] then []
    else
      var c := log[|log| - 1];
      WithoutLooks(log[..|log| - 1]) + if c.Snapshot? then [] else [c]
  }

  /** The same but for the looks the rings have had. */
  ghost predicate SameButForLooks(seen: State, alone: State) {
    && alone == seen.(ringOps := alone.ringOps)
    && RingHistory.WithoutPolls(seen.ringOps) == alone.ringOps
  }

  lemma WithoutPollsMore(ops: seq<RingHistory.Op>, op: RingHistory.Op)
    ensures RingHistory.WithoutPolls(ops + [op]) == RingHistory.WithoutPolls(ops) + if op.Poll? then [] else [op]
  {
    assert (ops + [op])[..|ops|] == ops;
    assert RingHistory.WithoutPolls(ops) + [] == RingHistory.WithoutPolls(ops);
  }

  lemma FourPolls(ops: seq<RingHistory.Op>, a: RingHistory.Op, b: RingHistory.Op, c: RingHistory.Op, d: RingHistory.Op)
    requires a.Poll? && b.Poll? && c.Poll? && d.Poll?
    ensures RingHistory.WithoutPolls(ops + [a, b, c, d]) == RingHistory.WithoutPolls(ops)
  {
    WithoutPollsMore(ops, a);
    WithoutPollsMore(ops + [a], b);
    WithoutPollsMore(ops + [a] + [b], c);
    WithoutPollsMore(ops + [a] + [b] + [c], d);
    assert ops + [a, b, c, d] == ops + [a] + [b] + [c] + [d];
  }

  lemma FeedBoth(lim: IndexSpec.Limits, decode: Option<Decoder>, seen: State, alone: State, c: Call)
    requires SameButForLooks(seen, alone) && IndexSpec.Sound(seen.index)
    ensures SameButForLooks(Feed(lim, decode, seen, c), if c.Snapshot? then alone else Feed(lim, decode, alone, c))
  {
    match c
    case Event(e) => WithoutPollsMore(seen.ringOps, RingHistory.Add(e.at.arrival));
    case Gap(from, to) => WithoutPollsMore(seen.ringOps, RingHistory.MarkGap(from, to));
    case Snapshot(p, q, r, t) =>
      FourPolls(seen.ringOps, RingHistory.Poll(p), RingHistory.Poll(q), RingHistory.Poll(r), RingHistory.Poll(t));
    case _ =>
  }

  /** Render ticks change nothing but how far the rings have rolled. */
  lemma {:induction false} LookingChangesNothing(lim: IndexSpec.Limits, decode: Option<Decoder>, log: seq<Call>)
    ensures SameButForLooks(Fold(lim, decode, log), Fold(lim, decode, WithoutLooks(log)))
  {
    if log != [] {
      var front, c := log[..|log| - 1], log[|log| - 1];
      LookingChangesNothing(lim, decode, front);
      FeedBoth(lim, decode, Fold(lim, decode, front), Fold(lim, decode, WithoutLooks(front)), c);
      FoldMore(lim, decode, WithoutLooks(front), c);
      assert WithoutLooks(front) + [] == WithoutLooks(front);
    }
  }
}
