/** The hub of `cmd/salt-events/hub.go`: where the reader, the event cache, the rate rings and the
    job index meet. Every method is one step under the lock, so a run is a list of calls. */
module Hubs {
  import opened Basics
  import opened Events
  import opened Queries
  import opened HubLog
  import opened IndexLaws
  import IndexSpec
  import opened Jobs
  import opened Counters
  import JobIndexes
  import Caches
  import Scans
  import Rings
  import RingHistory

  const LIST_JOBS := 200

  /** A tenth of the memory, truncated toward zero. */
  function JobCeiling(memory: int): int {
    if memory >= 0 then memory / 10 else -(-memory / 10)
  }

  /** The hub of the console: the job index may use a tenth of the memory. */
  method NewHub(memory: int, maxJobs: int, decode: Option<Decoder>) returns (h: Hub)
    requires -Scans.TWO63 <= memory < Scans.TWO63
    ensures fresh(h) && h.Valid() && h.log == [] && h.decode == decode
    ensures h.cache.budget == memory && h.jobs.Lim() == IndexSpec.Limits(maxJobs, JobCeiling(memory))
    ensures memory >= 0 ==> 10 * JobCeiling(memory) <= memory < 10 * JobCeiling(memory) + 10
    ensures memory < 0 ==> 10 * JobCeiling(memory) - 10 < memory <= 10 * JobCeiling(memory)
  {
    h := new Hub.WithCeiling(memory, JobCeiling(memory), maxJobs, decode);
  }

  /** What the cache and the job index show. */
  datatype Shown = Shown(events: seq<Event>, scanned: nat, cache: Caches.Stats, jobs: seq<JobRow>,
                         jobStats: JobIndexes.IndexStats)

  /** What a render tick is given, by value. */
  datatype View = View(shown: Shown, seconds: seq<RingHistory.Bucket>, minutes: seq<RingHistory.Bucket>,
                       connected: bool, decodeErrors: nat)

  ghost predicate ShowsSeconds(ops: seq<RingHistory.Op>, at: nat, window: seq<RingHistory.Bucket>) {
    var seen := ops + [RingHistory.Poll(at)];
    window == Rings.WindowOf(seen, RingHistory.SECOND, RingHistory.StateOf(seen, true).sec, RingHistory.SECOND_BUCKETS)
  }

  ghost predicate ShowsMinutes(ops: seq<RingHistory.Op>, before: nat, at: nat, window: seq<RingHistory.Bucket>) {
    var seen := ops + [RingHistory.Poll(before), RingHistory.Poll(at)];
    window == Rings.WindowOf(seen, RingHistory.MINUTE, RingHistory.StateOf(seen, true).min, RingHistory.MINUTE_BUCKETS)
  }

  /** The newest `limit` matches among the last 8 times as many events. */
  ghost predicate Filtered(es: seq<Event>, q: Query, limit: int, events: seq<Event>, scanned: nat) {
    && (limit <= 0 ==> events == [] && scanned == 0)
    && (limit > 0 ==>
          var n, marks, reach := |es|, Caches.Marks(Some(q), es), Min(8 * limit, |es|);
          && Scans.Scanned(es, marks, limit, reach, scanned, events)
          && events == Scans.Newest(Scans.Kept(es, marks, n - reach, n), limit))
  }

  /** One row for each of the newest jobs, newest first, saying what the job's sets say. */
  ghost predicate ListsJobs(ix: IndexSpec.Index, listed: seq<JobRow>) {
    && |listed| == Min(LIST_JOBS, |ix.entries|)
    && forall k :: 0 <= k < |listed| ==> RowTells(listed[k], ix.entries[|ix.entries| - 1 - k].job)
  }

  class Hub {
    const cache: Caches.Cache
    const rings: Rings.Rings
    const jobs: JobIndexes.JobIndex
    const cats: Counter
    const minions: Counter
    const funs: Counter
    const decode: Option<Decoder>
    var connected: bool
    var decodeErrors: nat

    /** The calls so far. */
    ghost var log: seq<Call>

    /** The three counters are different ones, each right. */
    ghost predicate Counting()
      reads cats, minions, funs
    {
      && cats != minions && minions != funs && cats != funs
      && cats.maxKeys == minions.maxKeys == funs.maxKeys == MAX_TOP_KEYS
      && cats.Valid() && minions.Valid() && funs.Valid()
    }

    ghost predicate Parts()
      reads cache, rings, rings.secs, rings.mins, jobs, jobs.evicted, cats, minions, funs
    {
      cache.Valid() && rings.Valid() && jobs.Valid() && Counting()
    }

    ghost function Counts(): Keys
      reads cats, minions, funs
    {
      Keys(cats.Value(), minions.Value(), funs.Value())
    }

    /** What the parts have made of the calls. */
    ghost function Told(): State
      reads this`connected, this`decodeErrors, cache, rings, jobs, cats, minions, funs
    {
      State(cache.added, rings.log, jobs.ix, connected, decodeErrors, Counts())
    }

    ghost predicate Valid()
      reads this, cache, rings, rings.secs, rings.mins, jobs, jobs.evicted, cats, minions, funs
    {
      Parts() && Told() == Fold(jobs.Lim(), decode, log)
    }

    /** `memory` bounds the event cache and `ceiling` the job index, in bytes. */
    constructor WithCeiling(memory: int, ceiling: int, maxJobs: int, decode: Option<Decoder>)
      requires -Scans.TWO63 <= memory < Scans.TWO63
      ensures Valid() && log == [] && this.decode == decode
      ensures cache.budget == memory && jobs.Lim() == IndexSpec.Limits(maxJobs, ceiling)
      ensures fresh(cache) && fresh(rings) && fresh(rings.secs) && fresh(rings.mins)
      ensures fresh(jobs) && fresh(jobs.evicted)
      ensures fresh(cats) && fresh(minions) && fresh(funs)
    {
      cache := new Caches.Cache(memory);
      rings := new Rings.Rings();
      cats := new Counter(MAX_TOP_KEYS);
      minions := new Counter(MAX_TOP_KEYS);
      funs := new Counter(MAX_TOP_KEYS);
      jobs := new JobIndexes.JobIndex(maxJobs, ceiling);
      this.decode := decode;
      connected, decodeErrors, log := false, 0, [];
    }

    /** Writes down a call that the parts have heard. */
    ghost method Record(c: Call)
      requires Parts() && Told() == Fold(jobs.Lim(), decode, log + [c])
      modifies this`log
      ensures Valid() && log == old(log) + [c]
    {
      log := log + [c];
    }

    /** One event off the bus: statistics first, the cache last. */
    method Event(e: Event)
      requires Valid()
      modifies this`log, cache, rings, rings.secs, rings.mins, jobs, jobs.evicted, cats, minions, funs
      ensures Valid() && log == old(log) + [Call.Event(e)]
    {
      TakeIn(e);
      FoldMore(jobs.Lim(), decode, log, Call.Event(e));
      Record(Call.Event(e));
    }

    method TakeIn(e: Event)
      requires Parts() && IndexSpec.Sound(jobs.ix)
      modifies cache, rings, rings.secs, rings.mins, jobs, jobs.evicted, cats, minions, funs
      ensures Parts() && Told() == Feed(jobs.Lim(), decode, old(Told()), Call.Event(e))
    {
      ghost var was := Told();
      Count(e);
      Store(e);
      ghost var now := Feed(jobs.Lim(), decode, was, Call.Event(e));
      assert cache.added == now.received && rings.log == now.ringOps && jobs.ix == now.index;
      assert connected == now.up && decodeErrors == now.errors && Counts() == now.keys;
    }

    /** The statistics: rings, counters and job index. */
    method Count(e: Event)
      requires rings.Valid() && jobs.Valid() && Counting() && IndexSpec.Sound(jobs.ix)
      modifies rings, rings.secs, rings.mins, jobs, jobs.evicted, cats, minions, funs
      ensures rings.Valid() && rings.log == old(rings.log) + [RingHistory.Add(e.at.arrival)]
      ensures jobs.Valid() && jobs.ix == Observed(jobs.Lim(), old(jobs.ix), e, FactsOf(decode, e))
      ensures Counting() && Counts() == CountKeys(old(Counts()), e)
    {
      var facts := FactsFor(e);
      rings.Add(e.at.arrival);
      AddKeys(e);
      ObserveJob(e, facts);
    }

    method AddKeys(e: Event)
      requires Counting()
      modifies cats, minions, funs
      ensures Counting() && Counts() == CountKeys(old(Counts()), e)
    {
      cats.Add(e.at.category);
      if e.at.minion != "" {
        minions.Add(e.at.minion);
      }
      if e.at.fun != "" {
        funs.Add(e.at.fun);
      }
    }

    method Store(e: Event)
      requires cache.Valid()
      modifies cache
      ensures cache.Valid() && cache.added == old(cache.added) + [e]
    {
      ghost var cut, lost := cache.Add(e);
    }

    /** Folds an event into the job index and writes down what its payload says of the job. */
    method ObserveJob(e: Event, facts: Facts)
      requires jobs.Valid() && IndexSpec.Sound(jobs.ix)
      modifies jobs, jobs.evicted
      ensures jobs.Valid() && jobs.ix == Observed(jobs.Lim(), old(jobs.ix), e, facts)
    {
      if !e.at.kind.KindNew? && !e.at.kind.KindRet? {
        return;
      }
      jobs.Observe(e, facts.expected, facts.trimmed);
      if e.at.jid == "" {
        return;
      }
      DescribeJob(e.at.jid, facts);
    }

    method DescribeJob(jid: string, facts: Facts)
      requires jobs.Valid()
      modifies jobs
      ensures jobs.Valid()
      ensures jobs.ix == if facts.tgt == "" && facts.user == "" && facts.tgtType == "" then old(jobs.ix)
                         else Relabel(old(jobs.ix), jid, facts.tgt, facts.tgtType, facts.user)
    {
      if facts.tgt == "" && facts.user == "" && facts.tgtType == "" {
        return;
      }
      jobs.Describe(jid, facts.tgt, facts.tgtType, facts.user);
    }

    /** Reads a new job's payload; of anything else nothing is decoded. */
    method FactsFor(e: Event) returns (f: Facts)
      ensures f == FactsOf(decode, e) && ReadWhole(decode, e, f)
      ensures !e.at.kind.KindNew? ==> f == NO_FACTS
    {
      TargetsAreWhole(decode, e);
      if !e.at.kind.KindNew? || PayloadSize(e) == 0 || decode.None? {
        return NO_FACTS;
      }
      var v := decode.value(e.payload.value);
      if v.None? {
        return NO_FACTS;
      }
      var expected, trimmed := ExpectedFrom(v.value);
      var tgt := LabelOf(ValueAt(v.value, "tgt"));
      var tgtType := LabelOf(ValueAt(v.value, "tgt_type"));
      var user := LabelOf(ValueAt(v.value, "user"));
      return Facts(expected, trimmed, tgt, tgtType, user);
    }

    static method ExpectedFrom(v: Value) returns (expected: Option<seq<string>>, trimmed: bool)
      ensures (expected, trimmed) == Listed(v)
    {
      var raw := ValueAt(v, "minions");
      if raw.None? {
        return None, false;
      }
      if raw.value.Text? && raw.value.text == TRIMMED_MARKER {
        return None, true;
      }
      if !raw.value.Items? {
        return None, false;
      }
      var items := raw.value.items;
      var out := [];
      for i := 0 to |items|
        invariant |out| == i
        invariant forall k :: 0 <= k < i ==> items[k].Text? && out[k] == items[k].text
      {
        if !items[i].Text? {
          return None, false;
        }
        out := out + [items[i].text];
      }
      assert out == seq(|items|, i requires 0 <= i < |items| => items[i].text);
      return Some(out), false;
    }

    static method LabelOf(v: Option<Value>) returns (s: string)
      ensures s == Label(v)
    {
      if v.None? {
        return "";
      }
      if v.value.Text? {
        return Clamped(v.value.text);
      }
      if !v.value.Items? {
        return "";
      }
      var parts := [];
      for i := 0 to |v.value.items|
        invariant parts == TextsTo(v.value.items, i)
      {
        if v.value.items[i].Text? {
          parts := parts + [v.value.items[i].text];
        }
      }
      return Clamped(CommaJoined(parts));
    }

    /** A reported outage window; it says nothing about being connected. */
    method Gap(from: nat, to: nat)
      requires Valid()
      modifies this`log, rings, rings.secs, rings.mins
      ensures Valid() && log == old(log) + [Call.Gap(from, to)] && connected == old(connected)
    {
      HearGap(from, to);
      FoldMore(jobs.Lim(), decode, log, Call.Gap(from, to));
      Record(Call.Gap(from, to));
    }

    method HearGap(from: nat, to: nat)
      requires Parts() && IndexSpec.Sound(jobs.ix)
      modifies rings, rings.secs, rings.mins
      ensures Parts() && Told() == Feed(jobs.Lim(), decode, old(Told()), Call.Gap(from, to))
    {
      rings.MarkGap(from, to);
    }

    method Attached(up: bool)
      requires Valid()
      modifies this
      ensures Valid() && log == old(log) + [Call.Attached(up)] && connected == up
    {
      connected := up;
      FoldMore(jobs.Lim(), decode, log, Call.Attached(up));
      Record(Call.Attached(up));
    }

    method DecodeError()
      requires Valid()
      modifies this
      ensures Valid() && log == old(log) + [Call.DecodeError]
    {
      decodeErrors := decodeErrors + 1;
      FoldMore(jobs.Lim(), decode, log, Call.DecodeError);
      Record(Call.DecodeError);
    }

    /** Keeps the job being read from eviction; no JID lets go of it. */
    method PinJob(jid: string)
      requires Valid()
      modifies this`log, jobs
      ensures Valid() && log == old(log) + [Call.PinJob(jid)]
    {
      jobs.SetPin(jid);
      FoldMore(jobs.Lim(), decode, log, Call.PinJob(jid));
      Record(Call.PinJob(jid));
    }

    /** What a render tick shows. It reads the clock for each window and each summary, and so rolls
        the rings forward; it changes nothing else. */
    method Snapshot(q: Query, limit: int, seconds: nat, minutes: nat, secSum: nat, minSum: nat) returns (view: View)
      requires Valid() && CompiledQuery(q) && -Scans.TWO63 <= limit < Scans.TWO63
      modifies this`log, rings, rings.secs, rings.mins
      ensures Valid() && log == old(log) + [Call.Snapshot(seconds, minutes, secSum, minSum)]
      ensures Shows(q, limit, view.shown)
      ensures view.connected == connected && view.decodeErrors == decodeErrors
      ensures ShowsSeconds(old(rings.log), seconds, view.seconds)
      ensures ShowsMinutes(old(rings.log), seconds, minutes, view.minutes)
    {
      var shown := Look(q, limit);
      var secs, mins := RollRings(seconds, minutes, secSum, minSum);
      view := View(shown, secs, mins, connected, decodeErrors);
    }

    method RollRings(seconds: nat, minutes: nat, secSum: nat, minSum: nat)
        returns (secs: seq<RingHistory.Bucket>, mins: seq<RingHistory.Bucket>)
      requires Valid()
      modifies this`log, rings, rings.secs, rings.mins
      ensures Valid() && log == old(log) + [Call.Snapshot(seconds, minutes, secSum, minSum)]
      ensures ShowsSeconds(old(rings.log), seconds, secs)
      ensures ShowsMinutes(old(rings.log), seconds, minutes, mins)
    {
      ghost var was := Told();
      secs, mins := LookAtRings(seconds, minutes, secSum, minSum);
      FeedLook(jobs.Lim(), decode, was, seconds, minutes, secSum, minSum);
      assert Told() == was.(ringOps := rings.log);
      FoldMore(jobs.Lim(), decode, log, Call.Snapshot(seconds, minutes, secSum, minSum));
      Record(Call.Snapshot(seconds, minutes, secSum, minSum));
    }

    ghost function CacheStats(): Caches.Stats
      reads cache
    {
      Caches.Stats(Caches.TotalSize(cache.events), cache.budget, |cache.events|, cache.shed, cache.dropped)
    }

    /** What is shown is what the cache and the index hold. */
    ghost predicate Shows(q: Query, limit: int, shown: Shown)
      reads cache, jobs
    {
      && Filtered(cache.events, q, limit, shown.events, shown.scanned) && shown.cache == CacheStats()
      && ListsJobs(jobs.ix, shown.jobs)
      && shown.jobStats
           == JobIndexes.IndexStats(|jobs.ix.entries|, jobs.maxJobs, jobs.ix.highWater, |jobs.ix.log|)
    }

    method Look(q: Query, limit: int) returns (shown: Shown)
      requires cache.Valid() && jobs.Valid() && CompiledQuery(q) && -Scans.TWO63 <= limit < Scans.TWO63
      ensures Shows(q, limit, shown)
    {
      var events, scanned := Filter(q, limit);
      var stats := cache.Readout();
      var listed := ListJobs();
      var jobStats := jobs.Readout();
      shown := Shown(events, scanned, stats, listed, jobStats);
    }

    method Filter(q: Query, limit: int) returns (events: seq<Event>, scanned: nat)
      requires cache.Valid() && CompiledQuery(q) && -Scans.TWO63 <= limit < Scans.TWO63
      ensures Filtered(cache.events, q, limit, events, scanned)
    {
      events, scanned := cache.Snapshot(Some(q), limit);
    }

    method ListJobs() returns (listed: seq<JobRow>)
      requires jobs.Valid()
      ensures ListsJobs(jobs.ix, listed)
    {
      var live := jobs.List(LIST_JOBS);
      listed := [];
      for i := 0 to |live|
        invariant |listed| == i
        invariant forall k :: 0 <= k < i ==> RowTells(listed[k], live[k].val)
      {
        RowIsTrue(live[i]);
        listed := listed + [RowOf(live[i])];
      }
    }

    method ReadSeconds(at: nat) returns (window: seq<RingHistory.Bucket>)
      requires rings.Valid()
      modifies rings, rings.secs, rings.mins
      ensures rings.Valid() && rings.log == old(rings.log) + [RingHistory.Poll(at)]
      ensures ShowsSeconds(old(rings.log), at, window)
    {
      window := rings.Seconds(at);
    }

    method ReadMinutes(at: nat) returns (window: seq<RingHistory.Bucket>)
      requires rings.Valid()
      modifies rings, rings.secs, rings.mins
      ensures rings.Valid() && rings.log == old(rings.log) + [RingHistory.Poll(at)]
      ensures window
                == Rings.WindowOf(rings.log, RingHistory.MINUTE, RingHistory.StateOf(rings.log, true).min,
                                  RingHistory.MINUTE_BUCKETS)
    {
      window := rings.Minutes(at);
    }

    method LookAtRings(seconds: nat, minutes: nat, secSum: nat, minSum: nat)
        returns (secs: seq<RingHistory.Bucket>, mins: seq<RingHistory.Bucket>)
      requires rings.Valid()
      modifies rings, rings.secs, rings.mins
      ensures rings.Valid() && rings.log == old(rings.log) +
        [RingHistory.Poll(seconds), RingHistory.Poll(minutes), RingHistory.Poll(secSum), RingHistory.Poll(minSum)]
      ensures ShowsSeconds(old(rings.log), seconds, secs)
      ensures ShowsMinutes(old(rings.log), seconds, minutes, mins)
    {
      ghost var was := rings.log;
      ghost var a, b := RingHistory.Poll(seconds), RingHistory.Poll(minutes);
      ghost var c, d := RingHistory.Poll(secSum), RingHistory.Poll(minSum);
      secs := ReadSeconds(seconds);
      mins := ReadMinutes(minutes);
      assert was + [a] + [b] == was + [a, b];
      rings.SyncToNow(secSum);
      rings.SyncToNow(minSum);
      assert was + [a, b] + [c] + [d] == was + [a, b, c, d];
    }

    /** A copy of one job, or why there is none. */
    method LookupJob(jid: string) returns (job: Option<JobVal>, why: Lookup)
      requires Valid()
      ensures why == LookUp(jobs.Lim(), jobs.ix, jid)
      ensures why == LookupFound ==> job.Some? && job.value.jid == jid
      ensures job.Some? ==> exists en <- jobs.ix.entries :: en.job == job.value
      ensures why != LookupFound ==> job == None && forall en <- jobs.ix.entries :: en.job.jid != jid
    {
      IndexSpec.FindIs(jobs.ix.entries, jid);
      var found;
      found, why := jobs.JobOf(jid);
      if found.None? {
        return None, why;
      }
      job := Some(found.value.val);
      assert jobs.ix.entries[IndexSpec.Find(jobs.ix.entries, jid)] in jobs.ix.entries;
    }

    /** Everything retained that the query chooses, oldest first, filtered where it was copied to. */
    method AllEvents(q: Query) returns (all: array<Event>, n: nat)
      requires CompiledQuery(q)
      ensures fresh(all) && n <= all.Length
      ensures all[..n] == Scans.Kept(cache.events, Caches.Marks(Some(q), cache.events), 0, |cache.events|)
    {
      all := cache.All();
      ghost var es, marks := cache.events, Caches.Marks(Some(q), cache.events);
      if q.terms == [] {
        n := all.Length;
        Caches.EmptyQueryKeepsAll(q, es, |es|);
        assert es[..|es|] == es;
        return;
      }
      n := Caches.Compact(Some(q), all, es, marks);
    }
  }
}
