/** The timed protocol seen through the hub: what the render ticks show of an outage that the reader
    reports, however ticks and reports interleave. */
module HubOutage {
  import opened Basics
  import opened RingHistory
  import HubLog
  import Hubs
  import IndexSpec
  import Outage
  import Reader
  import Rings

  /** One thing that happens to a console: the reader gets an answer and makes its calls on the hub, or
      a render tick reads the clock for each window and each summary. */
  datatype Beat =
    | Answered(input: Reader.Input, heard: seq<HubLog.Call>)
    | Rendered(seconds: nat, minutes: nat, secSum: nat, minSum: nat)

  /** A call of the reader as the hub hears it. */
  predicate Renders(c: Reader.Call, heard: HubLog.Call) {
    match c
    case Attached(up) => heard == HubLog.Attached(up)
    case Gap(from, to) => heard == HubLog.Gap(from, to)
    case Event(at) => heard.Event? && heard.e.at.arrival == at
    case DecodeError => heard.DecodeError?
    case Sleep(_) => false
  }

  /** The hub hears every call but the sleeps, in order. */
  predicate Hears(calls: seq<Reader.Call>, heard: seq<HubLog.Call>) {
    if calls == [] then heard == []
    else if calls[0].Sleep? then Hears(calls[1..], heard)
    else heard != [] && Renders(calls[0], heard[0]) && Hears(calls[1..], heard[1..])
  }

  function Looks(b: Beat): seq<Outage.Act>
    requires b.Rendered?
  {
    [Outage.Look(b.seconds), Outage.Look(b.minutes), Outage.Look(b.secSum), Outage.Look(b.minSum)]
  }

  /** What happens, as acts of the reader and the renderer. */
  function Acts(beats: seq<Beat>): seq<Outage.Act> {
    if beats == [] then []
    else
      var b := beats[|beats| - 1];
      Acts(beats[..|beats| - 1]) + if b.Answered? then [Outage.Answer(b.input)] else Looks(b)
  }

  /** What happens, as calls on the hub. */
  function Calls(beats: seq<Beat>): seq<HubLog.Call> {
    if beats == [] then []
    else
      var b := beats[|beats| - 1];
      Calls(beats[..|beats| - 1]) +
      if b.Answered? then b.heard else [HubLog.Snapshot(b.seconds, b.minutes, b.secSum, b.minSum)]
  }

  /** On every answer the hub hears just what the reader then does. */
  ghost predicate Session(beats: seq<Beat>) {
    beats == [] ||
    (var front, b := beats[..|beats| - 1], beats[|beats| - 1];
     && Session(front)
     && (b.Answered? ==> Hears(Reader.Step(Outage.Play(Acts(front)).reader, b.input).1, b.heard)))
  }

  // ---------------------------------------------------------------- the rings hear the same

  function RingShare(c: HubLog.Call): seq<Op> {
    match c
    case Event(e) => [Add(e.at.arrival)]
    case Gap(from, to) => [MarkGap(from, to)]
    case Snapshot(a, b, c, d) => [Poll(a), Poll(b), Poll(c), Poll(d)]
    case _ => []
  }

  /** What the rings hear of a list of calls on the hub. */
  function RingOps(log: seq<HubLog.Call>): seq<Op> {
    if log == [] then [] else RingOps(log[..|log| - 1]) + RingShare(log[|log| - 1])
  }

  lemma RingOpsMore(log: seq<HubLog.Call>, c: HubLog.Call)
    ensures RingOps(log + [c]) == RingOps(log) + RingShare(c)
  {
    assert (log + [c])[..|log|] == log;
  }

  lemma {:induction false} RingsHear(lim: IndexSpec.Limits, decode: Option<HubLog.Decoder>, log: seq<HubLog.Call>)
    ensures HubLog.Fold(lim, decode, log).ringOps == RingOps(log)
  {
    if log != [] {
      var front, c := log[..|log| - 1], log[|log| - 1];
      RingsHear(lim, decode, front);
      assert RingOps(front) + [] == RingOps(front);
    }
  }

  lemma HearOne(log: seq<HubLog.Call>, c: Reader.Call, first: HubLog.Call, fed: seq<Op>)
    requires Renders(c, first)
    ensures RingOps(log + [first]) + fed == RingOps(log) + (Outage.FedBy(c) + fed)
  {
    RingOpsMore(log, first);
    assert RingShare(first) == Outage.FedBy(c);
    Associates(RingOps(log), Outage.FedBy(c), fed);
  }

  /** The rings hear what the reader's calls feed them. */
  lemma {:induction false} HeardIsFed(log: seq<HubLog.Call>, calls: seq<Reader.Call>, heard: seq<HubLog.Call>)
    requires Hears(calls, heard)
    ensures RingOps(log + heard) == RingOps(log) + Outage.Fed(calls)
    decreases |calls|
  {
    if calls == [] {
      assert log + heard == log;
      assert RingOps(log) + [] == RingOps(log);
    } else if calls[0].Sleep? {
      HeardIsFed(log, calls[1..], heard);
      SleepFeedsNothing(calls);
    } else {
      HeardIsFed(log + [heard[0]], calls[1..], heard[1..]);
      Associates(log, [heard[0]], heard[1..]);
      assert [heard[0]] + heard[1..] == heard;
      HearOne(log, calls[0], heard[0], Outage.Fed(calls[1..]));
    }
  }

  lemma SleepFeedsNothing(calls: seq<Reader.Call>)
    requires calls != [] && calls[0].Sleep?
    ensures Outage.Fed(calls) == Outage.Fed(calls[1..])
  {
    assert Outage.FedBy(calls[0]) == [];
    assert [] + Outage.Fed(calls[1..]) == Outage.Fed(calls[1..]);
  }

  lemma PlayOne(acts: seq<Outage.Act>, a: Outage.Act)
    ensures Outage.Play(acts + [a]) == Outage.Do(Outage.Play(acts), a)
  {
    assert (acts + [a])[..|acts|] == acts;
  }

  lemma PlayLooks(acts: seq<Outage.Act>, b: Beat)
    requires b.Rendered?
    ensures Outage.Play(acts + Looks(b)).log ==
              Outage.Play(acts).log + [Poll(b.seconds), Poll(b.minutes), Poll(b.secSum), Poll(b.minSum)]
    ensures Outage.Play(acts + Looks(b)).reader == Outage.Play(acts).reader
  {
    var p, q, r, t := Outage.Look(b.seconds), Outage.Look(b.minutes), Outage.Look(b.secSum), Outage.Look(b.minSum);
    PlayOne(acts, p);
    PlayOne(acts + [p], q);
    PlayOne(acts + [p] + [q], r);
    PlayOne(acts + [p] + [q] + [r], t);
    assert acts + Looks(b) == acts + [p] + [q] + [r] + [t];
  }

  /** The hub's rings have heard exactly what the reader and the render ticks did. */
  lemma {:induction false} HubHearsTheSession(beats: seq<Beat>)
    requires Session(beats)
    ensures RingOps(Calls(beats)) == Outage.Play(Acts(beats)).log
  {
    if beats != [] {
      var front, b := beats[..|beats| - 1], beats[|beats| - 1];
      HubHearsTheSession(front);
      if b.Answered? {
        HeardIsFed(Calls(front), Reader.Step(Outage.Play(Acts(front)).reader, b.input).1, b.heard);
        PlayOne(Acts(front), Outage.Answer(b.input));
      } else {
        RingOpsMore(Calls(front), HubLog.Snapshot(b.seconds, b.minutes, b.secSum, b.minSum));
        PlayLooks(Acts(front), b);
      }
    }
  }

  // ---------------------------------------------------------------- what a tick shows

  /** In a window whose newest bucket is `head`, no cell since `lostAt` is an honest-looking zero. */
  ghost predicate NoZeroSince(window: seq<Bucket>, head: int, g: Grid, lostAt: nat)
    requires ValidGrid(g)
  {
    && |window| == g.size
    && forall k :: 0 <= k < g.size && head - (g.size - 1 - k) >= BucketAt(lostAt, g.width) ==>
         window[k] != Rings.ZERO
  }

  /** While the reader is reporting an outage, a render tick that comes in time shows no second and no
      minute since the loss of the connection as a zero. `h` is the hub as the tick finds it, and
      `secs` and `mins` what its snapshot returns. */
  lemma OutageIsRendered(h: Hubs.Hub, beats: seq<Beat>, seconds: nat, minutes: nat, secs: seq<Bucket>,
      mins: seq<Bucket>)
    requires h.Valid() && h.log == Calls(beats) && Session(beats)
    requires Outage.Play(Acts(beats)).report.Some?
    requires Outage.TimelyRun(Acts(beats) + [Outage.Look(seconds)] + [Outage.Look(minutes)])
    requires Hubs.ShowsSeconds(h.rings.log, seconds, secs) && Hubs.ShowsMinutes(h.rings.log, seconds, minutes, mins)
    ensures var lostAt := Outage.Play(Acts(beats)).reader.lostAt;
            && NoZeroSince(secs, BucketAt(seconds, SECOND), SECONDS, lostAt)
            && NoZeroSince(mins, BucketAt(minutes, MINUTE), MINUTES, lostAt)
  {
    var acts, p, q := Acts(beats), Outage.Look(seconds), Outage.Look(minutes);
    HubHearsTheSession(beats);
    RingsHear(h.jobs.Lim(), h.decode, h.log);
    assert h.Told() == HubLog.Fold(h.jobs.Lim(), h.decode, h.log);
    var ops := h.rings.log;
    assert ops == Outage.Play(acts).log;
    assert (acts + [p] + [q])[..|acts + [p]|] == acts + [p];
    PlayOne(acts, p);
    PlayOne(acts + [p], q);
    Outage.OutageNeverReadsAsQuiet(acts, seconds);
    Outage.OutageNeverReadsAsQuiet(acts + [p], minutes);
    SecondsShowIt(ops, seconds, secs, Outage.Play(acts).reader.lostAt);
    MinutesShowIt(ops, seconds, minutes, mins, Outage.Play(acts).reader.lostAt);
  }

  lemma SecondsShowIt(ops: seq<Op>, at: nat, secs: seq<Bucket>, lostAt: nat)
    requires Hubs.ShowsSeconds(ops, at, secs) && Outage.ShowsNoZeroSince(ops + [Poll(at)], SECONDS, lostAt)
    ensures NoZeroSince(secs, BucketAt(at, SECOND), SECONDS, lostAt)
  {
    var seen := ops + [Poll(at)];
    HistoryIsSane(seen, true, SECONDS);
    assert seen[|ops|] == Poll(at);
    assert NoZeroSince(secs, StateOf(seen, true).sec.epoch, SECONDS, lostAt);
  }

  lemma MinutesShowIt(ops: seq<Op>, before: nat, at: nat, mins: seq<Bucket>, lostAt: nat)
    requires Hubs.ShowsMinutes(ops, before, at, mins)
    requires Outage.ShowsNoZeroSince(ops + [Poll(before)] + [Poll(at)], MINUTES, lostAt)
    ensures NoZeroSince(mins, BucketAt(at, MINUTE), MINUTES, lostAt)
  {
    var seen := ops + [Poll(before), Poll(at)];
    assert ops + [Poll(before)] + [Poll(at)] == seen;
    HistoryIsSane(seen, true, MINUTES);
    assert seen[|ops| + 1] == Poll(at);
    assert NoZeroSince(mins, StateOf(seen, true).min.epoch, MINUTES, lostAt);
  }
}
