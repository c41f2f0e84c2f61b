/** The timed protocol between the reader, which reports an outage, the rings, which extrapolate
    the last report, and a renderer that polls the windows at any phase of the clock. */
module Outage {
  import opened Basics
  import opened RingHistory
  import opened RingClaims
  import Reader
  import ReaderTrace
  import Rings

  /** Either the outside world answers the reader, or the renderer reads the windows. */
  datatype Act = Answer(input: Reader.Input) | Look(now: nat)

  /** The reader, the calls the rings have received, the latest clock reading, and the time of the
      last report while an outage is being reported. */
  datatype World = World(reader: Reader.State, log: seq<Op>, clock: nat, report: Option<nat>)

  const BEGIN := World(Reader.START, [], 0, None)

  /** What reaches the rings of what the reader does. */
  function Fed(calls: seq<Reader.Call>): seq<Op> {
    if calls == [] then [] else FedBy(calls[0]) + Fed(calls[1..])
  }

  function FedBy(c: Reader.Call): seq<Op> {
    match c
    case Gap(from, to) => [MarkGap(from, to)]
    case Event(at) => [Add(at)]
    case _ => []
  }

  function ActTime(a: Act): Option<nat> {
    match a
    case Look(now) => Some(now)
    case Answer(input) => if ReaderTrace.HasTime(input) then Some(input.now) else None
  }

  /** All parties share a clock that never goes back, and while an outage is being reported the next
      thing to happen, be it a slice of the wait, a dial or a look, comes before the report expires. */
  predicate Timely(w: World, a: Act) {
    var t := ActTime(a);
    t.Some? ==> w.clock <= t.value && (w.report.Some? ==> t.value <= w.report.value + GAP_VALIDITY)
  }

  /** While the reader is down and has said so, the time it last said it. */
  function ReportAfter(w: World, next: Reader.State, calls: seq<Op>): Option<nat> {
    if next.phase.Reading? || next.phase.Stopped? then None
    else if calls != [] && calls[|calls| - 1].MarkGap? then Some(calls[|calls| - 1].to)
    else w.report
  }

  function Do(w: World, a: Act): World {
    match a
    case Look(now) => w.(log := w.log + [Poll(now)], clock := now)
    case Answer(input) =>
      var (next, calls) := Reader.Step(w.reader, input);
      var fed := Fed(calls);
      World(next, w.log + fed, if ActTime(a).Some? then ActTime(a).value else w.clock, ReportAfter(w, next, fed))
  }

  function Play(acts: seq<Act>): World {
    if acts == [] then BEGIN else Do(Play(acts[..|acts| - 1]), acts[|acts| - 1])
  }

  predicate TimelyRun(acts: seq<Act>) {
    acts == [] || (TimelyRun(acts[..|acts| - 1]) && Timely(Play(acts[..|acts| - 1]), acts[|acts| - 1]))
  }

  /** How late a timer may wake the reader, and how long a dial may take. */
  const LATENESS: nat := GAP_VALIDITY - GAP_REPORT_INTERVAL
  const DIAL_LIMIT: nat := GAP_VALIDITY

  /** What the reader is doing when it has just reported ends in time: a slice of the wait, give or
      take the lateness of a timer, or a dial. */
  predicate Prompt(w: World, a: Act) {
    var t := ActTime(a);
    t.Some? ==>
      && w.clock <= t.value
      && (w.report.Some? ==>
            t.value <= w.report.value +
              if w.reader.phase.Waiting?
              then Min(w.reader.phase.remaining, Reader.GAP_REFRESH) + LATENESS
              else DIAL_LIMIT)
  }

  predicate PromptRun(acts: seq<Act>) {
    acts == [] || (PromptRun(acts[..|acts| - 1]) && Prompt(Play(acts[..|acts| - 1]), acts[|acts| - 1]))
  }

  /** Slices of a quarter second and dials of at most half a second keep every report valid until the next. */
  lemma {:induction false} PromptIsTimely(acts: seq<Act>)
    requires PromptRun(acts)
    ensures TimelyRun(acts)
  {
    if acts != [] {
      PromptIsTimely(acts[..|acts| - 1]);
    }
  }

  /** While an outage is being reported, everything since the loss of the connection is covered. */
  ghost predicate Inv(w: World) {
    var s := StateOf(w.log, true);
    && Behind(s, w.clock)
    && (w.reader.phase.Reading? || w.reader.phase.Stopped? ==> w.report.None?)
    && (w.reader.phase.Waiting? ==> w.reader.connected)
    && (w.report.Some? ==>
          && w.reader.connected
          && Covered(w.log, s, SECONDS, w.reader.lostAt, w.report.value)
          && Covered(w.log, s, MINUTES, w.reader.lostAt, w.report.value))
  }

  lemma FedCons(c: Reader.Call, rest: seq<Reader.Call>)
    ensures Fed([c] + rest) == FedBy(c) + Fed(rest)
  {
    assert ([c] + rest)[1..] == rest;
  }

  lemma FedReport(s: Reader.State, remaining: int, now: nat)
    ensures Fed(Reader.Report(s, remaining, now).1) == [MarkGap(s.lostAt, now)]
  {
    var gap := Reader.Gap(s.lostAt, now);
    FedCons(gap, []);
    assert [gap] + [] == [gap];
    if remaining > 0 {
      var slice := Reader.Sleep(Min(remaining, Reader.GAP_REFRESH));
      FedCons(gap, [slice]);
      FedCons(slice, []);
      assert [slice] + [] == [slice] && [gap] + [slice] == [gap, slice];
    }
  }

  /** Each answer makes the reader feed the rings at most one call, stamped with that answer's time. */
  lemma FedByStep(s: Reader.State, input: Reader.Input)
    ensures var (next, calls) := Reader.Step(s, input);
            Fed(calls) == [] ||
            (input.FrameRead? && s.phase.Reading? && Fed(calls) == [Add(input.now)]) ||
            (input.DialOk? && s.phase.Dialing? && s.connected && Fed(calls) == [MarkGap(s.lostAt, input.now)]) ||
            (((input.DialFailed? && s.phase.Dialing? && s.connected) || (input.Woke? && s.phase.Waiting?)) &&
             Fed(calls) == [MarkGap(s.lostAt, input.now)] && next.lostAt == s.lostAt && next.connected == s.connected)
  {
    match s.phase
    case Dialing =>
      if input.DialFailed? && s.connected {
        FedReport(s, s.backoff, input.now);
        FedCons(Reader.Attached(false), Reader.Report(s, s.backoff, input.now).1);
      } else if input.DialOk? && s.connected {
        FedCons(Reader.Attached(true), [Reader.Gap(s.lostAt, input.now)]);
        FedCons(Reader.Gap(s.lostAt, input.now), []);
        assert [Reader.Gap(s.lostAt, input.now)] + [] == [Reader.Gap(s.lostAt, input.now)];
      } else if input.DialOk? {
        FedCons(Reader.Attached(true), []);
      }
    case Waiting(remaining) =>
      if input.Woke? {
        FedReport(s, remaining - Reader.GAP_REFRESH, input.now);
      }
    case Reading =>
    case Stopped(_) =>
  }

  lemma {:induction false} PlayIsCovered(acts: seq<Act>)
    requires TimelyRun(acts)
    ensures Inv(Play(acts))
  {
    if acts != [] {
      var before := acts[..|acts| - 1];
      PlayIsCovered(before);
      DoIsCovered(Play(before), acts[|acts| - 1]);
    }
  }

  lemma LookIsCovered(w: World, now: nat)
    requires Inv(w) && Timely(w, Look(now))
    ensures Inv(Do(w, Look(now)))
  {
    var s := StateOf(w.log, true);
    StateMore(w.log, Poll(now), true);
    StepIsBehind(w.log, s, Poll(now), w.clock);
    if w.report.Some? {
      PollKeepsCovered(w.log, s, SECONDS, w.reader.lostAt, w.report.value, now);
      PollKeepsCovered(w.log, s, MINUTES, w.reader.lostAt, w.report.value, now);
    }
  }

  /** A report, whether it opens, continues or closes an outage. */
  lemma ReportIsCovered(w: World, now: nat)
    requires Inv(w) && w.clock <= now
    ensures var log, lostAt := w.log + [MarkGap(w.reader.lostAt, now)], w.reader.lostAt;
            && Behind(StateOf(log, true), now)
            && Covered(log, StateOf(log, true), SECONDS, lostAt, now)
            && Covered(log, StateOf(log, true), MINUTES, lostAt, now)
  {
    var s, op := StateOf(w.log, true), MarkGap(w.reader.lostAt, now);
    StateMore(w.log, op, true);
    StepIsBehind(w.log, s, op, w.clock);
    HistoryIsSane(w.log, true, SECONDS);
    HistoryIsSane(w.log, true, MINUTES);
    StillBehind(s, w.clock, now);
    ReportCovers(w.log, s, SECONDS, w.reader.lostAt, now);
    ReportCovers(w.log, s, MINUTES, w.reader.lostAt, now);
  }

  lemma StillBehind(s: Hist, t: nat, now: nat)
    requires Behind(s, t) && t <= now
    ensures Behind(s, now)
  {
    BucketMono(t, now, SECONDS);
    BucketMono(t, now, MINUTES);
  }

  /** An answer that reaches the rings with nothing leaves them as they were. */
  lemma SilenceIsCovered(w: World, input: Reader.Input)
    requires Inv(w) && Timely(w, Answer(input)) && Fed(Reader.Step(w.reader, input).1) == []
    ensures Inv(Do(w, Answer(input)))
  {
    assert w.log + [] == w.log;
    var t := ActTime(Answer(input));
    if t.Some? {
      StillBehind(StateOf(w.log, true), w.clock, t.value);
    }
  }

  lemma EventIsCovered(w: World, now: nat)
    requires Inv(w) && Timely(w, Answer(Reader.FrameRead(now))) && w.reader.phase.Reading?
    ensures Inv(Do(w, Answer(Reader.FrameRead(now))))
  {
    FedByStep(w.reader, Reader.FrameRead(now));
    StateMore(w.log, Add(now), true);
    StepIsBehind(w.log, StateOf(w.log, true), Add(now), w.clock);
  }

  lemma DoIsCovered(w: World, a: Act)
    requires Inv(w) && Timely(w, a)
    ensures Inv(Do(w, a))
  {
    match a
    case Look(now) => LookIsCovered(w, now);
    case Answer(input) =>
      FedByStep(w.reader, input);
      if Fed(Reader.Step(w.reader, input).1) == [] {
        SilenceIsCovered(w, input);
      } else if input.FrameRead? {
        EventIsCovered(w, input.now);
      } else {
        ReportIsCovered(w, input.now);
      }
  }

  // ---------------------------------------------------------------- what the renderer sees

  /** An outage is being reported from its first failed dial on, and stays so until the reader
      reconnects or gives up; the start it names does not change. */
  lemma ReportedUntilReconnected(w: World, a: Act)
    ensures w.reader.phase.Dialing? && w.reader.connected && a.Answer? && a.input.DialFailed? ==>
              Do(w, a).report == Some(a.input.now)
    ensures w.report.Some? && !w.reader.phase.Reading? && !w.reader.phase.Stopped?
            && !(a.Answer? && (a.input.DialOk? || a.input.WrongSocket? || a.input.Cancelled?)) ==>
              (w.reader.connected ==> Do(w, a).report.Some? && Do(w, a).reader.lostAt == w.reader.lostAt)
  {
    if a.Answer? {
      FedByStep(w.reader, a.input);
    }
  }

  /** In the window shown, no bucket since `lostAt` is an honest-looking zero. */
  ghost predicate ShowsNoZeroSince(log: seq<Op>, g: Grid, lostAt: nat)
    requires ValidGrid(g)
  {
    var tr := TrackOf(StateOf(log, true), g);
    forall k :: 0 <= k < g.size && tr.epoch - (g.size - 1 - k) >= BucketAt(lostAt, g.width) ==>
      Rings.WindowOf(log, g.width, tr, g.size)[k] != Rings.ZERO
  }

  /** From an outage's first report until the reader reconnects, however the waits, dials and looks
      interleave and at whatever phase of the clock, every look finds every visible second and minute
      since the loss of the connection either busy or flagged as a gap. */
  lemma OutageNeverReadsAsQuiet(acts: seq<Act>, now: nat)
    requires TimelyRun(acts + [Look(now)]) && Play(acts).report.Some?
    ensures var w := Play(acts + [Look(now)]);
            && w.reader == Play(acts).reader
            && ShowsNoZeroSince(w.log, SECONDS, w.reader.lostAt)
            && ShowsNoZeroSince(w.log, MINUTES, w.reader.lostAt)
  {
    assert (acts + [Look(now)])[..|acts|] == acts;
    PlayIsCovered(acts + [Look(now)]);
    var w := Play(acts + [Look(now)]);
    CoveredShowsNoZero(w.log, SECONDS, w.reader.lostAt);
    CoveredShowsNoZero(w.log, MINUTES, w.reader.lostAt);
  }

  lemma CoveredShowsNoZero(log: seq<Op>, g: Grid, lostAt: nat)
    requires ValidGrid(g) && NoFalseZero(log, StateOf(log, true), g, lostAt)
    ensures ShowsNoZeroSince(log, g, lostAt)
  {
    var tr := TrackOf(StateOf(log, true), g);
    forall k | 0 <= k < g.size && tr.epoch - (g.size - 1 - k) >= BucketAt(lostAt, g.width)
      ensures Rings.WindowOf(log, g.width, tr, g.size)[k] != Rings.ZERO
    {
      var b := tr.epoch - (g.size - 1 - k);
      assert Visible(tr, g, b);
      assert Rings.WindowOf(log, g.width, tr, g.size)[k] == Rings.Expected(log, g.width, tr.gaps, b);
    }
  }

  /** No report ends later than `last`. */
  ghost predicate ReportsBy(log: seq<Op>, last: nat) {
    forall i :: 0 <= i < |log| && log[i].MarkGap? ==> log[i].to <= last
  }

  /** Bucket `k` of the window shown begins more than the validity of a report after `last`, and
      nothing was counted in it. */
  ghost predicate QuietSince(log: seq<Op>, g: Grid, k: nat, last: nat)
    requires ValidGrid(g) && k < g.size
  {
    var b := TrackOf(StateOf(log, true), g).epoch - (g.size - 1 - k);
    b * g.width > last + GAP_VALIDITY && Count(log, g.width, b) == 0
  }

  ghost predicate ShowsZero(log: seq<Op>, g: Grid, k: nat)
    requires ValidGrid(g) && k < g.size
  {
    Rings.WindowOf(log, g.width, TrackOf(StateOf(log, true), g), g.size)[k] == Rings.ZERO
  }

  /** Once the reports have stopped, a look shows an honest zero for every quiet bucket that begins
      more than the validity of the last report later: less than one bucket after it. */
  lemma QuietReadsAsQuiet(log: seq<Op>, g: Grid, k: nat, last: nat)
    requires ValidGrid(g) && k < g.size && ReportsBy(log, last) && QuietSince(log, g, k, last)
    ensures ShowsZero(log, g, k)
  {
    var tr := TrackOf(StateOf(log, true), g);
    var b := tr.epoch - (g.size - 1 - k);
    QuietAfterTheLastReport(log, true, g, b);
    assert Rings.WindowOf(log, g.width, tr, g.size)[k] ==
             if b >= 0 then Rings.Expected(log, g.width, tr.gaps, b) else Rings.ZERO;
  }

  // ---------------------------------------------------------------- after the reconnection

  /** No report is stamped later than the clock. */
  lemma {:induction false} ReportsAreNotAhead(acts: seq<Act>)
    requires TimelyRun(acts)
    ensures ReportsBy(Play(acts).log, Play(acts).clock)
  {
    if acts != [] {
      var before, a := acts[..|acts| - 1], acts[|acts| - 1];
      ReportsAreNotAhead(before);
      if a.Answer? {
        FedByStep(Play(before).reader, a.input);
      }
    }
  }

  /** The reader holds the connection all through `later`. */
  predicate StaysConnected(acts: seq<Act>, later: seq<Act>) {
    && Play(acts + later).reader.phase.Reading?
    && (later == [] || StaysConnected(acts, later[..|later| - 1]))
  }

  /** While the reader holds a connection, no report is made. */
  lemma {:induction false} NoReportsWhileConnected(acts: seq<Act>, later: seq<Act>)
    requires TimelyRun(acts) && StaysConnected(acts, later)
    ensures ReportsBy(Play(acts + later).log, Play(acts).clock)
  {
    if later == [] {
      ReportsAreNotAhead(acts);
      assert acts + later == acts;
    } else {
      var front, a := later[..|later| - 1], later[|later| - 1];
      NoReportsWhileConnected(acts, front);
      assert (acts + later)[..|acts + later| - 1] == acts + front;
      if a.Answer? {
        FedByStep(Play(acts + front).reader, a.input);
      }
    }
  }

  /** Once the reader has reconnected, and while it stays so, a quiet bucket that begins more than the
      validity after the reconnection shows as a zero: a reconnected but quiet master is not an outage. */
  lemma ReconnectedReadsAsQuiet(acts: seq<Act>, later: seq<Act>, log: seq<Op>, g: Grid, k: nat)
    requires ValidGrid(g) && k < g.size && TimelyRun(acts) && StaysConnected(acts, later)
    requires log == Play(acts + later).log && QuietSince(log, g, k, Play(acts).clock)
    ensures ShowsZero(log, g, k)
  {
    NoReportsWhileConnected(acts, later);
    QuietReadsAsQuiet(log, g, k, Play(acts).clock);
  }

  // ---------------------------------------------------------------- a past outage stays shown

  lemma {:induction false} LogGrows(acts: seq<Act>, later: seq<Act>)
    ensures Play(acts).log <= Play(acts + later).log
  {
    if later == [] {
      assert acts + later == acts;
    } else {
      LogGrows(acts, later[..|later| - 1]);
      assert (acts + later)[..|acts + later| - 1] == acts + later[..|later| - 1];
    }
  }

  /** In the window shown, no bucket from `lostAt` to `until` is an honest-looking zero. */
  ghost predicate ShowsNoZeroBetween(log: seq<Op>, g: Grid, lostAt: nat, until: nat)
    requires ValidGrid(g)
  {
    var tr := TrackOf(StateOf(log, true), g);
    forall k ::
      0 <= k < g.size && BucketAt(lostAt, g.width) <= tr.epoch - (g.size - 1 - k) <= BucketAt(until, g.width) ==>
      Rings.WindowOf(log, g.width, tr, g.size)[k] != Rings.ZERO
  }

  lemma NamedShowsNoZero(log: seq<Op>, g: Grid, i: int)
    requires ValidGrid(g) && 0 <= i < |log| && log[i].MarkGap?
    ensures ShowsNoZeroBetween(log, g, log[i].from, log[i].to)
  {
    var tr := TrackOf(StateOf(log, true), g);
    var first, last := BucketAt(log[i].from, g.width), BucketAt(log[i].to, g.width);
    forall k | 0 <= k < g.size && first <= tr.epoch - (g.size - 1 - k) <= last
      ensures Rings.WindowOf(log, g.width, tr, g.size)[k] != Rings.ZERO
    {
      var b := tr.epoch - (g.size - 1 - k);
      assert Names(log, g, i, b);
      NamedStaysKnown(log, g, i, b);
      assert Rings.WindowOf(log, g.width, tr, g.size)[k] == Rings.Expected(log, g.width, tr.gaps, b);
    }
  }

  /** Once the reader has reconnected at `now`, whatever happens after, no bucket shown from the loss of
      the connection to `now` is ever a zero: the whole outage stays visible as one. */
  lemma PastOutageStaysShown(acts: seq<Act>, now: nat, later: seq<Act>, g: Grid)
    requires ValidGrid(g) && Play(acts).reader.phase.Dialing? && Play(acts).reader.connected
    ensures ShowsNoZeroBetween(Play(acts + [Answer(Reader.DialOk(now))] + later).log, g, Play(acts).reader.lostAt, now)
  {
    var w, a := Play(acts), Answer(Reader.DialOk(now));
    assert (acts + [a])[..|acts|] == acts;
    FedByStep(w.reader, Reader.DialOk(now));
    LogGrows(acts + [a], later);
    FedReconnect(w.reader, now);
    assert Play(acts + [a]).log == w.log + [MarkGap(w.reader.lostAt, now)];
    NamedShowsNoZero(Play(acts + [a] + later).log, g, |w.log|);
  }

  lemma FedReconnect(s: Reader.State, now: nat)
    requires s.phase.Dialing? && s.connected
    ensures Fed(Reader.Step(s, Reader.DialOk(now)).1) == [MarkGap(s.lostAt, now)]
  {
    FedCons(Reader.Attached(true), [Reader.Gap(s.lostAt, now)]);
    FedCons(Reader.Gap(s.lostAt, now), []);
    assert [Reader.Gap(s.lostAt, now)] + [] == [Reader.Gap(s.lostAt, now)];
  }
}
