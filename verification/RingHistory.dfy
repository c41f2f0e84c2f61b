/** What the rate rings of `internal/stats/rings.go` remember, over an unbounded history of calls:
    no arrays, no modular indices. Times are nanoseconds since the Unix epoch. */
module RingHistory {
  import opened Basics

  const SECOND: nat := 1_000_000_000
  const MINUTE: nat := 60_000_000_000
  const GAP_VALIDITY: nat := 500_000_000
  const GAP_REPORT_INTERVAL: nat := 250_000_000
  const SECOND_BUCKETS: nat := 120
  const MINUTE_BUCKETS: nat := 60

  /** One cell of a window: a count, or the flag that nothing could be seen. */
  datatype Bucket = Bucket(count: nat, gap: bool)

  /** One call on the rings: an event, a reported outage window, or a reader of the windows. */
  datatype Op = Add(t: nat) | MarkGap(from: nat, to: nat) | Poll(now: nat)

  function TimeOf(op: Op): nat {
    match op
    case Add(t) => t
    case MarkGap(_, to) => to
    case Poll(now) => now
  }

  /** One of the two histories: the newest bucket and the buckets flagged as gaps. */
  datatype Track = Track(epoch: int, gaps: set<int>)

  datatype Hist = Hist(started: bool, sec: Track, min: Track, gapOpen: bool, gapThrough: nat)

  const EMPTY := Hist(false, Track(0, {}), Track(0, {}), false, 0)

  /** The width and the number of visible buckets of a track. */
  datatype Grid = Grid(width: nat, size: nat)

  const SECONDS := Grid(SECOND, SECOND_BUCKETS)
  const MINUTES := Grid(MINUTE, MINUTE_BUCKETS)

  predicate ValidGrid(g: Grid) {
    g == SECONDS || g == MINUTES
  }

  function TrackOf(s: Hist, g: Grid): Track {
    if g == SECONDS then s.sec else s.min
  }

  /** The bucket of width `w` that time `t` falls in. */
  function BucketAt(t: nat, w: nat): nat
    requires w > 0
  {
    t / w
  }

  /** How many events of the log arrived in bucket `b`. */
  function Count(log: seq<Op>, w: nat, b: int): nat
    requires w > 0
  {
    if log == [] then 0
    else
      var op := log[|log| - 1];
      Count(log[..|log| - 1], w, b) + if op.Add? && BucketAt(op.t, w) == b then 1 else 0
  }

  /** The events of the log that arrived while bucket `b` lasted. */
  ghost function Arrivals(log: seq<Op>, w: nat, b: int): set<nat> {
    set i: nat | i < |log| && log[i].Add? && b * w <= log[i].t < (b + 1) * w
  }

  lemma InBucket(t: nat, w: nat, b: int)
    requires w > 0
    ensures BucketAt(t, w) == b <==> b * w <= t < (b + 1) * w
  {
    var q := t / w;
    assert q * w + t % w == t;
    TimesAdd(q, 1, w);
    if b < 0 {
      NegativeProduct(b + 1, w);
    } else {
      TimesAdd(b, 1, w);
      TimesMono(w, b + 1, q);
      TimesMono(w, q + 1, b);
    }
  }

  lemma NegativeProduct(b: int, w: nat)
    requires b <= 0
    ensures b * w <= 0
  {}

  lemma ArrivalsMore(log: seq<Op>, op: Op, w: nat, b: int)
    requires w > 0
    ensures |Arrivals(log + [op], w, b)| == |Arrivals(log, w, b)| + if op.Add? && BucketAt(op.t, w) == b then 1 else 0
  {
    var n, all := |log|, log + [op];
    assert all[n] == op && forall i :: 0 <= i < n ==> all[i] == log[i];
    if op.Add? {
      InBucket(op.t, w, b);
    }
    if op.Add? && BucketAt(op.t, w) == b {
      assert Arrivals(all, w, b) == Arrivals(log, w, b) + {n};
    } else {
      assert Arrivals(all, w, b) == Arrivals(log, w, b);
    }
  }

  /** Every event is counted once, in the bucket during which it arrived. */
  lemma {:induction false} CountIsArrivals(log: seq<Op>, w: nat, b: int)
    requires w > 0
    ensures Count(log, w, b) == |Arrivals(log, w, b)|
  {
    if log != [] {
      var front, op := log[..|log| - 1], log[|log| - 1];
      assert log == front + [op];
      CountIsArrivals(front, w, b);
      ArrivalsMore(front, op, w, b);
    }
  }

  /** Bucket `head` is the last that the clock has been seen to reach. */
  ghost predicate IsHead(log: seq<Op>, w: nat, head: int) {
    && (forall i :: 0 <= i < |log| ==> TimeOf(log[i]) < (head + 1) * w)
    && exists i :: 0 <= i < |log| && head * w <= TimeOf(log[i])
  }

  /** A bucket opens as a gap when the last report still describes the instant it begins. */
  predicate OpensAsGap(s: Hist, w: nat, b: int) {
    s.gapOpen && b * w <= s.gapThrough + GAP_VALIDITY
  }

  /** Rolling a track forward opens every bucket passed into; in bulk, past a whole ring at once,
      only the new head is looked at. */
  function Opened(s: Hist, tr: Track, to: int, g: Grid, bulk: bool): set<int> {
    if bulk && to - tr.epoch >= g.size
    then set b | to <= b <= to && OpensAsGap(s, g.width, b)
    else set b | tr.epoch < b <= to && OpensAsGap(s, g.width, b)
  }

  function Roll(s: Hist, tr: Track, to: int, g: Grid, bulk: bool): Track {
    if to <= tr.epoch then tr else Track(to, tr.gaps + Opened(s, tr, to, g, bulk))
  }

  function Advance(s: Hist, t: nat, bulk: bool): Hist {
    if !s.started
    then s.(started := true, sec := Track(BucketAt(t, SECOND), {}), min := Track(BucketAt(t, MINUTE), {}))
    else s.(sec := Roll(s, s.sec, BucketAt(t, SECOND), SECONDS, bulk),
            min := Roll(s, s.min, BucketAt(t, MINUTE), MINUTES, bulk))
  }

  function Hit(tr: Track, b: int): Track {
    tr.(gaps := tr.gaps - {b})
  }

  /** The buckets of a reported window in which nothing was seen. */
  function Quiet(log: seq<Op>, w: nat, from: int, to: int): set<int>
    requires w > 0
  {
    set b | from <= b <= to && Count(log, w, b) == 0
  }

  function Mark(log: seq<Op>, tr: Track, w: nat, from: nat, to: nat): Track
    requires w > 0
  {
    tr.(gaps := tr.gaps + Quiet(log, w, BucketAt(from, w), BucketAt(to, w)))
  }

  /** The effect of one call, after the log of the calls before it. `bulk` is how the code rolls
      forward; without it every bucket passed is opened one by one, which is the ideal. */
  function Step(log: seq<Op>, s: Hist, op: Op, bulk: bool): Hist {
    var a := Advance(s, TimeOf(op), bulk);
    match op
    case Poll(_) => a
    case Add(t) => a.(gapOpen := false, sec := Hit(a.sec, BucketAt(t, SECOND)), min := Hit(a.min, BucketAt(t, MINUTE)))
    case MarkGap(from, to) =>
      var through := if !a.gapOpen || to > a.gapThrough then to else a.gapThrough;
      a.(gapOpen := true, gapThrough := through,
         sec := Mark(log, a.sec, SECOND, from, to), min := Mark(log, a.min, MINUTE, from, to))
  }

  function StateOf(log: seq<Op>, bulk: bool): Hist {
    if log == [] then EMPTY
    else Step(log[..|log| - 1], StateOf(log[..|log| - 1], bulk), log[|log| - 1], bulk)
  }

  /** A bucket is visible when it is among the newest `size` of its track. */
  predicate Visible(tr: Track, g: Grid, b: int) {
    tr.epoch - g.size < b <= tr.epoch
  }

  // ---------------------------------------------------------------- what every history keeps

  /** The head of a track has seen every call, and nothing is known past it. */
  ghost predicate Sane(log: seq<Op>, s: Hist, g: Grid)
    requires ValidGrid(g)
  {
    var tr := TrackOf(s, g);
    && (s.started <==> log != [])
    && (s.gapOpen ==> s.started && BucketAt(s.gapThrough, g.width) <= tr.epoch)
    && (forall b :: b in tr.gaps ==> b <= tr.epoch)
    && (s.started ==> tr.epoch >= 0)
    && (!s.started ==> tr.gaps == {})
    && (forall i :: 0 <= i < |log| ==> BucketAt(TimeOf(log[i]), g.width) <= tr.epoch)
  }

  lemma {:induction false} HistoryIsSane(log: seq<Op>, bulk: bool, g: Grid)
    requires ValidGrid(g)
    ensures Sane(log, StateOf(log, bulk), g)
  {
    if log != [] {
      var before := log[..|log| - 1];
      HistoryIsSane(before, bulk, g);
      StepIsSane(before, StateOf(before, bulk), log[|log| - 1], bulk, g);
      assert log == before + [log[|log| - 1]];
    }
  }

  /** Rolling forward to a call's time: the head has seen that call too. */
  lemma AdvanceIsSane(log: seq<Op>, s: Hist, op: Op, bulk: bool, g: Grid)
    requires ValidGrid(g) && Sane(log, s, g)
    ensures Sane(log + [op], Advance(s, TimeOf(op), bulk), g)
  {
    var t, tr := TimeOf(op), TrackOf(s, g);
    var tr' := TrackOf(Advance(s, t, bulk), g);
    assert tr'.epoch >= BucketAt(t, g.width) && (s.started ==> tr'.epoch >= tr.epoch);
    forall i | 0 <= i < |log + [op]|
      ensures BucketAt(TimeOf((log + [op])[i]), g.width) <= tr'.epoch
    {
      if i < |log| {
        assert BucketAt(TimeOf(log[i]), g.width) <= tr.epoch;
      }
    }
  }

  lemma StepIsSane(log: seq<Op>, s: Hist, op: Op, bulk: bool, g: Grid)
    requires ValidGrid(g) && Sane(log, s, g)
    ensures Sane(log + [op], Step(log, s, op, bulk), g)
  {
    AdvanceIsSane(log, s, op, bulk, g);
  }

  lemma StateMore(log: seq<Op>, op: Op, bulk: bool)
    ensures StateOf(log + [op], bulk) == Step(log, StateOf(log, bulk), op, bulk)
  {
    assert (log + [op])[..|log|] == log;
  }

  lemma BucketMono(s: nat, t: nat, g: Grid)
    requires ValidGrid(g) && s <= t
    ensures BucketAt(s, g.width) <= BucketAt(t, g.width)
  {}

  lemma {:induction false} NoCountPastHead(log: seq<Op>, w: nat, b: int, head: int)
    requires w > 0 && b > head
    requires forall i :: 0 <= i < |log| ==> BucketAt(TimeOf(log[i]), w) <= head
    ensures Count(log, w, b) == 0
  {
    if log != [] {
      NoCountPastHead(log[..|log| - 1], w, b, head);
    }
  }

  /** A gap is never claimed of a bucket in which an event was seen. */
  lemma {:induction false} GapMeansEmpty(log: seq<Op>, bulk: bool, g: Grid, b: int)
    requires ValidGrid(g) && b in TrackOf(StateOf(log, bulk), g).gaps
    ensures Count(log, g.width, b) == 0
  {
    if log != [] {
      var before, op := log[..|log| - 1], log[|log| - 1];
      HistoryIsSane(before, bulk, g);
      var s := StateOf(before, bulk);
      if b in TrackOf(s, g).gaps {
        GapMeansEmpty(before, bulk, g, b);
      } else if b > TrackOf(s, g).epoch {
        NoCountPastHead(before, g.width, b, TrackOf(s, g).epoch);
      }
    }
  }

  /** Since a report is valid for less than a bucket, at most the bucket after the head opens as a gap. */
  lemma OnlyNextOpens(log: seq<Op>, s: Hist, g: Grid, b: int)
    requires ValidGrid(g) && Sane(log, s, g)
    requires b > TrackOf(s, g).epoch && OpensAsGap(s, g.width, b)
    ensures b == TrackOf(s, g).epoch + 1
  {
    var w, q := g.width, BucketAt(s.gapThrough, g.width);
    assert s.gapThrough < w * (q + 1);
    assert w * b < w * (q + 2) by {
      assert b * w == w * b;
      assert w * (q + 2) == w * (q + 1) + w;
    }
  }

  // ---------------------------------------------------------------- how often the windows are read

  predicate InOrder(log: seq<Op>) {
    forall i, j :: 0 <= i < j < |log| ==> TimeOf(log[i]) <= TimeOf(log[j])
  }

  predicate NoLaterThan(log: seq<Op>, now: nat) {
    forall i :: 0 <= i < |log| ==> TimeOf(log[i]) <= now
  }

  function WithoutPolls(log: seq<Op>): seq<Op> {
    if log == [] then []
    else
      var rest := WithoutPolls(log[..|log| - 1]);
      if log[|log| - 1].Poll? then rest else rest + [log[|log| - 1]]
  }

  lemma {:induction false} PollsAreNotCounted(log: seq<Op>, w: nat, b: int)
    requires w > 0
    ensures Count(WithoutPolls(log), w, b) == Count(log, w, b)
  {
    if log != [] {
      var before, rest := log[..|log| - 1], WithoutPolls(log[..|log| - 1]);
      PollsAreNotCounted(before, w, b);
      if !log[|log| - 1].Poll? {
        assert (rest + [log[|log| - 1]])[..|rest|] == rest;
      }
    }
  }

  /** Ideally, reading in between changes nothing: rolling forward twice is rolling forward once. */
  lemma AdvanceTwice(log: seq<Op>, s: Hist, t: nat, u: nat)
    requires Sane(log, s, SECONDS) && Sane(log, s, MINUTES) && t <= u
    ensures Advance(Advance(s, t, false), u, false) == Advance(s, u, false)
  {
    BucketMono(t, u, SECONDS);
    BucketMono(t, u, MINUTES);
    RollTwice(log, s, SECONDS, t, u);
    RollTwice(log, s, MINUTES, t, u);
  }

  lemma RollTwice(log: seq<Op>, s: Hist, g: Grid, t: nat, u: nat)
    requires ValidGrid(g) && Sane(log, s, g) && t <= u
    ensures TrackOf(Advance(Advance(s, t, false), u, false), g) == TrackOf(Advance(s, u, false), g)
  {
    BucketMono(t, u, g);
    var once, twice := TrackOf(Advance(s, u, false), g), TrackOf(Advance(Advance(s, t, false), u, false), g);
    assert once.gaps == twice.gaps;
  }

  /** With one nondecreasing clock the ideal history does not depend on how often it was read. */
  lemma {:induction false} PollsDoNotMatter(log: seq<Op>, now: nat)
    requires InOrder(log) && NoLaterThan(log, now)
    ensures Advance(StateOf(log, false), now, false) == Advance(StateOf(WithoutPolls(log), false), now, false)
  {
    if log != [] {
      var before, op := log[..|log| - 1], log[|log| - 1];
      var kept := WithoutPolls(before);
      PollsDoNotMatter(before, TimeOf(op));
      HistoryIsSane(before, false, SECONDS);
      HistoryIsSane(before, false, MINUTES);
      HistoryIsSane(kept, false, SECONDS);
      HistoryIsSane(kept, false, MINUTES);
      if op.Poll? {
        PollsDoNotMatter(before, now);
        AdvanceTwice(before, StateOf(before, false), TimeOf(op), now);
      } else {
        assert (kept + [op])[..|kept|] == kept;
        SameStep(before, kept, op);
      }
    }
  }

  lemma SameStep(log: seq<Op>, kept: seq<Op>, op: Op)
    requires kept == WithoutPolls(log)
    requires Advance(StateOf(log, false), TimeOf(op), false) == Advance(StateOf(kept, false), TimeOf(op), false)
    ensures Step(log, StateOf(log, false), op, false) == Step(kept, StateOf(kept, false), op, false)
  {
    if op.MarkGap? {
      SameQuiet(log, SECOND, BucketAt(op.from, SECOND), BucketAt(op.to, SECOND));
      SameQuiet(log, MINUTE, BucketAt(op.from, MINUTE), BucketAt(op.to, MINUTE));
    }
  }

  lemma SameQuiet(log: seq<Op>, w: nat, from: int, to: int)
    requires w > 0
    ensures Quiet(WithoutPolls(log), w, from, to) == Quiet(log, w, from, to)
  {
    forall b | from <= b <= to
      ensures Count(WithoutPolls(log), w, b) == Count(log, w, b)
    {
      PollsAreNotCounted(log, w, b);
    }
  }

  // ---------------------------------------------------------------- rolling forward in bulk

  /** Moving the head to time `t` jumps exactly one ring length, over a bucket that would have opened as a gap. */
  predicate Loses(s: Hist, t: nat, g: Grid)
    requires ValidGrid(g)
  {
    s.started && BucketAt(t, g.width) - TrackOf(s, g).epoch == g.size && OpensAsGap(s, g.width, TrackOf(s, g).epoch + 1)
  }

  /** The oldest visible bucket once the clock has come to `t`. */
  function OldestAt(s: Hist, t: nat, g: Grid): int
    requires ValidGrid(g)
  {
    TrackOf(Advance(s, t, true), g).epoch - g.size + 1
  }

  /** The call counts an event in bucket `b`, or names it in a report. */
  predicate Settles(op: Op, g: Grid, b: int)
    requires ValidGrid(g)
  {
    match op
    case Add(t) => BucketAt(t, g.width) == b
    case MarkGap(from, to) => BucketAt(from, g.width) <= b <= BucketAt(to, g.width)
    case Poll(_) => false
  }

  /** Whether the flag of the oldest bucket shown is missing after a roll forward to `t`, if `lost`
      says whether it was before. A head that moves leaves that bucket behind. */
  predicate LostAfter(lost: bool, s: Hist, t: nat, g: Grid)
    requires ValidGrid(g)
  {
    if s.started && BucketAt(t, g.width) > TrackOf(s, g).epoch then Loses(s, t, g) else lost
  }

  /** The last call that moved the head was such a jump, and no call since has settled the bucket it
      jumped over, which is now the oldest one shown. */
  predicate Lost(log: seq<Op>, g: Grid)
    requires ValidGrid(g)
  {
    if log == [] then false
    else
      var before, op := log[..|log| - 1], log[|log| - 1];
      var s := StateOf(before, true);
      LostAfter(Lost(before, g), s, TimeOf(op), g) && !Settles(op, g, OldestAt(s, TimeOf(op), g))
  }

  /** The same after a further roll forward to `t`. */
  predicate LostAt(log: seq<Op>, t: nat, g: Grid)
    requires ValidGrid(g)
  {
    LostAfter(Lost(log, g), StateOf(log, true), t, g)
  }

  /** The code agrees with the ideal on every visible bucket, except that the oldest has lost its
      flag exactly when `lost` says so. */
  ghost predicate Agrees(s: Hist, ideal: Hist, g: Grid, lost: bool)
    requires ValidGrid(g)
  {
    var tr, it := TrackOf(s, g), TrackOf(ideal, g);
    var oldest := tr.epoch - g.size + 1;
    && s.started == ideal.started && s.gapOpen == ideal.gapOpen && s.gapThrough == ideal.gapThrough
    && tr.epoch == it.epoch && tr.gaps <= it.gaps
    && (forall b :: oldest < b && b in it.gaps ==> b in tr.gaps)
    && (lost <==> oldest in it.gaps && oldest !in tr.gaps)
  }

  lemma AdvanceAgrees(log: seq<Op>, s: Hist, ideal: Hist, t: nat, g: Grid, lost: bool)
    requires ValidGrid(g) && Sane(log, s, g) && Sane(log, ideal, g) && Agrees(s, ideal, g, lost)
    ensures Agrees(Advance(s, t, true), Advance(ideal, t, false), g, LostAfter(lost, s, t, g))
  {
    var tr, to := TrackOf(s, g), BucketAt(t, g.width);
    if s.started && to > tr.epoch {
      forall b | b > tr.epoch && OpensAsGap(s, g.width, b)
        ensures b == tr.epoch + 1
      {
        OnlyNextOpens(log, s, g, b);
      }
    }
  }

  /** The rest of a call, once both have rolled forward to it: an event. */
  lemma AddAgrees(a: Hist, ideal: Hist, t: nat, g: Grid, lost: bool)
    requires ValidGrid(g) && Agrees(a, ideal, g, lost)
    ensures var si, mi := BucketAt(t, SECOND), BucketAt(t, MINUTE);
            Agrees(a.(gapOpen := false, sec := Hit(a.sec, si), min := Hit(a.min, mi)),
                   ideal.(gapOpen := false, sec := Hit(ideal.sec, si), min := Hit(ideal.min, mi)),
                   g, lost && !Settles(Add(t), g, TrackOf(a, g).epoch - g.size + 1))
  {}

  /** A report; what was lost is a bucket in which nothing was counted, so naming it flags it again. */
  lemma MarkAgrees(log: seq<Op>, a: Hist, ideal: Hist, from: nat, to: nat, through: nat, g: Grid, lost: bool)
    requires ValidGrid(g) && Agrees(a, ideal, g, lost)
    requires lost ==> Count(log, g.width, TrackOf(a, g).epoch - g.size + 1) == 0
    ensures Agrees(a.(gapOpen := true, gapThrough := through, sec := Mark(log, a.sec, SECOND, from, to),
                      min := Mark(log, a.min, MINUTE, from, to)),
                   ideal.(gapOpen := true, gapThrough := through, sec := Mark(log, ideal.sec, SECOND, from, to),
                          min := Mark(log, ideal.min, MINUTE, from, to)),
                   g, lost && !Settles(MarkGap(from, to), g, TrackOf(a, g).epoch - g.size + 1))
  {}

  lemma OpAgrees(log: seq<Op>, s: Hist, ideal: Hist, op: Op, g: Grid, lost: bool)
    requires ValidGrid(g)
    requires Agrees(Advance(s, TimeOf(op), true), Advance(ideal, TimeOf(op), false), g, lost)
    requires lost ==> Count(log, g.width, OldestAt(s, TimeOf(op), g)) == 0
    ensures Agrees(Step(log, s, op, true), Step(log, ideal, op, false), g,
                   lost && !Settles(op, g, OldestAt(s, TimeOf(op), g)))
  {
    var a, it := Advance(s, TimeOf(op), true), Advance(ideal, TimeOf(op), false);
    match op
    case Poll(_) =>
    case Add(t) => AddAgrees(a, it, t, g, lost);
    case MarkGap(from, to) =>
      MarkAgrees(log, a, it, from, to, if !a.gapOpen || to > a.gapThrough then to else a.gapThrough, g, lost);
  }

  lemma StepAgrees(log: seq<Op>, s: Hist, ideal: Hist, op: Op, g: Grid, lost: bool)
    requires ValidGrid(g) && Sane(log, s, g) && Sane(log, ideal, g) && Agrees(s, ideal, g, lost)
    requires LostAfter(lost, s, TimeOf(op), g) ==> Count(log, g.width, OldestAt(s, TimeOf(op), g)) == 0
    ensures Agrees(Step(log, s, op, true), Step(log, ideal, op, false), g,
                   LostAfter(lost, s, TimeOf(op), g) && !Settles(op, g, OldestAt(s, TimeOf(op), g)))
  {
    AdvanceAgrees(log, s, ideal, TimeOf(op), g, lost);
    OpAgrees(log, s, ideal, op, g, LostAfter(lost, s, TimeOf(op), g));
  }

  /** What is lost is a bucket in which nothing was counted. */
  lemma LostIsEmpty(log: seq<Op>, s: Hist, ideal: Hist, t: nat, g: Grid, lost: bool)
    requires ValidGrid(g) && Sane(log, s, g) && Sane(log, ideal, g) && Agrees(s, ideal, g, lost)
    requires LostAfter(lost, s, t, g)
    requires OldestAt(s, t, g) in TrackOf(ideal, g).gaps ==> Count(log, g.width, OldestAt(s, t, g)) == 0
    ensures Count(log, g.width, OldestAt(s, t, g)) == 0
  {
    AdvanceAgrees(log, s, ideal, t, g, lost);
    var b := OldestAt(s, t, g);
    if b !in TrackOf(ideal, g).gaps {
      assert b > TrackOf(ideal, g).epoch;
      NoCountPastHead(log, g.width, b, TrackOf(ideal, g).epoch);
    }
  }

  /** After any run the code shows what rolling one bucket at a time would show, except that the
      oldest bucket shown has lost its flag exactly when Lost says so. */
  lemma {:induction false} CodeAgreesWithIdeal(log: seq<Op>, g: Grid)
    requires ValidGrid(g)
    ensures Agrees(StateOf(log, true), StateOf(log, false), g, Lost(log, g))
  {
    if log != [] {
      var before, op := log[..|log| - 1], log[|log| - 1];
      CodeAgreesWithIdeal(before, g);
      HistoryIsSane(before, true, g);
      HistoryIsSane(before, false, g);
      var s, ideal := StateOf(before, true), StateOf(before, false);
      if OldestAt(s, TimeOf(op), g) in TrackOf(ideal, g).gaps {
        GapMeansEmpty(before, false, g, OldestAt(s, TimeOf(op), g));
      }
      if LostAt(before, TimeOf(op), g) {
        LostIsEmpty(before, s, ideal, TimeOf(op), g, Lost(before, g));
      }
      StepAgrees(before, s, ideal, op, g, Lost(before, g));
    }
  }

  /** Without a jump of exactly one ring length over a bucket that would open as a gap, nothing is lost. */
  lemma {:induction false} LostNeedsAnExactJump(log: seq<Op>, g: Grid) returns (i: int)
    requires ValidGrid(g) && Lost(log, g)
    ensures 0 <= i < |log| && Loses(StateOf(log[..i], true), TimeOf(log[i]), g)
  {
    var before := log[..|log| - 1];
    if Lost(before, g) && !Loses(StateOf(before, true), TimeOf(log[|log| - 1]), g) {
      i := LostNeedsAnExactJump(before, g);
      assert before[..i] == log[..i];
    } else {
      i := |log| - 1;
    }
  }

  /** The buckets shown when the windows are read at `now`, with their flags. */
  ghost predicate ShowAlike(tr: Track, other: Track, g: Grid) {
    tr.epoch == other.epoch && forall b :: Visible(tr, g, b) ==> (b in tr.gaps <==> b in other.gaps)
  }

  /** Two reads that differ from the same ideal at most in the oldest flag. */
  lemma AlikeWhenLostAlike(s: Hist, other: Hist, ideal: Hist, g: Grid, lost: bool, otherLost: bool)
    requires ValidGrid(g) && Agrees(s, ideal, g, lost) && Agrees(other, ideal, g, otherLost)
    ensures ShowAlike(TrackOf(s, g), TrackOf(other, g), g) <==> (lost <==> otherLost)
  {
    var oldest := TrackOf(s, g).epoch - g.size + 1;
    assert Visible(TrackOf(s, g), g, oldest);
  }

  lemma ReadAgrees(log: seq<Op>, now: nat, g: Grid)
    requires ValidGrid(g)
    ensures Agrees(Advance(StateOf(log, true), now, true), Advance(StateOf(log, false), now, false), g,
                   LostAt(log, now, g))
  {
    CodeAgreesWithIdeal(log, g);
    HistoryIsSane(log, true, g);
    HistoryIsSane(log, false, g);
    AdvanceAgrees(log, StateOf(log, true), StateOf(log, false), now, g, Lost(log, g));
  }

  /** With one nondecreasing clock, what a read shows depends on how often the windows were read before
      in exactly one case: one of the two runs has lost the flag of the oldest bucket and the other has
      not. Counts never depend on it. */
  lemma PollsShowTheSame(log: seq<Op>, now: nat, g: Grid)
    requires ValidGrid(g) && InOrder(log) && NoLaterThan(log, now)
    ensures var seen, alone := TrackOf(Advance(StateOf(log, true), now, true), g),
                               TrackOf(Advance(StateOf(WithoutPolls(log), true), now, true), g);
            && seen.epoch == alone.epoch
            && (forall b :: Count(log, g.width, b) == Count(WithoutPolls(log), g.width, b))
            && (ShowAlike(seen, alone, g) <==> (LostAt(log, now, g) <==> LostAt(WithoutPolls(log), now, g)))
  {
    var kept := WithoutPolls(log);
    PollsDoNotMatter(log, now);
    forall b ensures Count(log, g.width, b) == Count(kept, g.width, b) {
      PollsAreNotCounted(log, g.width, b);
    }
    ReadAgrees(log, now, g);
    ReadAgrees(kept, now, g);
    AlikeWhenLostAlike(Advance(StateOf(log, true), now, true), Advance(StateOf(kept, true), now, true),
                       Advance(StateOf(log, false), now, false), g, LostAt(log, now, g), LostAt(kept, now, g));
  }

  /** Two runs that never jump so show the same however often either was read. */
  lemma WithoutAnExactJumpPollsDoNotShow(log: seq<Op>, now: nat, g: Grid)
    requires ValidGrid(g) && InOrder(log) && NoLaterThan(log, now)
    requires NeverLoses(log, g) && NeverLoses(WithoutPolls(log), g)
    requires !Loses(StateOf(log, true), now, g) && !Loses(StateOf(WithoutPolls(log), true), now, g)
    ensures ShowAlike(TrackOf(Advance(StateOf(log, true), now, true), g),
                      TrackOf(Advance(StateOf(WithoutPolls(log), true), now, true), g), g)
  {
    var kept := WithoutPolls(log);
    PollsShowTheSame(log, now, g);
    if Lost(log, g) {
      var i := LostNeedsAnExactJump(log, g);
    }
    if Lost(kept, g) {
      var i := LostNeedsAnExactJump(kept, g);
    }
  }

  ghost predicate NeverLoses(log: seq<Op>, g: Grid)
    requires ValidGrid(g)
  {
    forall i :: 0 <= i < |log| ==> !Loses(StateOf(log[..i], true), TimeOf(log[i]), g)
  }

  /** Exactly when rolling in bulk shows something else than rolling one by one: on a jump of exactly
      one ring length, when the bucket after the old head would have opened as a gap. */
  lemma BulkLosesExactlyOneFlag(log: seq<Op>, s: Hist, t: nat, g: Grid)
    requires ValidGrid(g) && Sane(log, s, g) && s.started
    ensures var tr, code, ideal := TrackOf(s, g), TrackOf(Advance(s, t, true), g), TrackOf(Advance(s, t, false), g);
            (forall b :: Visible(code, g, b) ==> (b in code.gaps <==> b in ideal.gaps)) <==>
            !Loses(s, t, g)
  {
    var tr, to := TrackOf(s, g), BucketAt(t, g.width);
    var code, ideal := TrackOf(Advance(s, t, true), g), TrackOf(Advance(s, t, false), g);
    if to - tr.epoch >= g.size {
      forall b | b > tr.epoch && OpensAsGap(s, g.width, b)
        ensures b == tr.epoch + 1
      {
        OnlyNextOpens(log, s, g, b);
      }
      if to - tr.epoch == g.size && OpensAsGap(s, g.width, tr.epoch + 1) {
        var b := tr.epoch + 1;
        assert Visible(code, g, b) && b in ideal.gaps && b !in code.gaps;
      }
    }
  }

  /** A report of the whole of a second. */
  function ReportOf(second: nat): Op {
    MarkGap(second * SECOND, second * SECOND + 999_999_999)
  }

  lemma Reported(second: nat) returns (s: Hist)
    ensures s == StateOf([ReportOf(second)], true)
    ensures s.started && s.sec.epoch == second && s.gapOpen && s.gapThrough == second * SECOND + 999_999_999
    ensures OpensAsGap(s, SECOND, second + 1)
  {
    var report := ReportOf(second);
    StateMore([], report, true);
    assert [] + [report] == [report];
    s := StateOf([report], true);
    assert BucketAt(TimeOf(report), SECOND) == second;
    assert s.sec.epoch == second;
  }

  lemma ReportedAndRead(second: nat) returns (s: Hist)
    ensures s == StateOf([ReportOf(second), Poll((second + 1) * SECOND)], true)
    ensures s.started && s.sec.epoch == second + 1 && second + 1 in s.sec.gaps
  {
    var look := Poll((second + 1) * SECOND);
    var once := Reported(second);
    StateMore([ReportOf(second)], look, true);
    assert [ReportOf(second)] + [look] == [ReportOf(second), look];
    s := StateOf([ReportOf(second), look], true);
    assert BucketAt(TimeOf(look), SECOND) == second + 1;
    assert second + 1 in Opened(once, once.sec, second + 1, SECONDS, true);
  }

  /** Such a jump exists, and shows: a report ends within a second, the next second is looked at, and the
      next look is exactly 120 seconds after the first. Without the look in between, the flag is gone. */
  lemma AnExactJump(second: nat)
    ensures var log, now := [ReportOf(second), Poll((second + 1) * SECOND)], (second + 120) * SECOND;
            && InOrder(log) && NoLaterThan(log, now)
            && !ShowAlike(Advance(StateOf(log, true), now, true).sec,
                          Advance(StateOf(WithoutPolls(log), true), now, true).sec, SECONDS)
  {
    var log, now := [ReportOf(second), Poll((second + 1) * SECOND)], (second + 120) * SECOND;
    assert log[..1] == [ReportOf(second)] && [ReportOf(second)][..0] == [];
    assert WithoutPolls([ReportOf(second)]) == [ReportOf(second)] && WithoutPolls(log) == [ReportOf(second)];
    var once := Reported(second);
    var read := ReportedAndRead(second);
    assert BucketAt(now, SECOND) == second + 120;
    assert second + 1 in Advance(read, now, true).sec.gaps;
    HistoryIsSane([ReportOf(second)], true, SECONDS);
    assert second + 1 !in Advance(once, now, true).sec.gaps;
    assert Visible(Advance(read, now, true).sec, SECONDS, second + 1);
  }
}
