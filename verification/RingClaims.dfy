/** What a gap flag in the rate rings may be read as: every flag is justified by a report, and
    while reports keep coming an outage never shows as a quiet master. */
module RingClaims {
  import opened RingHistory

  // ---------------------------------------------------------------- every flag is justified

  predicate NoAddBetween(log: seq<Op>, i: int, j: int) {
    forall k :: i < k < j && 0 <= k < |log| ==> !log[k].Add?
  }

  /** Report `i` names bucket `b` itself. */
  predicate Names(log: seq<Op>, g: Grid, i: int, b: int)
    requires ValidGrid(g)
  {
    0 <= i < |log| && log[i].MarkGap?
    && BucketAt(log[i].from, g.width) <= b <= BucketAt(log[i].to, g.width)
  }

  /** Bucket `b` begins within the validity of report `i`, call `j` is the first to reach it, and
      no event came in between. */
  predicate Extends(log: seq<Op>, g: Grid, i: int, j: int, b: int)
    requires ValidGrid(g)
  {
    && 0 <= i < j < |log| && log[i].MarkGap?
    && b * g.width <= log[i].to + GAP_VALIDITY
    && BucketAt(TimeOf(log[j]), g.width) >= b
    && (forall k :: 0 <= k < j ==> BucketAt(TimeOf(log[k]), g.width) < b)
    && NoAddBetween(log, i, j)
  }

  ghost predicate Justified(log: seq<Op>, g: Grid, b: int)
    requires ValidGrid(g)
  {
    (exists i :: Names(log, g, i, b)) || (exists i, j :: Extends(log, g, i, j, b))
  }

  lemma JustifiedStays(log: seq<Op>, op: Op, g: Grid, b: int)
    requires ValidGrid(g) && Justified(log, g, b)
    ensures Justified(log + [op], g, b)
  {
    if i :| Names(log, g, i, b) {
      assert Names(log + [op], g, i, b);
    } else {
      var i, j :| Extends(log, g, i, j, b);
      assert Extends(log + [op], g, i, j, b);
    }
  }

  /** While a gap is open its end is the end of some report, and no event has come since. */
  lemma {:induction false} OpenGapHasReport(log: seq<Op>, bulk: bool) returns (i: int)
    requires StateOf(log, bulk).gapOpen
    ensures 0 <= i < |log| && log[i].MarkGap? && log[i].to == StateOf(log, bulk).gapThrough
    ensures NoAddBetween(log, i, |log|)
  {
    var before, op := log[..|log| - 1], log[|log| - 1];
    var s := StateOf(before, bulk);
    if op.MarkGap? && (!s.gapOpen || op.to > s.gapThrough) {
      i := |log| - 1;
    } else {
      i := OpenGapHasReport(before, bulk);
      assert log == before + [op];
      StillNoAdd(before, op, i);
    }
  }

  lemma StillNoAdd(log: seq<Op>, op: Op, i: int)
    requires NoAddBetween(log, i, |log|) && !op.Add?
    ensures NoAddBetween(log + [op], i, |log| + 1)
  {
    forall k | i < k < |log| + 1 && 0 <= k
      ensures !(log + [op])[k].Add?
    {
      assert k < |log| ==> (log + [op])[k] == log[k];
    }
  }

  /** A bucket that opens flagged begins within the validity of a report, with no event in between. */
  lemma OpenedIsExtended(log: seq<Op>, op: Op, bulk: bool, g: Grid, b: int)
    requires ValidGrid(g) && b !in TrackOf(StateOf(log, bulk), g).gaps
    requires b in TrackOf(Advance(StateOf(log, bulk), TimeOf(op), bulk), g).gaps
    ensures exists i :: Extends(log + [op], g, i, |log|, b)
  {
    HistoryIsSane(log, bulk, g);
    var i := OpenGapHasReport(log, bulk);
    assert forall k :: 0 <= k < |log| ==> (log + [op])[k] == log[k];
    assert Extends(log + [op], g, i, |log|, b);
  }

  /** A bucket that a call flags beyond that is one it names. */
  lemma FlaggedIsNamed(log: seq<Op>, op: Op, bulk: bool, g: Grid, b: int)
    requires ValidGrid(g) && b !in TrackOf(Advance(StateOf(log, bulk), TimeOf(op), bulk), g).gaps
    requires b in TrackOf(Step(log, StateOf(log, bulk), op, bulk), g).gaps
    ensures Names(log + [op], g, |log|, b)
  {}

  /** Every flagged bucket was named by a report or began within the validity of one, unless an event came between. */
  lemma {:induction false} EveryGapIsJustified(log: seq<Op>, bulk: bool, g: Grid, b: int)
    requires ValidGrid(g) && b in TrackOf(StateOf(log, bulk), g).gaps
    ensures Justified(log, g, b)
  {
    if log != [] {
      var before, op := log[..|log| - 1], log[|log| - 1];
      assert log == before + [op];
      if b in TrackOf(StateOf(before, bulk), g).gaps {
        EveryGapIsJustified(before, bulk, g, b);
        JustifiedStays(before, op, g, b);
      } else if b in TrackOf(Advance(StateOf(before, bulk), TimeOf(op), bulk), g).gaps {
        OpenedIsExtended(before, op, bulk, g, b);
      } else {
        FlaggedIsNamed(before, op, bulk, g, b);
      }
    }
  }

  /** The head of a track was reached by some call. */
  lemma {:induction false} HeadWasReached(log: seq<Op>, bulk: bool, g: Grid) returns (k: int)
    requires ValidGrid(g) && log != []
    ensures 0 <= k < |log| && BucketAt(TimeOf(log[k]), g.width) == TrackOf(StateOf(log, bulk), g).epoch
  {
    var before, op := log[..|log| - 1], log[|log| - 1];
    HistoryIsSane(before, bulk, g);
    if before == [] || BucketAt(TimeOf(op), g.width) > TrackOf(StateOf(before, bulk), g).epoch {
      k := |log| - 1;
    } else {
      k := HeadWasReached(before, bulk, g);
    }
  }

  lemma TrackHeadIsHead(log: seq<Op>, bulk: bool, g: Grid)
    requires ValidGrid(g) && log != []
    ensures IsHead(log, g.width, TrackOf(StateOf(log, bulk), g).epoch)
  {
    HistoryIsSane(log, bulk, g);
    var head := TrackOf(StateOf(log, bulk), g).epoch;
    forall i | 0 <= i < |log|
      ensures TimeOf(log[i]) < (head + 1) * g.width
    {
      InBucket(TimeOf(log[i]), g.width, BucketAt(TimeOf(log[i]), g.width));
    }
    var k := HeadWasReached(log, bulk, g);
    InBucket(TimeOf(log[k]), g.width, head);
  }

  /** With no event since a report, the gap is open and reaches at least as far. */
  lemma {:induction false} OpenSinceReport(log: seq<Op>, bulk: bool, i: int)
    requires 0 <= i < |log| && log[i].MarkGap? && NoAddBetween(log, i, |log|)
    ensures StateOf(log, bulk).gapOpen && StateOf(log, bulk).gapThrough >= log[i].to
  {
    if i < |log| - 1 {
      var before := log[..|log| - 1];
      assert forall k :: 0 <= k < |before| ==> log[k] == before[k];
      assert NoAddBetween(before, i, |before|);
      OpenSinceReport(before, bulk, i);
      assert !log[|log| - 1].Add?;
    }
  }

  lemma CountStays(log: seq<Op>, w: nat, b: int)
    requires w > 0 && log != [] && Count(log, w, b) == 0
    ensures Count(log[..|log| - 1], w, b) == 0
    ensures !(log[|log| - 1].Add? && BucketAt(log[|log| - 1].t, w) == b)
  {}

  /** One more call keeps the flag of a bucket in which nothing was counted. */
  lemma FlagStays(log: seq<Op>, s: Hist, op: Op, bulk: bool, g: Grid, b: int)
    requires ValidGrid(g) && b in TrackOf(s, g).gaps && s.started
    requires !(op.Add? && BucketAt(op.t, g.width) == b)
    ensures b in TrackOf(Step(log, s, op, bulk), g).gaps
  {}

  /** A bucket that the call reaches first opens flagged when a report still describes its beginning. */
  lemma ExtendedIsFlagged(log: seq<Op>, op: Op, g: Grid, i: int, b: int)
    requires ValidGrid(g) && Extends(log + [op], g, i, |log|, b) && i < |log|
    requires !(op.Add? && BucketAt(op.t, g.width) == b)
    ensures b in TrackOf(StateOf(log + [op], false), g).gaps
  {
    var s := StateOf(log, false);
    assert forall k :: 0 <= k < |log| ==> (log + [op])[k] == log[k];
    assert NoAddBetween(log, i, |log|);
    OpenSinceReport(log, false, i);
    var k := HeadWasReached(log, false, g);
    assert TrackOf(s, g).epoch < b;
    assert OpensAsGap(s, g.width, b);
    assert b in TrackOf(Advance(s, TimeOf(op), false), g).gaps;
    StateMore(log, op, false);
  }

  /** And a quiet bucket with such a justification is flagged: rolled forward one by one, the flags are
      exactly the quiet buckets that some report justifies. */
  lemma {:induction false} JustifiedIsFlagged(log: seq<Op>, g: Grid, b: int)
    requires ValidGrid(g) && Count(log, g.width, b) == 0 && Justified(log, g, b)
    ensures b in TrackOf(StateOf(log, false), g).gaps
  {
    var before, op := log[..|log| - 1], log[|log| - 1];
    assert log == before + [op];
    CountStays(log, g.width, b);
    if Justified(before, g, b) {
      JustifiedIsFlagged(before, g, b);
      HistoryIsSane(before, false, g);
      FlagStays(before, StateOf(before, false), op, false, g, b);
    } else {
      NewlyJustified(before, op, g, b);
      if Names(log, g, |before|, b) {
        NamedIsFlagged(before, op, g, b);
      } else {
        var i :| 0 <= i < |before| && Extends(log, g, i, |before|, b);
        ExtendedIsFlagged(before, op, g, i, b);
      }
    }
  }

  /** What a bucket was not justified by before, the last call justifies. */
  lemma NewlyJustified(before: seq<Op>, op: Op, g: Grid, b: int)
    requires ValidGrid(g) && Justified(before + [op], g, b) && !Justified(before, g, b)
    ensures Names(before + [op], g, |before|, b) ||
            exists i :: 0 <= i < |before| && Extends(before + [op], g, i, |before|, b)
  {
    var log := before + [op];
    assert forall k :: 0 <= k < |before| ==> log[k] == before[k];
    if i :| Names(log, g, i, b) {
      if i < |before| {
        assert Names(before, g, i, b);
      }
    } else {
      var i, j :| Extends(log, g, i, j, b);
      if j < |before| {
        assert NoAddBetween(before, i, j);
        assert Extends(before, g, i, j, b);
      }
    }
  }

  lemma NamedIsFlagged(log: seq<Op>, op: Op, g: Grid, b: int)
    requires ValidGrid(g) && Names(log + [op], g, |log|, b) && Count(log, g.width, b) == 0
    ensures b in TrackOf(StateOf(log + [op], false), g).gaps
  {
    StateMore(log, op, false);
    assert b in Quiet(log, g.width, BucketAt(op.from, g.width), BucketAt(op.to, g.width));
  }

  lemma FlagsAreJustified(log: seq<Op>, g: Grid, b: int)
    requires ValidGrid(g)
    ensures b in TrackOf(StateOf(log, false), g).gaps <==> Count(log, g.width, b) == 0 && Justified(log, g, b)
  {
    if b in TrackOf(StateOf(log, false), g).gaps {
      GapMeansEmpty(log, false, g, b);
      EveryGapIsJustified(log, false, g, b);
    } else if Count(log, g.width, b) == 0 && Justified(log, g, b) {
      JustifiedIsFlagged(log, g, b);
    }
  }

  /** What the code shows: a visible bucket is flagged exactly when it is quiet and justified, but for
      the oldest one when its flag was lost. */
  lemma VisibleFlagsAreJustified(log: seq<Op>, g: Grid, b: int)
    requires ValidGrid(g) && Visible(TrackOf(StateOf(log, true), g), g, b)
    ensures var oldest := TrackOf(StateOf(log, true), g).epoch - g.size + 1;
            b in TrackOf(StateOf(log, true), g).gaps <==>
              Count(log, g.width, b) == 0 && Justified(log, g, b) && !(b == oldest && Lost(log, g))
  {
    FlagsAreJustified(log, g, b);
    CodeAgreesWithIdeal(log, g);
  }

  /** A bucket a report has named is never a false zero again. */
  lemma {:induction false} NamedStaysKnown(log: seq<Op>, g: Grid, i: int, b: int)
    requires ValidGrid(g) && Names(log, g, i, b)
    ensures Count(log, g.width, b) > 0 || b in TrackOf(StateOf(log, true), g).gaps
  {
    var before, op := log[..|log| - 1], log[|log| - 1];
    if i < |before| {
      assert Names(before, g, i, b);
      NamedStaysKnown(before, g, i, b);
    }
  }

  /** A flagged bucket begins no later than the validity of some report. */
  lemma GapBeginsInTime(log: seq<Op>, bulk: bool, g: Grid, b: int) returns (i: int)
    requires ValidGrid(g) && b in TrackOf(StateOf(log, bulk), g).gaps
    ensures 0 <= i < |log| && log[i].MarkGap? && b * g.width <= log[i].to + GAP_VALIDITY
  {
    EveryGapIsJustified(log, bulk, g, b);
    if named :| Names(log, g, named, b) {
      i := named;
    } else {
      var extended, j :| Extends(log, g, extended, j, b);
      i := extended;
    }
  }

  /** Once reports stop the rings return to honest zeros: a bucket beginning more than the validity
      after every report's end is not a gap, and the validity is less than one bucket. */
  lemma QuietAfterTheLastReport(log: seq<Op>, bulk: bool, g: Grid, b: int)
    requires ValidGrid(g)
    requires forall i :: 0 <= i < |log| && log[i].MarkGap? ==> b * g.width > log[i].to + GAP_VALIDITY
    ensures b !in TrackOf(StateOf(log, bulk), g).gaps
    ensures GAP_VALIDITY < SECOND <= g.width
  {
    if b in TrackOf(StateOf(log, bulk), g).gaps {
      var i := GapBeginsInTime(log, bulk, g, b);
    }
  }

  // ---------------------------------------------------------------- an outage never reads as zero

  /** Every visible bucket from the loss of the connection to the head saw an event or is flagged. */
  ghost predicate NoFalseZero(log: seq<Op>, s: Hist, g: Grid, lostAt: nat)
    requires ValidGrid(g)
  {
    var tr := TrackOf(s, g);
    forall b :: Visible(tr, g, b) && BucketAt(lostAt, g.width) <= b ==> Count(log, g.width, b) > 0 || b in tr.gaps
  }

  /** The rings have seen nothing later than `now`. */
  ghost predicate Behind(s: Hist, now: nat) {
    && (s.started ==> s.sec.epoch <= BucketAt(now, SECOND) && s.min.epoch <= BucketAt(now, MINUTE))
    && (s.gapOpen ==> s.gapThrough <= now)
  }

  lemma StepIsBehind(log: seq<Op>, s: Hist, op: Op, now: nat)
    requires Behind(s, now) && now <= TimeOf(op)
    ensures Behind(Step(log, s, op, true), TimeOf(op))
  {
    BucketMono(now, TimeOf(op), SECONDS);
    BucketMono(now, TimeOf(op), MINUTES);
  }

  /** The rings as an outage that was last reported at `report` leaves them. */
  ghost predicate Covered(log: seq<Op>, s: Hist, g: Grid, lostAt: nat, report: nat)
    requires ValidGrid(g)
  {
    && Sane(log, s, g)
    && s.gapOpen && s.gapThrough >= report
    && NoFalseZero(log, s, g, lostAt)
  }

  /** A report of the window since the loss covers it. */
  lemma ReportCovers(log: seq<Op>, s: Hist, g: Grid, lostAt: nat, now: nat)
    requires ValidGrid(g) && Sane(log, s, g) && Behind(s, now)
    ensures Covered(log + [MarkGap(lostAt, now)], Step(log, s, MarkGap(lostAt, now), true), g, lostAt, now)
  {
    var op := MarkGap(lostAt, now);
    StepIsSane(log, s, op, true, g);
    assert (log + [op])[..|log|] == log;
  }

  /** Reading the windows while the last report is valid keeps an outage covered: the only bucket
      that can have begun since opens as a gap. */
  lemma PollKeepsCovered(log: seq<Op>, s: Hist, g: Grid, lostAt: nat, report: nat, now: nat)
    requires ValidGrid(g) && Covered(log, s, g, lostAt, report)
    requires now <= report + GAP_VALIDITY
    ensures Covered(log + [Poll(now)], Step(log, s, Poll(now), true), g, lostAt, report)
  {
    var op := Poll(now);
    StepIsSane(log, s, op, true, g);
    assert (log + [op])[..|log|] == log;
    var tr, to := TrackOf(s, g), BucketAt(now, g.width);
    forall b | tr.epoch < b <= to
      ensures OpensAsGap(s, g.width, b)
    {
      assert b * g.width <= now;
    }
    if to > tr.epoch {
      OnlyNextOpens(log, s, g, to);
    }
  }
}
