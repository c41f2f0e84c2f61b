/** The rate rings of `internal/stats/rings.go`: two fixed arrays indexed by absolute time modulo
    their length, kept against the unbounded history of calls. */
module Rings {
  import opened Basics
  import opened RingHistory
  import RingClaims

  const ZERO := Bucket(0, false)

  /** What bucket `b` should hold. */
  ghost function Expected(log: seq<Op>, w: nat, gaps: set<int>, b: int): Bucket
    requires w > 0
  {
    Bucket(Count(log, w, b), b in gaps)
  }

  /** Bucket `b`, if it is visible, sits at its own index modulo the ring's length. */
  ghost predicate Seated(ring: seq<Bucket>, log: seq<Op>, w: nat, tr: Track, b: int)
    requires w > 0
  {
    |ring| > 0 &&
    (tr.epoch - |ring| < b <= tr.epoch && b >= 0 ==> ring[b % |ring|] == Expected(log, w, tr.gaps, b))
  }

  /** The ring shows the history: every visible bucket sits in its place. */
  ghost predicate Shows(ring: seq<Bucket>, log: seq<Op>, w: nat, tr: Track)
    requires w > 0
  {
    |ring| > 0 && forall b: int {:trigger Asked(b)} :: Seated(ring, log, w, tr, b)
  }

  lemma ShowsAt(ring: seq<Bucket>, log: seq<Op>, w: nat, tr: Track, b: int)
    requires w > 0 && Shows(ring, log, w, tr)
    ensures Seated(ring, log, w, tr, b)
  {
    assert Asked(b);
  }

  ghost predicate AllZero(ring: seq<Bucket>) {
    forall i: int {:trigger Asked(i)} :: 0 <= i < |ring| ==> ring[i] == ZERO
  }

  /** Before the first call every bucket is an empty one. */
  lemma ZeroShows(ring: seq<Bucket>, log: seq<Op>, w: nat, tr: Track)
    requires w > 0 && |ring| > 0 && AllZero(ring) && log == [] && tr.gaps == {}
    ensures Shows(ring, log, w, tr)
  {
    forall b: int
      ensures Seated(ring, log, w, tr, b)
    {
      assert Asked(b % |ring|);
    }
  }

  /** Two buckets of one window never share an index. */
  lemma SlotsDiffer(a: int, b: int, n: int)
    requires n == SECOND_BUCKETS || n == MINUTE_BUCKETS
    requires 0 <= a < b < a + n
    ensures a % n != b % n
  {}

  class Rings {
    const secs: array<Bucket>
    const mins: array<Bucket>
    var secEpoch: int
    var minEpoch: int
    var gapThrough: nat
    var gapOpen: bool
    var started: bool

    /** The calls so far, and the history they amount to. */
    ghost var log: seq<Op>
    ghost var hist: Hist

    ghost predicate Tied()
      reads this, secs, mins
    {
      && secs.Length == SECOND_BUCKETS && mins.Length == MINUTE_BUCKETS && secs != mins
      && started == hist.started && gapOpen == hist.gapOpen && gapThrough == hist.gapThrough
      && secEpoch == hist.sec.epoch && minEpoch == hist.min.epoch
      && Shows(secs[..], log, SECOND, hist.sec) && Shows(mins[..], log, MINUTE, hist.min)
      && (!started ==> AllZero(secs[..]) && AllZero(mins[..]))
    }

    ghost predicate Valid()
      reads this, secs, mins
    {
      Tied() && hist == StateOf(log, true)
    }

    constructor ()
      ensures Valid() && log == [] && fresh(secs) && fresh(mins)
    {
      secs := new Bucket[SECOND_BUCKETS](_ => ZERO);
      mins := new Bucket[MINUTE_BUCKETS](_ => ZERO);
      secEpoch, minEpoch, gapThrough, gapOpen, started := 0, 0, 0, false, false;
      log, hist := [], EMPTY;
      new;
      ZeroShows(secs[..], log, SECOND, hist.sec);
      ZeroShows(mins[..], log, MINUTE, hist.min);
    }
  
    /** A bucket opens as a gap if the last report still describes the instant it begins. */
    function Opening(start: int): Bucket
      reads this
    {
      Bucket(0, gapOpen && start <= gapThrough + GAP_VALIDITY)
    }

    /** Rolls one ring forward to bucket `to`; `turns` counts the loop. */
    method RollRing(ring: array<Bucket>, epoch: int, to: int, ghost g: Grid, width: nat, ghost tr: Track)
        returns (ghost turns: nat)
      requires ValidGrid(g) && width == g.width && ring.Length == g.size
      requires gapOpen == hist.gapOpen && gapThrough == hist.gapThrough
      requires Sane(log, hist, g) && tr == TrackOf(hist, g) && hist.started
      requires epoch == tr.epoch < to && Shows(ring[..], log, width, tr)
      modifies ring
      ensures Shows(ring[..], log, width, Roll(hist, tr, to, g, true))
      ensures turns <= ring.Length
    {
      var n := ring.Length;
      turns := 0;
      if to - epoch >= n {
        forall i | 0 <= i < n {
          ring[i] := ZERO;
        }
        ring[to % n] := Opening(to * width);
        RollInBulk(ring[..], log, hist, tr, to, g);
      } else {
        ghost var before := ring[..];
        for s := epoch + 1 to to + 1
          invariant turns == s - epoch - 1
          invariant Shows(ring[..], log, width, Roll(hist, tr, s - 1, g, true))
        {
          turns := turns + 1;
          RollByOne(ring[..], log, hist, tr, s, g);
          ring[s % n] := Opening(s * width);
        }
      }
    }

    /** Rolls both rings forward, opening every bucket the clock has passed into. */
    method Advance(si: int, mi: int, ghost t: nat) returns (ghost turns: nat)
      requires Tied() && Sane(log, hist, SECONDS) && Sane(log, hist, MINUTES)
      requires si == BucketAt(t, SECOND) && mi == BucketAt(t, MINUTE)
      modifies this, secs, mins
      ensures log == old(log)
      ensures Tied() && hist == RingHistory.Advance(old(hist), t, true)
      ensures turns <= SECOND_BUCKETS + MINUTE_BUCKETS
    {
      turns := 0;
      if !started {
        secEpoch, minEpoch, started := si, mi, true;
        hist := RingHistory.Advance(hist, t, true);
        ZeroShows(secs[..], log, SECOND, hist.sec);
        ZeroShows(mins[..], log, MINUTE, hist.min);
        return;
      }
      ghost var was, minutes := hist, mins[..];
      if si > secEpoch {
        turns := RollRing(secs, secEpoch, si, SECONDS, SECOND, hist.sec);
        secEpoch := si;
      }
      assert mins[..] == minutes;
      ghost var seconds := secs[..];
      hist := hist.(sec := Roll(was, was.sec, si, SECONDS, true));
      if mi > minEpoch {
        RollSeesTheGap(was, hist, was.min, mi, MINUTES);
        ghost var more := RollRing(mins, minEpoch, mi, MINUTES, MINUTE, hist.min);
        turns := turns + more;
        minEpoch := mi;
      }
      assert secs[..] == seconds;
      hist := hist.(min := Roll(was, was.min, mi, MINUTES, true));
    }

    /** Counts one event at arrival time `t`. */
    method Add(t: nat)
      requires Valid()
      modifies this, secs, mins
      ensures Valid() && log == old(log) + [Op.Add(t)]
    {
      HistoryIsSane(log, true, SECONDS);
      HistoryIsSane(log, true, MINUTES);
      var si, mi := t / SECOND, t / SECOND / 60;
      ghost var turns := Advance(si, mi, t);
      gapOpen := false;
      Bump(secs, secEpoch, si, SECOND, hist.sec, t);
      Bump(mins, minEpoch, mi, MINUTE, hist.min, t);
      StateMore(log, Op.Add(t), true);
      hist := hist.(gapOpen := false, sec := Hit(hist.sec, si), min := Hit(hist.min, mi));
      log := log + [Op.Add(t)];
    }

    /** One more event in bucket `b`, if that is still visible. */
    method Bump(ring: array<Bucket>, epoch: int, b: nat, ghost w: nat, ghost tr: Track, ghost t: nat)
      requires w > 0 && (ring.Length == SECOND_BUCKETS || ring.Length == MINUTE_BUCKETS)
      requires epoch == tr.epoch && b == BucketAt(t, w) && Shows(ring[..], log, w, tr)
      modifies ring
      ensures Shows(ring[..], log + [Op.Add(t)], w, Hit(tr, b))
    {
      HitShows(ring[..], log, w, tr, t);
      var d := epoch - b;
      if 0 <= d < ring.Length {
        ring[b % ring.Length] := Bucket(ring[b % ring.Length].count + 1, false);
      }
      assert ring[..] == HitRing(old(ring[..]), epoch, b);
    }

    /** Records that nothing was seen between `from` and `to`. */
    method MarkGap(from: nat, to: nat)
      requires Valid()
      modifies this, secs, mins
      ensures Valid() && log == old(log) + [Op.MarkGap(from, to)]
    {
      HistoryIsSane(log, true, SECONDS);
      HistoryIsSane(log, true, MINUTES);
      ghost var turns := Advance(to / SECOND, to / SECOND / 60, to);
      if !gapOpen || to > gapThrough {
        gapThrough, gapOpen := to, true;
      }
      turns := MarkGapRing(secs, secEpoch, from / SECOND, to / SECOND, SECOND, hist.sec, Op.MarkGap(from, to));
      turns := MarkGapRing(mins, minEpoch, from / SECOND / 60, to / SECOND / 60, MINUTE, hist.min,
                           Op.MarkGap(from, to));
      StateMore(log, Op.MarkGap(from, to), true);
      hist := hist.(gapOpen := true, gapThrough := gapThrough,
                    sec := Mark(log, hist.sec, SECOND, from, to), min := Mark(log, hist.min, MINUTE, from, to));
      log := log + [Op.MarkGap(from, to)];
    }

    /** Marks every empty visible bucket of `from..to` as a gap; `turns` counts the loop. */
    method MarkGapRing(ring: array<Bucket>, epoch: int, from: nat, to: nat, ghost w: nat, ghost tr: Track, ghost op: Op)
        returns (ghost turns: nat)
      requires w > 0 && (ring.Length == SECOND_BUCKETS || ring.Length == MINUTE_BUCKETS)
      requires op.MarkGap? && from == BucketAt(op.from, w) && to == BucketAt(op.to, w)
      requires epoch == tr.epoch && to <= epoch && Shows(ring[..], log, w, tr)
      modifies ring
      ensures Shows(ring[..], log + [op], w, Mark(log, tr, w, op.from, op.to))
      ensures turns <= ring.Length
    {
      var n := ring.Length;
      var first := from;
      if first < epoch - (n - 1) {
        first := epoch - (n - 1);
      }
      turns := 0;
      MarkNone(ring[..], log, w, tr, from, first);
      var i := first;
      while i <= to
        invariant first <= i && (i <= to + 1 || i == first)
        invariant turns == i - first && (i == first ==> Shows(ring[..], log, w, tr))
        invariant Shows(ring[..], log, w, tr.(gaps := tr.gaps + Quiet(log, w, from, i - 1)))
      {
        MarkOne(ring[..], log, w, tr, from, i);
        var d := epoch - i;
        if 0 <= d < n {
          if ring[i % n].count == 0 {
            ring[i % n] := ring[i % n].(gap := true);
          }
        }
        i := i + 1;
        turns := turns + 1;
      }
      if i > to + 1 && from <= to {
        MarkNone(ring[..], log, w, tr, from, to + 1);
      } else if from > to {
        assert Mark(log, tr, w, op.from, op.to).gaps == tr.gaps;
      }
      StillShows(ring[..], log, op, w, Mark(log, tr, w, op.from, op.to));
    }

    /** A ring in oldest-first order. */
    method Window(ring: array<Bucket>, epoch: int, ghost w: nat, ghost tr: Track) returns (out: seq<Bucket>)
      requires w > 0 && epoch == tr.epoch && Shows(ring[..], log, w, tr)
      ensures out == WindowOf(log, w, tr, ring.Length)
    {
      var n := ring.Length;
      var a := new Bucket[n](_ => ZERO);
      for i := 0 to n
        invariant forall k :: 0 <= k < n ==>
                    var b := epoch - (n - 1 - k);
                    a[k] == if k < i && b >= 0 then Expected(log, w, tr.gaps, b) else ZERO
      {
        var idx := epoch - (n - 1 - i);
        if idx >= 0 {
          ShowsAt(ring[..], log, w, tr, idx);
          a[i] := ring[idx % n];
        }
      }
      out := a[..];
    }

    method SyncToNow(now: nat)
      requires Valid()
      modifies this, secs, mins
      ensures Valid() && log == old(log) + [Poll(now)]
    {
      HistoryIsSane(log, true, SECONDS);
      HistoryIsSane(log, true, MINUTES);
      ghost var turns := Advance(now / SECOND, now / SECOND / 60, now);
      StillShows(secs[..], log, Poll(now), SECOND, hist.sec);
      StillShows(mins[..], log, Poll(now), MINUTE, hist.min);
      log := log + [Poll(now)];
      assert log[..|log| - 1] == old(log);
    }

    /** The last 120 one-second buckets, oldest first. */
    method Seconds(now: nat) returns (out: seq<Bucket>)
      requires Valid()
      modifies this, secs, mins
      ensures Valid() && log == old(log) + [Poll(now)]
      ensures out == WindowOf(log, SECOND, StateOf(log, true).sec, SECOND_BUCKETS)
      ensures |out| == 120 && CountsArrivals(out, log, SECOND)
    {
      SyncToNow(now);
      out := Window(secs, secEpoch, SECOND, hist.sec);
      WindowCountsArrivals(log, SECONDS);
    }

    /** The last 60 one-minute buckets, oldest first. */
    method Minutes(now: nat) returns (out: seq<Bucket>)
      requires Valid()
      modifies this, secs, mins
      ensures Valid() && log == old(log) + [Poll(now)]
      ensures out == WindowOf(log, MINUTE, StateOf(log, true).min, MINUTE_BUCKETS)
      ensures |out| == 60 && CountsArrivals(out, log, MINUTE)
    {
      SyncToNow(now);
      out := Window(mins, minEpoch, MINUTE, hist.min);
      WindowCountsArrivals(log, MINUTES);
    }
  }

  /** The newest `n` buckets of a history, oldest first; before the Unix epoch there is nothing. */
  ghost function WindowOf(log: seq<Op>, w: nat, tr: Track, n: nat): (out: seq<Bucket>)
    requires w > 0
    ensures |out| == n
  {
    seq(n, k requires 0 <= k < n =>
      var b := tr.epoch - (n - 1 - k);
      if b >= 0 then Expected(log, w, tr.gaps, b) else ZERO)
  }

  /** The window ends with the bucket the clock has come to, and each cell counts exactly the events that
      arrived during its bucket. */
  ghost predicate CountsArrivals(window: seq<Bucket>, log: seq<Op>, w: nat) {
    exists head: int :: IsHead(log, w, head)
      && forall k :: 0 <= k < |window| ==> window[k].count == |Arrivals(log, w, head - (|window| - 1 - k))|
  }

  lemma WindowCountsArrivals(log: seq<Op>, g: Grid)
    requires ValidGrid(g) && log != []
    ensures CountsArrivals(WindowOf(log, g.width, TrackOf(StateOf(log, true), g), g.size), log, g.width)
  {
    var tr := TrackOf(StateOf(log, true), g);
    var window := WindowOf(log, g.width, tr, g.size);
    RingClaims.TrackHeadIsHead(log, true, g);
    forall k | 0 <= k < |window|
      ensures window[k].count == |Arrivals(log, g.width, tr.epoch - (|window| - 1 - k))|
    {
      var b := tr.epoch - (|window| - 1 - k);
      assert window[k] == if b >= 0 then Expected(log, g.width, tr.gaps, b) else ZERO;
      CountIsArrivals(log, g.width, b);
      if b < 0 {
        NothingBeforeTheEpoch(log, g.width, b);
      }
    }
  }

  lemma {:induction false} NothingBeforeTheEpoch(log: seq<Op>, w: nat, b: int)
    requires w > 0 && b < 0
    ensures Count(log, w, b) == 0
  {
    if log != [] {
      NothingBeforeTheEpoch(log[..|log| - 1], w, b);
    }
  }

  /** The ring after an event in bucket `b`: counted if the bucket is visible. */
  function HitRing(ring: seq<Bucket>, epoch: int, b: nat): seq<Bucket> {
    if 0 <= epoch - b < |ring| then ring[b % |ring| := Bucket(ring[b % |ring|].count + 1, false)] else ring
  }

  lemma HitShows(ring: seq<Bucket>, log: seq<Op>, w: nat, tr: Track, t: nat)
    requires w > 0 && (|ring| == SECOND_BUCKETS || |ring| == MINUTE_BUCKETS)
    requires Shows(ring, log, w, tr)
    ensures Shows(HitRing(ring, tr.epoch, BucketAt(t, w)), log + [Op.Add(t)], w, Hit(tr, BucketAt(t, w)))
  {
    var hit, log' := BucketAt(t, w), log + [Op.Add(t)];
    var ring', tr' := HitRing(ring, tr.epoch, hit), Hit(tr, hit);
    assert log'[..|log|] == log;
    forall b: int
      ensures Seated(ring', log', w, tr', b)
    {
      ShowsAt(ring, log, w, tr, b);
      OtherSlot(ring, tr, b, hit);
    }
  }

  /** Two visible buckets have places of their own. */
  lemma OtherSlot(ring: seq<Bucket>, tr: Track, b: int, c: int)
    requires |ring| == SECOND_BUCKETS || |ring| == MINUTE_BUCKETS
    ensures tr.epoch - |ring| < b <= tr.epoch && tr.epoch - |ring| < c <= tr.epoch && b >= 0 && c >= 0 && b != c ==>
              b % |ring| != c % |ring|
  {
    if 0 <= b < c < b + |ring| {
      SlotsDiffer(b, c, |ring|);
    } else if 0 <= c < b < c + |ring| {
      SlotsDiffer(c, b, |ring|);
    }
  }

  /** A call that counts nothing leaves what is shown as it was. */
  lemma StillShows(ring: seq<Bucket>, log: seq<Op>, op: Op, w: nat, tr: Track)
    requires w > 0 && Shows(ring, log, w, tr) && !op.Add?
    ensures Shows(ring, log + [op], w, tr)
  {
    assert (log + [op])[..|log|] == log;
    forall b: int
      ensures Seated(ring, log + [op], w, tr, b)
    {
      ShowsAt(ring, log, w, tr, b);
    }
  }

  /** Buckets before the visible window need no marking. */
  lemma MarkNone(ring: seq<Bucket>, log: seq<Op>, w: nat, tr: Track, from: int, first: int)
    requires w > 0 && Shows(ring, log, w, tr)
    requires from <= first && (first == from || first <= tr.epoch - |ring| + 1)
    ensures Shows(ring, log, w, tr.(gaps := tr.gaps + Quiet(log, w, from, first - 1)))
  {
    var marked := tr.(gaps := tr.gaps + Quiet(log, w, from, first - 1));
    forall b: int
      ensures Seated(ring, log, w, marked, b)
    {
      ShowsAt(ring, log, w, tr, b);
    }
  }

  /** The ring after bucket `i` was marked, if it is visible and empty. */
  function MarkedAt(ring: seq<Bucket>, epoch: int, i: nat): seq<Bucket> {
    if 0 <= epoch - i < |ring| && ring[i % |ring|].count == 0
    then ring[i % |ring| := ring[i % |ring|].(gap := true)]
    else ring
  }

  lemma MarkOne(ring: seq<Bucket>, log: seq<Op>, w: nat, tr: Track, from: int, i: nat)
    requires w > 0 && (|ring| == SECOND_BUCKETS || |ring| == MINUTE_BUCKETS) && from <= i
    requires Shows(ring, log, w, tr.(gaps := tr.gaps + Quiet(log, w, from, i - 1)))
    ensures Shows(MarkedAt(ring, tr.epoch, i), log, w, tr.(gaps := tr.gaps + Quiet(log, w, from, i)))
  {
    var before := tr.(gaps := tr.gaps + Quiet(log, w, from, i - 1));
    var after := tr.(gaps := tr.gaps + Quiet(log, w, from, i));
    var ring' := MarkedAt(ring, tr.epoch, i);
    forall b: int
      ensures Seated(ring', log, w, after, b)
    {
      ShowsAt(ring, log, w, before, b);
      OtherSlot(ring, tr, b, i);
    }
  }

  /** Of the history, rolling a track forward looks at the open gap only. */
  lemma RollSeesTheGap(s: Hist, u: Hist, tr: Track, to: int, g: Grid)
    requires s.gapOpen == u.gapOpen && s.gapThrough == u.gapThrough
    ensures Roll(s, tr, to, g, true) == Roll(u, tr, to, g, true)
  {
    assert Opened(s, tr, to, g, true) == Opened(u, tr, to, g, true);
  }

  lemma RollByOne(ring: seq<Bucket>, log: seq<Op>, s: Hist, tr: Track, to: int, g: Grid)
    requires ValidGrid(g) && |ring| == g.size && Sane(log, s, g) && tr == TrackOf(s, g) && s.started
    requires tr.epoch < to < tr.epoch + g.size && Shows(ring, log, g.width, Roll(s, tr, to - 1, g, true))
    ensures Shows(ring[to % |ring| := Bucket(0, OpensAsGap(s, g.width, to))], log, g.width, Roll(s, tr, to, g, true))
  {
    var now, next := Roll(s, tr, to - 1, g, true), Roll(s, tr, to, g, true);
    NoCountPastHead(log, g.width, to, tr.epoch);
    var ring' := ring[to % |ring| := Bucket(0, OpensAsGap(s, g.width, to))];
    forall b: int
      ensures Seated(ring', log, g.width, next, b)
    {
      ShowsAt(ring, log, g.width, now, b);
      OtherSlot(ring, next, b, to);
    }
  }

  lemma RollInBulk(ring: seq<Bucket>, log: seq<Op>, s: Hist, tr: Track, to: int, g: Grid)
    requires ValidGrid(g) && |ring| == g.size && Sane(log, s, g) && tr == TrackOf(s, g) && s.started
    requires to >= tr.epoch + g.size
    requires forall i :: 0 <= i < |ring| ==>
               ring[i] == if i == to % |ring| then Bucket(0, OpensAsGap(s, g.width, to)) else ZERO
    ensures Shows(ring, log, g.width, Roll(s, tr, to, g, true))
  {
    var next := Roll(s, tr, to, g, true);
    forall b: int
      ensures Seated(ring, log, g.width, next, b)
    {
      if to - |ring| < b <= to && b >= 0 {
        NoCountPastHead(log, g.width, b, tr.epoch);
        OtherSlot(ring, next, b, to);
      }
    }
  }
}
