/** The sparkline resampler of `internal/ui/components/sparkline.go`: a series of buckets squeezed
    or stretched to a number of cells, each cell the tallest live bucket of its group. */
module Sparklines {
  import opened Basics
  import opened RingHistory

  const NO_DATA := Bucket(0, true)

  // ---------------------------------------------------------------- groups

  /** Where group `i` begins when `len` buckets make `n` cells. */
  function Lo(i: nat, len: nat, n: nat): nat
    requires n > 0
  {
    i * len / n
  }

  function Hi(i: nat, len: nat, n: nat): int
    requires n > 0
  {
    var hi := (i + 1) * len / n;
    Min(if hi <= Lo(i, len, n) then Lo(i, len, n) + 1 else hi, len)
  }

  /** The quotient is the one number whose multiples bracket the product. */
  lemma Bracket(x: nat, n: nat, q: nat)
    requires n > 0 && q * n <= x < q * n + n
    ensures x / n == q
  {
    var r := x / n;
    assert r * n + x % n == x;
    TimesMono(n, r + 1, q);
    TimesAdd(r, 1, n);
    TimesMono(n, q + 1, r);
    TimesAdd(q, 1, n);
  }

  lemma AtMost(x: nat, y: nat, n: nat)
    requires n > 0 && x <= y
    ensures x / n <= y / n
  {
    var q, r := x / n, y / n;
    assert q * n + x % n == x && r * n + y % n == y;
    TimesMono(n, r + 1, q);
    TimesAdd(r, 1, n);
  }

  lemma Below(x: nat, n: nat, q: nat)
    requires n > 0 && x < q * n
    ensures x / n < q
  {
    var r := x / n;
    assert r * n + x % n == x;
    TimesMono(n, q, r);
  }

  lemma StartBelow(i: nat, len: nat, n: nat)
    requires i < n && len > 0
    ensures Lo(i, len, n) < len
  {
    TimesAdd(i, 1, len);
    TimesMono(len, i + 1, n);
    Below(i * len, n, len);
  }

  lemma EndAtMost(i: nat, len: nat, n: nat)
    requires i <= n && n > 0
    ensures Lo(i, len, n) <= len
  {
    TimesMono(len, i, n);
    AtMost(i * len, n * len, n);
    EndsAtTheEnd(len, n);
  }

  /** Every group is non-empty and in range. */
  lemma GroupInRange(i: nat, len: nat, n: nat)
    requires i < n && len > 0
    ensures 0 <= Lo(i, len, n) < Hi(i, len, n) <= len
    ensures Lo(i + 1, len, n) <= Hi(i, len, n)
  {
    StartBelow(i, len, n);
    EndAtMost(i + 1, len, n);
  }

  lemma EndsAtTheEnd(len: nat, n: nat)
    requires n > 0
    ensures Lo(0, len, n) == 0 && Lo(n, len, n) == len
  {
    Bracket(n * len, n, len);
    Bracket(0 * len, n, 0);
  }

  /** The group that holds bucket `k`. */
  lemma {:induction false} GroupOf(k: nat, i: nat, len: nat, n: nat) returns (j: nat)
    requires i <= n && n > 0 && len > 0 && k < Lo(i, len, n)
    ensures j < i && Lo(j, len, n) <= k < Hi(j, len, n)
  {
    if i == 0 {
      EndsAtTheEnd(len, n);
      assert false;
    } else if k < Lo(i - 1, len, n) {
      j := GroupOf(k, i - 1, len, n);
    } else {
      j := i - 1;
      GroupInRange(j, len, n);
    }
  }

  /** No bucket is left out. */
  lemma GroupsCover(k: nat, len: nat, n: nat) returns (j: nat)
    requires k < len && n > 0
    ensures j < n && Lo(j, len, n) <= k < Hi(j, len, n)
  {
    EndsAtTheEnd(len, n);
    j := GroupOf(k, n, len, n);
  }

  lemma NextGroup(i: nat, len: nat, n: nat)
    requires 0 < n <= len && i < n
    ensures Hi(i, len, n) == Lo(i + 1, len, n)
  {
    GroupInRange(i, len, n);
    Moves(i * len, len, n);
    TimesAdd(i, 1, len);
  }

  lemma Moves(x: nat, len: nat, n: nat)
    requires 0 < n <= len
    ensures x / n + 1 <= (x + len) / n
  {
    var q := x / n;
    assert q * n + x % n == x;
    TimesAdd(q, 1, n);
    AtMost((q + 1) * n, x + len, n);
    Bracket((q + 1) * n, n, q + 1);
  }

  /** Each group begins where the one before it ended exactly when there are no more cells than
      buckets; then the groups are a partition. */
  lemma GroupsPartition(len: nat, n: nat)
    requires n > 0 && len > 0
    ensures (forall i :: 0 <= i < n ==> Hi(i, len, n) == Lo(i + 1, len, n)) <==> n <= len
  {
    if n <= len {
      forall i | 0 <= i < n
        ensures Hi(i, len, n) == Lo(i + 1, len, n)
      {
        NextGroup(i, len, n);
      }
    } else {
      EndsAtTheEnd(len, n);
      Bracket(1 * len, n, 0);
      assert Hi(0, len, n) == 1 && Lo(0 + 1, len, n) == 0;
    }
  }

  lemma MovesAtMost(x: nat, len: nat, n: nat)
    requires n > 0
    ensures x / n + len / n <= (x + len) / n <= x / n + len / n + 1
  {
    var p, q := x / n, len / n;
    assert p * n + x % n == x && q * n + len % n == len;
    TimesAdd(p, q, n);
    TimesAdd(p + q, 1, n);
    TimesAdd(p + q, 2, n);
    AtMost((p + q) * n, x + len, n);
    Bracket((p + q) * n, n, p + q);
    Below(x + len, n, p + q + 2);
  }

  /** The groups are even: with no more cells than buckets their sizes differ by at most one, and with
      more cells every group is a single bucket. */
  lemma GroupsAreEven(i: nat, len: nat, n: nat)
    requires i < n && len > 0
    ensures n <= len ==> len / n <= Hi(i, len, n) - Lo(i, len, n) <= len / n + 1
    ensures n > len ==> Hi(i, len, n) - Lo(i, len, n) == 1
  {
    GroupInRange(i, len, n);
    TimesAdd(i, 1, len);
    MovesAtMost(i * len, len, n);
    EndAtMost(i + 1, len, n);
    if n <= len {
      NextGroup(i, len, n);
    } else {
      Bracket(len, n, 0);
    }
  }

  // ---------------------------------------------------------------- cells

  /** The tallest live bucket, or zero when none is live. */
  function Peak(bs: seq<Bucket>): (p: nat)
    ensures forall i :: 0 <= i < |bs| && !bs[i].gap ==> bs[i].count <= p
    ensures p > 0 ==> exists i :: 0 <= i < |bs| && !bs[i].gap && bs[i].count == p
  {
    if bs == [] then 0
    else
      var n := |bs| - 1;
      if bs[n].gap then Peak(bs[..n]) else Max(Peak(bs[..n]), bs[n].count)
  }

  /** The cell that stands for a group: its peak, and a gap only when every bucket is one. */
  ghost predicate StandsFor(group: seq<Bucket>, cell: Bucket) {
    && cell.count == Peak(group)
    && (cell.gap <==> forall i :: 0 <= i < |group| ==> group[i].gap)
  }

  method Merge(group: seq<Bucket>) returns (agg: Bucket)
    ensures StandsFor(group, agg)
  {
    agg := NO_DATA;
    for i := 0 to |group|
      invariant StandsFor(group[..i], agg)
    {
      var b := group[i];
      assert group[..i + 1][..i] == group[..i];
      assert forall k :: 0 <= k < i ==> group[..i][k] == group[k];
      if !b.gap {
        agg := Bucket(if b.count > agg.count then b.count else agg.count, false);
        assert group[..i + 1][i] == b;
      }
    }
    assert group[..|group|] == group;
  }

  /** `cells` are `buckets` resampled: each cell stands for its group, or for nothing at all when
      there are no buckets. */
  ghost predicate Resampled(buckets: seq<Bucket>, cells: seq<Bucket>) {
    var len, n := |buckets|, |cells|;
    forall i :: 0 <= i < n ==>
      if len == 0 then cells[i] == NO_DATA
      else 0 <= Lo(i, len, n) <= Hi(i, len, n) <= len && StandsFor(buckets[Lo(i, len, n)..Hi(i, len, n)], cells[i])
  }

  method Resample(buckets: seq<Bucket>, n: nat) returns (out: array<Bucket>)
    ensures fresh(out) && out.Length == n && Resampled(buckets, out[..])
  {
    out := new Bucket[n](_ => Bucket(0, false));
    if |buckets| == 0 {
      for i := 0 to n
        invariant forall k :: 0 <= k < i ==> out[k] == NO_DATA
      {
        out[i] := NO_DATA;
      }
      return;
    }
    var len := |buckets|;
    for i := 0 to n
      invariant forall k :: 0 <= k < i ==>
        0 <= Lo(k, len, n) <= Hi(k, len, n) <= len && StandsFor(buckets[Lo(k, len, n)..Hi(k, len, n)], out[k])
    {
      var lo := i * len / n;
      var hi := (i + 1) * len / n;
      if hi <= lo {
        hi := lo + 1;
      }
      if hi > len {
        hi := len;
      }
      GroupInRange(i, len, n);
      assert lo == Lo(i, len, n) && hi == Hi(i, len, n);
      var cell := Merge(buckets[lo..hi]);
      out[i] := cell;
    }
  }

  /** One live bucket always shows as a live cell at least as tall. */
  lemma LiveBucketsShow(buckets: seq<Bucket>, cells: seq<Bucket>, k: nat) returns (j: nat)
    requires Resampled(buckets, cells) && cells != [] && k < |buckets| && !buckets[k].gap
    ensures j < |cells| && !cells[j].gap && cells[j].count >= buckets[k].count
  {
    var len, n := |buckets|, |cells|;
    j := GroupsCover(k, len, n);
    var group := buckets[Lo(j, len, n)..Hi(j, len, n)];
    assert group[k - Lo(j, len, n)] == buckets[k];
  }

  /** A live cell was some live bucket. */
  lemma CellsAreBuckets(buckets: seq<Bucket>, cells: seq<Bucket>, j: nat) returns (k: nat)
    requires Resampled(buckets, cells) && buckets != [] && j < |cells| && !cells[j].gap && cells[j].count > 0
    ensures k < |buckets| && !buckets[k].gap && buckets[k].count == cells[j].count
  {
    var len, n := |buckets|, |cells|;
    var group := buckets[Lo(j, len, n)..Hi(j, len, n)];
    assert StandsFor(group, cells[j]) && Peak(group) > 0;
    var i :| 0 <= i < |group| && !group[i].gap && group[i].count == Peak(group);
    k := Lo(j, len, n) + i;
  }

  /** No spike is averaged away and none invented: the peak of the cells is the peak of the
      buckets, so the scale drawn from either is the same. */
  lemma PeakSurvives(buckets: seq<Bucket>, cells: seq<Bucket>)
    requires Resampled(buckets, cells) && cells != []
    ensures Peak(cells) == Peak(buckets)
  {
    if Peak(buckets) > 0 {
      var k :| 0 <= k < |buckets| && !buckets[k].gap && buckets[k].count == Peak(buckets);
      var j := LiveBucketsShow(buckets, cells, k);
    }
    if Peak(cells) > 0 {
      var j :| 0 <= j < |cells| && !cells[j].gap && cells[j].count == Peak(cells);
      var k := CellsAreBuckets(buckets, cells, j);
    }
  }

  /** The tallest live cell, by which the line is scaled. */
  method Autoscale(sampled: seq<Bucket>, fixedMax: nat) returns (scale: nat)
    ensures scale == if fixedMax != 0 then fixedMax else Peak(sampled)
  {
    if fixedMax != 0 {
      return fixedMax;
    }
    scale := 0;
    for i := 0 to |sampled|
      invariant scale == Peak(sampled[..i])
    {
      assert sampled[..i + 1][..i] == sampled[..i];
      if !sampled[i].gap && sampled[i].count > scale {
        scale := sampled[i].count;
      }
    }
    assert sampled[..|sampled|] == sampled;
  }
}
