/** The bounded backward scan of `Cache.Snapshot` (`internal/cache/cache.go`): how far it may look,
    computed in 64 bits, and what it finds. `marks[i]` says that the query chooses the event at `i`. */
module Scans {
  import opened Basics

  const TWO63: int := 0x8000_0000_0000_0000
  const SCAN_BUDGET: int := 8

  /** Signed 64-bit arithmetic. */
  function Wrapped(x: int): int {
    (x + TWO63) % (2 * TWO63) - TWO63
  }

  /** How far back a snapshot may look, computed in 64 bits. */
  function ScanBound(limit: int, n: nat): nat
    requires 0 < limit < TWO63
  {
    var bound := Wrapped(limit * SCAN_BUDGET);
    if bound < limit || bound > n then n else bound
  }

  /** The wrap-checked product is the mathematical bound, but for one family: the product wrapped
      and still landed between the limit and the number of events. */
  lemma ScanBoundIsExact(limit: int, n: nat)
    requires 0 < limit < TWO63 && n < TWO63
    ensures ScanBound(limit, n) == Min(8 * limit, n)
      <==> !(8 * limit >= TWO63 && limit <= Wrapped(8 * limit) < n)
  {
    if 8 * limit < TWO63 {
      assert Wrapped(8 * limit) == 8 * limit;
    }
  }

  /** The family is out of reach of any list of at most 2^60 elements. */
  lemma ScanBoundIsMin(limit: int, n: nat)
    requires 0 < limit < TWO63 && n <= TWO63 / 8
    ensures ScanBound(limit, n) == Min(8 * limit, n)
  {
    ScanBoundIsExact(limit, n);
  }

  /** The matches at positions `lo` up to `hi`, in order. */
  ghost function Kept<T>(es: seq<T>, marks: seq<bool>, lo: int, hi: int): (r: seq<T>)
    requires 0 <= lo <= hi <= |es| == |marks|
    ensures |r| <= hi - lo
    decreases hi - lo
  {
    if lo == hi then []
    else Kept(es, marks, lo, hi - 1) + if marks[hi - 1] then [es[hi - 1]] else []
  }

  /** `at` lists, in order, exactly the marked positions. */
  ghost predicate MarkedPositions(marks: seq<bool>, lo: int, hi: int, at: seq<int>) {
    && (forall k :: 0 <= k < |at| ==> lo <= at[k] < hi <= |marks| && 0 <= at[k] && marks[at[k]])
    && (forall k :: 0 <= k < |at| - 1 ==> at[k] < at[k + 1])
    && (forall i :: lo <= i < hi && 0 <= i < |marks| && marks[i] ==> i in at)
  }

  lemma OneMoreMarked(marks: seq<bool>, lo: int, hi: int, before: seq<int>)
    requires 0 <= lo < hi <= |marks| && marks[hi - 1] && MarkedPositions(marks, lo, hi - 1, before)
    ensures MarkedPositions(marks, lo, hi, before + [hi - 1])
  {
    var at := before + [hi - 1];
    forall i | lo <= i < hi && marks[i]
      ensures i in at
    {
      assert i < hi - 1 ==> i in before;
      assert at[|before|] == hi - 1;
    }
  }

  /** What is kept are the elements at the marked positions, each once and in order. */
  lemma {:induction false} KeptAreMarked<T>(es: seq<T>, marks: seq<bool>, lo: int, hi: int) returns (at: seq<int>)
    requires 0 <= lo <= hi <= |es| == |marks|
    ensures MarkedPositions(marks, lo, hi, at)
    ensures |Kept(es, marks, lo, hi)| == |at| && forall k :: 0 <= k < |at| ==> Kept(es, marks, lo, hi)[k] == es[at[k]]
    decreases hi - lo
  {
    if lo == hi {
      at := [];
    } else {
      var before := KeptAreMarked(es, marks, lo, hi - 1);
      if marks[hi - 1] {
        at := before + [hi - 1];
        OneMoreMarked(marks, lo, hi, before);
      } else {
        at := before;
      }
    }
  }

  lemma {:induction false} KeptSplit<T>(es: seq<T>, marks: seq<bool>, lo: int, mid: int, hi: int)
    requires 0 <= lo <= mid <= hi <= |es| == |marks|
    ensures Kept(es, marks, lo, hi) == Kept(es, marks, lo, mid) + Kept(es, marks, mid, hi)
    decreases hi - mid
  {
    if mid < hi {
      KeptSplit(es, marks, lo, mid, hi - 1);
    }
  }

  lemma KeptFirst<T>(es: seq<T>, marks: seq<bool>, lo: int, hi: int)
    requires 0 <= lo < hi <= |es| == |marks|
    ensures Kept(es, marks, lo, hi) == (if marks[lo] then [es[lo]] else []) + Kept(es, marks, lo + 1, hi)
  {
    KeptSplit(es, marks, lo, lo + 1, hi);
    assert Kept(es, marks, lo, lo) == [];
  }

  /** Where the backward scan is: `got` is what it found, newest first. */
  ghost predicate Looking<T>(es: seq<T>, marks: seq<bool>, limit: nat, bound: nat, scanned: nat, got: seq<T>) {
    && scanned <= bound <= |es| == |marks|
    && IsReverse(got, Kept(es, marks, |es| - scanned, |es|)) && |got| <= limit
    && (scanned > 0 ==> |Kept(es, marks, |es| - scanned + 1, |es|)| < limit)
  }

  lemma LookStep<T>(es: seq<T>, marks: seq<bool>, limit: nat, bound: nat, scanned: nat, got: seq<T>)
    requires Looking(es, marks, limit, bound, scanned, got) && scanned < bound && |got| < limit
    ensures var e := es[|es| - scanned - 1];
            Looking(es, marks, limit, bound, scanned + 1, if marks[|es| - scanned - 1] then got + [e] else got)
  {
    var i := |es| - scanned - 1;
    KeptFirst(es, marks, i, |es|);
    var later := Kept(es, marks, i + 1, |es|);
    if marks[i] {
      GrowReverse(got, later, es[i]);
    } else {
      assert Kept(es, marks, i, |es|) == [] + later == later;
    }
  }

  lemma LookDone<T>(es: seq<T>, marks: seq<bool>, limit: nat, bound: nat, scanned: nat, got: seq<T>)
    requires Looking(es, marks, limit, bound, scanned, got) && (scanned == bound || |got| == limit)
    ensures var kept := Kept(es, marks, |es| - scanned, |es|);
            IsReverse(got, kept) && Scanned(es, marks, limit, bound, scanned, kept)
  {}

  lemma GrowReverse<T>(s: seq<T>, t: seq<T>, e: T)
    requires IsReverse(s, t)
    ensures IsReverse(s + [e], [e] + t)
  {}

  /** The view is every match among the last `scanned` events, and the scan stopped at the bound,
      or at the very event that filled the limit. */
  ghost predicate Scanned<T>(es: seq<T>, marks: seq<bool>, limit: int, bound: nat, scanned: nat, view: seq<T>) {
    && scanned <= bound <= |es| == |marks|
    && view == Kept(es, marks, |es| - scanned, |es|) && |view| <= limit
    && (scanned == bound || |view| == limit)
    && (scanned > 0 ==> |Kept(es, marks, |es| - scanned + 1, |es|)| < limit)
  }

  ghost function Newest<T>(es: seq<T>, limit: nat): seq<T> {
    if |es| <= limit then es else es[|es| - limit..]
  }

  lemma NewestOfSum<T>(a: seq<T>, b: seq<T>, limit: nat)
    requires |b| <= limit && (a == [] || |b| == limit)
    ensures Newest(a + b, limit) == b
  {
    assert a == [] ==> a + b == b;
  }

  /** What a snapshot shows is the newest `limit` matches among the last `bound` events. */
  lemma SnapshotIsNewest<T>(es: seq<T>, marks: seq<bool>, limit: nat, bound: nat, scanned: nat, view: seq<T>)
    requires Scanned(es, marks, limit, bound, scanned, view)
    ensures view == Newest(Kept(es, marks, |es| - bound, |es|), limit)
  {
    KeptSplit(es, marks, |es| - bound, |es| - scanned, |es|);
    var early := Kept(es, marks, |es| - bound, |es| - scanned);
    if scanned == bound {
      assert early == [];
    }
    NewestOfSum(early, view, limit);
  }

  /** When the status bar does not say how far the filter looked back, the view is the newest
      `limit` of everything that matches. */
  lemma WithoutANoteNothingIsMissing<T>(es: seq<T>, marks: seq<bool>, limit: nat, bound: nat, scanned: nat,
      view: seq<T>)
    requires Scanned(es, marks, limit, bound, scanned, view)
    requires |view| >= limit || scanned >= |es|
    ensures view == Newest(Kept(es, marks, 0, |es|), limit)
  {
    KeptSplit(es, marks, 0, |es| - scanned, |es|);
    var early := Kept(es, marks, 0, |es| - scanned);
    if scanned == |es| {
      assert early == [];
    }
    NewestOfSum(early, view, limit);
  }

  ghost predicate IsReverse<T>(s: seq<T>, t: seq<T>) {
    |s| == |t| && forall k :: 0 <= k < |s| ==> s[k] == t[|t| - 1 - k]
  }

  lemma IsReverseUnique<T>(s: seq<T>, t: seq<T>, u: seq<T>)
    requires IsReverse(s, t) && IsReverse(s, u)
    ensures t == u
  {
    forall k | 0 <= k < |t| ensures t[k] == u[k] {
      assert s[|s| - 1 - k] == t[k];
    }
  }

  /** Reverses a list by swapping from both ends. */
  method ReverseInPlace<T>(s: seq<T>) returns (r: seq<T>)
    ensures IsReverse(s, r)
  {
    r := s;
    var i, j := 0, |s| - 1;
    while i < j
      invariant 0 <= i && i + j == |s| - 1 && i <= j + 1 && |r| == |s|
      invariant forall k :: 0 <= k < i ==> r[k] == s[|s| - 1 - k] && r[|s| - 1 - k] == s[k]
      invariant forall k :: i <= k <= j ==> r[k] == s[k]
    {
      r := r[i := r[j]][j := r[i]];
      i, j := i + 1, j - 1;
    }
  }
}
