/** The event cache of `internal/cache/cache.go`: a memory-bounded list that sheds payloads first
    and drops whole events last, and a bounded scan for the newest matches. */
module Caches {
  import opened Basics
  import opened Events
  import opened Queries
  import opened Scans

  /** An event once its payload was shed; one that never had a payload is left as it was. */
  function Strip(e: Event): Event {
    if e.payload.Some? then e.(payload := None, shed := true) else e
  }

  /** The events after their first `n` were stripped, one after another. */
  function Stripped(es: seq<Event>, n: nat): (r: seq<Event>)
    requires n <= |es|
    ensures |r| == |es|
  {
    if n == 0 then es else Stripped(es, n - 1)[n - 1 := Strip(es[n - 1])]
  }

  lemma {:induction false} StrippedAt(es: seq<Event>, n: nat, k: nat)
    requires n <= |es| && k < |es|
    ensures Stripped(es, n)[k] == if k < n then Strip(es[k]) else es[k]
  {
    if n > 0 {
      StrippedAt(es, n - 1, k);
    }
  }

  /** The size of the first `n` events. */
  function SizeTo(es: seq<Event>, n: nat): nat
    requires n <= |es|
  {
    if n == 0 then 0 else SizeTo(es, n - 1) + Size(es[n - 1])
  }

  function TotalSize(es: seq<Event>): nat {
    SizeTo(es, |es|)
  }

  /** How many of the first `n` events carry a payload. */
  function PayloadsTo(es: seq<Event>, n: nat): nat
    requires n <= |es|
  {
    if n == 0 then 0 else PayloadsTo(es, n - 1) + if es[n - 1].payload.Some? then 1 else 0
  }

  ghost function PayloadPlaces(es: seq<Event>, n: nat): set<nat>
    requires n <= |es|
  {
    set i: nat | i < n && es[i].payload.Some?
  }

  /** Payloads are counted one by one. */
  lemma {:induction false} PayloadsAre(es: seq<Event>, n: nat)
    requires n <= |es|
    ensures PayloadsTo(es, n) == |PayloadPlaces(es, n)|
  {
    if n > 0 {
      PayloadsAre(es, n - 1);
      assert PayloadPlaces(es, n) == PayloadPlaces(es, n - 1) + if es[n - 1].payload.Some? then {n - 1} else {};
    } else {
      assert PayloadPlaces(es, 0) == {};
    }
  }

  lemma {:induction false} SameSize(es: seq<Event>, fs: seq<Event>, n: nat)
    requires n <= |es| && n <= |fs| && es[..n] == fs[..n]
    ensures SizeTo(es, n) == SizeTo(fs, n) && PayloadsTo(es, n) == PayloadsTo(fs, n)
  {
    if n > 0 {
      assert es[..n][n - 1] == fs[..n][n - 1];
      assert es[..n][..n - 1] == es[..n - 1] && fs[..n][..n - 1] == fs[..n - 1];
      SameSize(es, fs, n - 1);
    }
  }

  /** One more event adds its own size and no more. */
  lemma SizesAppend(es: seq<Event>, n: nat, e: Event)
    requires n <= |es|
    ensures SizeTo(es + [e], n) == SizeTo(es, n) && PayloadsTo(es + [e], n) == PayloadsTo(es, n)
    ensures TotalSize(es + [e]) == TotalSize(es) + Size(e)
  {
    SameSize(es, es + [e], n);
    SameSize(es, es + [e], |es|);
  }

  lemma {:induction false} SizeOfTail(es: seq<Event>, n: nat)
    requires 0 < n <= |es|
    ensures SizeTo(es, n) == Size(es[0]) + SizeTo(es[1..], n - 1)
  {
    if n > 1 {
      SizeOfTail(es, n - 1);
    }
  }

  lemma {:induction false} SizeAfterStrip(es: seq<Event>, i: nat, n: nat)
    requires i < n <= |es|
    ensures SizeTo(es[i := Strip(es[i])], n) == SizeTo(es, n) - PayloadSize(es[i])
  {
    if i == n - 1 {
      SameSize(es, es[i := Strip(es[i])], i);
    } else {
      SizeAfterStrip(es, i, n - 1);
    }
  }

  /** What the cache holds of everything ever added: a suffix, changed only by shedding a prefix of
      it; the accounting is exact, and no event was shed twice or dropped unshed. */
  ghost predicate Holds(added: seq<Event>, events: seq<Event>, used: int, shedIdx: nat, shed: nat, dropped: nat,
      turns: nat) {
    && dropped + |events| == |added| && shedIdx <= |events|
    && events == Stripped(added[dropped..], shedIdx)
    && used == TotalSize(events)
    && shed == PayloadsTo(added, dropped + shedIdx)
    && turns == (dropped + shedIdx) + dropped
  }

  lemma AddHolds(added: seq<Event>, events: seq<Event>, used: int, shedIdx: nat, shed: nat, dropped: nat,
      turns: nat, e: Event)
    requires Holds(added, events, used, shedIdx, shed, dropped, turns)
    ensures Holds(added + [e], events + [e], used + Size(e), shedIdx, shed, dropped, turns)
  {
    assert (added + [e])[dropped..] == added[dropped..] + [e];
    SizesAppend(added, dropped + shedIdx, e);
    SizesAppend(events, |events|, e);
    AppendStripped(added[dropped..], shedIdx, e);
  }

  lemma ShedHolds(added: seq<Event>, events: seq<Event>, used: int, shedIdx: nat, shed: nat, dropped: nat, turns: nat)
    requires Holds(added, events, used, shedIdx, shed, dropped, turns) && shedIdx < |events|
    ensures var e := events[shedIdx];
            Holds(added, events[shedIdx := Strip(e)], used - PayloadSize(e), shedIdx + 1,
                  shed + (if e.payload.Some? then 1 else 0), dropped, turns + 1)
  {
    StripNext(added[dropped..], shedIdx);
    SizeAfterStrip(events, shedIdx, |events|);
    assert added[dropped..][shedIdx] == added[dropped + shedIdx];
  }

  lemma DropHolds(added: seq<Event>, events: seq<Event>, used: int, shedIdx: nat, shed: nat, dropped: nat, turns: nat)
    requires Holds(added, events, used, shedIdx, shed, dropped, turns) && 0 < shedIdx
    ensures Holds(added, events[1..], used - Size(events[0]), shedIdx - 1, shed, dropped + 1, turns + 1)
  {
    SizeOfTail(events, |events|);
    TailStripped(added[dropped..], shedIdx);
    assert added[dropped..][1..] == added[dropped + 1..];
  }

  lemma {:induction false} EveryEventWeighs(es: seq<Event>, n: nat)
    requires n <= |es|
    ensures SizeTo(es, n) >= PER_EVENT_OVERHEAD * n
  {
    if n > 0 {
      EveryEventWeighs(es, n - 1);
    }
  }

  /** A 64-bit budget of bytes holds fewer than 2^55 events. */
  lemma RetainedAreFew(events: seq<Event>, used: int, budget: int)
    requires used == TotalSize(events) && budget < TWO63 && (used <= budget || events == [])
    ensures |events| < TWO63 / PER_EVENT_OVERHEAD
  {
    EveryEventWeighs(events, |events|);
  }

  /** The budget readout: bytes retained, the ceiling they are held under, events retained, and the
      payloads and events given up so far. */
  datatype Stats = Stats(used: int, budget: int, events: nat, shed: nat, dropped: nat)

  class Cache {
    const budget: int
    var used: int
    var events: seq<Event>
    var shedIdx: nat
    var shed: nat
    var dropped: nat

    /** Every event ever added, and how many turns the two loops have made. */
    ghost var added: seq<Event>
    ghost var turns: nat

    /** The accounting is exact. */
    ghost predicate Books()
      reads this
    {
      Holds(added, events, used, shedIdx, shed, dropped, turns)
    }

    /** Between calls the budget is met too, or nothing is left to give up. */
    ghost predicate Valid()
      reads this
    {
      Books() && budget < TWO63 && (used <= budget || events == [])
    }

    /** `budget` is a signed 64-bit number of bytes. */
    constructor (budget: int)
      requires -TWO63 <= budget < TWO63
      ensures Valid() && this.budget == budget && added == []
    {
      this.budget := budget;
      used, events, shedIdx, shed, dropped, added, turns := 0, [], 0, 0, 0, [], 0;
    }

    /** Folds one event into the cache. `cut` is where shedding stopped and `lost` how many events
        were dropped, counting from the oldest event retained before. */
    method Add(e: Event) returns (ghost cut: nat, ghost lost: nat)
      requires Valid()
      modifies this
      ensures Valid() && added == old(added) + [e]
      ensures Degraded(added[old(dropped)..], old(shedIdx), cut, lost) && dropped == old(dropped) + lost
      ensures AllKept(added, events, dropped, shedIdx)
      ensures turns <= 2 * |added|
    {
      AddHolds(added, events, used, shedIdx, shed, dropped, turns, e);
      added := added + [e];
      events := events + [e];
      used := used + Size(e);
      cut, lost := Degrade();
      AllAreKept(added, events, used, shedIdx, shed, dropped, turns);
    }

    /** The least prefix is shed, and then the least dropped, that the budget asks for; what is left is
        the events retained before, changed by just that. */
    ghost predicate Degraded(all: seq<Event>, from: nat, cut: nat, lost: nat)
      reads this
    {
      Greedy(all, budget, from, cut, lost) && shedIdx == cut - lost && events == Stripped(all, cut)[lost..]
    }

    /** Brings the cache back under budget: sheds payloads first, and drops events only once every
        payload is gone. */
    method Degrade() returns (ghost cut: nat, ghost lost: nat)
      requires Books()
      modifies this`events, this`used, this`shedIdx, this`shed, this`dropped, this`turns
      ensures Books() && (used <= budget || events == [])
      ensures Degraded(added[old(dropped)..], old(shedIdx), cut, lost) && dropped == old(dropped) + lost
    {
      cut := ShedPayloads();
      lost := DropEvents();
    }

    /** The first stage: sheds payloads oldest first until the budget is met or none is left. */
    method ShedPayloads() returns (ghost cut: nat)
      requires Books()
      modifies this`events, this`used, this`shedIdx, this`shed, this`turns
      ensures Books() && shedIdx == cut
      ensures var all := added[dropped..];
              && old(shedIdx) <= cut <= |all|
              && (forall i :: old(shedIdx) <= i < cut ==> TotalSize(Stripped(all, i)) > budget)
              && (cut < |all| ==> used <= budget)
    {
      while used > budget && shedIdx < |events|
        invariant Books() && old(shedIdx) <= shedIdx <= |added[dropped..]|
        invariant forall i :: old(shedIdx) <= i < shedIdx ==> TotalSize(Stripped(added[dropped..], i)) > budget
        decreases |events| - shedIdx
      {
        ShedNext();
      }
      cut := shedIdx;
    }

    /** Sheds the payload under the cursor, if there is one, and moves on. */
    method ShedNext()
      requires Books() && shedIdx < |events|
      modifies this`events, this`used, this`shedIdx, this`shed, this`turns
      ensures Books() && shedIdx == old(shedIdx) + 1 && |events| == old(|events|)
    {
      ShedHolds(added, events, used, shedIdx, shed, dropped, turns);
      var e := events[shedIdx];
      if e.payload.Some? {
        used := used - |e.payload.value|;
        events := events[shedIdx := e.(payload := None, shed := true)];
        shed := shed + 1;
      }
      shedIdx := shedIdx + 1;
      turns := turns + 1;
    }

    /** The second stage: drops whole events oldest first until the budget is met or none is left. */
    method DropEvents() returns (ghost lost: nat)
      requires Books() && (shedIdx < |events| ==> used <= budget)
      modifies this`events, this`used, this`shedIdx, this`dropped, this`turns
      ensures Books() && dropped == old(dropped) + lost && shedIdx + lost == old(shedIdx)
      ensures lost <= |old(events)| && events == old(events)[lost..]
      ensures lost > 0 ==> old(shedIdx) == |old(events)|
      ensures forall j :: 0 <= j < lost ==> TotalSize(old(events)[j..]) > budget
      ensures lost < |old(events)| ==> used <= budget
    {
      ghost var es := events;
      lost := 0;
      assert es[0..] == es;
      while used > budget && |events| > 0
        invariant Books() && dropped == old(dropped) + lost && shedIdx + lost == old(shedIdx)
        invariant lost <= |es| && events == es[lost..]
        invariant shedIdx < |events| ==> used <= budget && lost == 0
        invariant OverAt(es, lost, budget)
        decreases |events|
      {
        TailOfTail(es, lost);
        DropNext();
        lost := lost + 1;
      }
    }

    /** Drops the oldest event; everything retained was shed before. */
    method DropNext()
      requires Books() && shedIdx == |events| > 0
      modifies this`events, this`used, this`shedIdx, this`dropped, this`turns
      ensures Books() && shedIdx == old(shedIdx) - 1 && dropped == old(dropped) + 1 && events == old(events)[1..]
    {
      DropHolds(added, events, used, shedIdx, shed, dropped, turns);
      used := used - Size(events[0]);
      events := events[1..];
      dropped := dropped + 1;
      if shedIdx > 0 {
        shedIdx := shedIdx - 1;
      }
      turns := turns + 1;
    }

    /** The newest `limit` matches among the last 8 times as many events, oldest first, and how many
        events it examined. `limit` is a signed 64-bit integer. */
    method Snapshot(m: Option<Query>, limit: int) returns (view: seq<Event>, scanned: nat)
      requires Valid() && -TWO63 <= limit < TWO63 && (m.Some? ==> CompiledQuery(m.value))
      ensures limit <= 0 ==> view == [] && scanned == 0
      ensures limit > 0 ==> var reach := Min(8 * limit, |events|);
                Scanned(events, Marks(m, events), limit, reach, scanned, view) &&
                view == Newest(Kept(events, Marks(m, events), |events| - reach, |events|), limit)
    {
      if limit <= 0 {
        return [], 0;
      }
      var bound := Wrapped(limit * SCAN_BUDGET);
      if bound < limit || bound > |events| {
        bound := |events|;
      }
      RetainedAreFew(events, used, budget);
      ScanBoundIsMin(limit, |events|);
      ghost var marks := Marks(m, events);
      var found;
      found, scanned := ScanBack(m, events, limit, bound, marks);
      LookDone(events, marks, limit, bound, scanned, found);
      view := ReverseInPlace(found);
      IsReverseUnique(found, view, Kept(events, marks, |events| - scanned, |events|));
      SnapshotIsNewest(events, marks, limit, bound, scanned, view);
    }

    /** The budget readout, in constant time: every event ever added is retained or was dropped, and every
        payload that came before the cursor was shed. */
    method Readout() returns (s: Stats)
      requires Books()
      ensures s.used == TotalSize(events) && s.budget == budget && s.events == |events|
      ensures s.events + s.dropped == |added| && s.dropped == dropped
      ensures s.shed == PayloadsTo(added, dropped + shedIdx)
    {
      s := Stats(used, budget, |events|, shed, dropped);
    }

    /** A copy of everything retained, oldest first; the array is the caller's own. */
    method All() returns (out: array<Event>)
      ensures fresh(out) && out[..] == events
    {
      out := new Event[|events|](i requires 0 <= i < |events| reads this => events[i]);
    }
  }

  /** Every one of the first `n` tails is over the budget. */
  ghost predicate OverAt(es: seq<Event>, n: nat, budget: int)
    requires n <= |es|
  {
    forall j :: 0 <= j < n ==> TotalSize(es[j..]) > budget
  }

  lemma TailOfTail(es: seq<Event>, k: nat)
    requires k < |es|
    ensures es[k..][1..] == es[k + 1..]
  {}

  lemma {:induction false} AppendStripped(all: seq<Event>, n: nat, e: Event)
    requires n <= |all|
    ensures Stripped(all, n) + [e] == Stripped(all + [e], n)
  {
    if n > 0 {
      AppendStripped(all, n - 1, e);
    }
  }

  lemma StripNext(all: seq<Event>, i: nat)
    requires i < |all|
    ensures Stripped(all, i)[i] == all[i]
    ensures Stripped(all, i + 1) == Stripped(all, i)[i := Strip(all[i])]
  {
    StrippedAt(all, i, i);
  }

  lemma {:induction false} TailStripped(all: seq<Event>, n: nat)
    requires 0 < n <= |all|
    ensures Stripped(all, n)[1..] == Stripped(all[1..], n - 1)
  {
    if n > 1 {
      TailStripped(all, n - 1);
    }
  }

  /** The two-stage policy: shed the least prefix, from where shedding had come, that meets the
      budget; only if shedding everything fails, drop the least prefix that does. */
  ghost predicate Greedy(all: seq<Event>, budget: int, from: nat, cut: nat, lost: nat) {
    && from <= cut <= |all| && lost <= cut
    && (forall i :: from <= i < cut ==> TotalSize(Stripped(all, i)) > budget)
    && (cut < |all| ==> TotalSize(Stripped(all, cut)) <= budget && lost == 0)
    && (forall j :: 0 <= j < lost ==> TotalSize(Stripped(all, cut)[j..]) > budget)
    && (lost < |all| ==> TotalSize(Stripped(all, cut)[lost..]) <= budget)
  }

  /** After any `Add` the budget is met, or nothing is left to give up. */
  lemma BudgetIsMet(all: seq<Event>, budget: int, from: nat, cut: nat, lost: nat)
    requires Greedy(all, budget, from, cut, lost)
    ensures TotalSize(Stripped(all, cut)[lost..]) <= budget || lost == |all|
  {}

  /** The policy leaves no choice. */
  lemma GreedyIsUnique(all: seq<Event>, budget: int, from: nat, cut: nat, lost: nat, cut': nat, lost': nat)
    requires Greedy(all, budget, from, cut, lost) && Greedy(all, budget, from, cut', lost')
    ensures cut == cut' && lost == lost'
  {}

  /** No query chooses everything. */
  ghost predicate Chooses(m: Option<Query>, e: Event) {
    m.Some? ==> Selects(m.value, e)
  }

  /** Which of the first `n` events the query chooses. */
  ghost function MarksTo(m: Option<Query>, es: seq<Event>, n: nat): (r: seq<bool>)
    requires n <= |es|
    ensures |r| == n
  {
    if n == 0 then [] else MarksTo(m, es, n - 1) + [Chooses(m, es[n - 1])]
  }

  ghost function Marks(m: Option<Query>, es: seq<Event>): (r: seq<bool>)
    ensures |r| == |es|
  {
    MarksTo(m, es, |es|)
  }

  lemma {:induction false} MarkedAt(m: Option<Query>, es: seq<Event>, n: nat, i: nat)
    requires i < n <= |es|
    ensures MarksTo(m, es, n)[i] <==> Chooses(m, es[i])
  {
    if i < n - 1 {
      MarkedAt(m, es, n - 1, i);
    }
  }

  /** Collects matches, newest first, until there are `limit` or the bound is reached. */
  method ScanBack(m: Option<Query>, es: seq<Event>, limit: nat, bound: nat, ghost marks: seq<bool>)
      returns (found: seq<Event>, scanned: nat)
    requires marks == Marks(m, es) && (m.Some? ==> CompiledQuery(m.value))
    requires 0 < limit && bound <= |es|
    ensures Looking(es, marks, limit, bound, scanned, found) && (scanned == bound || |found| == limit)
  {
    found, scanned := [], 0;
    var i := |es| - 1;
    while i >= 0 && |found| < limit && scanned < bound
      invariant i == |es| - 1 - scanned
      invariant Looking(es, marks, limit, bound, scanned, found)
      decreases i
    {
      found := LookAt(m, es, i, limit, bound, scanned, found, marks);
      scanned := scanned + 1;
      i := i - 1;
    }
  }

  /** Examines the event at `i`, the next one back, and appends it if the query chooses it. */
  method LookAt(m: Option<Query>, es: seq<Event>, i: nat, limit: nat, bound: nat, ghost scanned: nat, found: seq<Event>,
      ghost marks: seq<bool>) returns (r: seq<Event>)
    requires marks == Marks(m, es) && (m.Some? ==> CompiledQuery(m.value))
    requires Looking(es, marks, limit, bound, scanned, found) && scanned < bound && |found| < limit
    requires i == |es| - scanned - 1
    ensures Looking(es, marks, limit, bound, scanned + 1, r)
  {
    LookStep(es, marks, limit, bound, scanned, found);
    var chosen := IsChosen(m, es[i], es, i, marks);
    r := found;
    if chosen {
      r := r + [es[i]];
    }
  }

  /** Whether the query chooses an event, here the one at `i`, which is what its mark says. */
  method IsChosen(m: Option<Query>, e: Event, ghost es: seq<Event>, ghost i: nat, ghost marks: seq<bool>)
      returns (chosen: bool)
    requires i < |es| && es[i] == e && marks == Marks(m, es) && (m.Some? ==> CompiledQuery(m.value))
    ensures chosen <==> marks[i]
  {
    MarkAt(m, es, i);
    chosen := true;
    if m.Some? {
      chosen := Match(m.value, e);
    }
  }

  /** A mark says that the query chooses the event. */
  lemma MarkAt(m: Option<Query>, es: seq<Event>, i: nat)
    requires i < |es|
    ensures Marks(m, es)[i] <==> Chooses(m, es[i])
  {
    MarkedAt(m, es, |es|, i);
  }

  /** What became of an event: everything but its payload is as it arrived, and the payload is gone, and
      marked so, exactly when there was one and shedding has passed it. The master's own mark stays. */
  predicate KeptAs(was: Event, now: Event, passed: bool) {
    && now.tag == was.tag && now.at == was.at && now.masterTrimmed == was.masterTrimmed
    && now.payload == (if passed then None else was.payload)
    && (now.shed <==> was.shed || (passed && was.payload.Some?))
  }

  /** Every event retained is one that was added, in its place, but for its payload when it was shed. */
  ghost predicate AllKept(added: seq<Event>, events: seq<Event>, dropped: nat, shedIdx: nat) {
    && dropped + |events| == |added|
    && forall i :: 0 <= i < |events| ==> KeptAs(added[dropped + i], events[i], i < shedIdx)
  }

  lemma AllAreKept(added: seq<Event>, events: seq<Event>, used: int, shedIdx: nat, shed: nat, dropped: nat, turns: nat)
    requires Holds(added, events, used, shedIdx, shed, dropped, turns)
    ensures AllKept(added, events, dropped, shedIdx)
  {
    forall i | 0 <= i < |events|
      ensures KeptAs(added[dropped + i], events[i], i < shedIdx)
    {
      StrippedAt(added[dropped..], shedIdx, i);
    }
  }

  /** Shedding changes no answer: a query selects the same positions of what is retained as it
      would of the events as they arrived. */
  lemma QueriesIgnoreShedding(m: Option<Query>, added: seq<Event>, events: seq<Event>, used: int,
      shedIdx: nat, shed: nat, dropped: nat, turns: nat)
    requires Holds(added, events, used, shedIdx, shed, dropped, turns)
    ensures Marks(m, events) == Marks(m, added)[dropped..]
  {
    forall i | 0 <= i < |events|
      ensures Marks(m, events)[i] == Marks(m, added)[dropped + i]
    {
      MarkAt(m, events, i);
      MarkAt(m, added, dropped + i);
      StrippedAt(added[dropped..], shedIdx, i);
      StripIsUnseen(m, added[dropped + i]);
    }
  }

  lemma StripIsUnseen(m: Option<Query>, e: Event)
    ensures Chooses(m, Strip(e)) <==> Chooses(m, e)
  {
    if m.Some? {
      PayloadIsNotRead(m.value, e, Strip(e));
    }
  }

  /** Filters an array in place: writing behind the read cursor cannot overtake it. */
  method Compact(m: Option<Query>, all: array<Event>, ghost es: seq<Event>, ghost marks: seq<bool>) returns (n: nat)
    requires all[..] == es && marks == Marks(m, es) && (m.Some? ==> CompiledQuery(m.value))
    modifies all
    ensures n <= all.Length && all[..n] == Kept(es, marks, 0, |es|)
  {
    n := 0;
    for i := 0 to all.Length
      invariant n <= i && all[..n] == Kept(es, marks, 0, i)
      invariant forall k :: i <= k < all.Length ==> all[k] == es[k]
    {
      n := KeepIfChosen(m, all, i, n, es, marks);
    }
  }

  /** Moves the event at `i` down to `n` if the query chooses it. */
  method KeepIfChosen(m: Option<Query>, all: array<Event>, i: nat, n: nat, ghost es: seq<Event>, ghost marks: seq<bool>)
      returns (n': nat)
    requires n <= i < all.Length == |es| && all[i] == es[i]
    requires marks == Marks(m, es) && (m.Some? ==> CompiledQuery(m.value))
    modifies all
    ensures n <= n' <= i + 1 && all[..n'] == old(all[..n]) + if marks[i] then [es[i]] else []
    ensures forall k :: i < k < all.Length ==> all[k] == old(all[k])
  {
    var e := all[i];
    var chosen := IsChosen(m, e, es, i, marks);
    n' := n;
    if chosen {
      all[n] := e;
      n' := n + 1;
    }
  }

  lemma {:induction false} EmptyQueryKeepsAll(q: Query, es: seq<Event>, n: nat)
    requires q.terms == [] && n <= |es|
    ensures Kept(es, Marks(Some(q), es), 0, n) == es[..n]
  {
    if n > 0 {
      EmptyQueryKeepsAll(q, es, n - 1);
      MarkAt(Some(q), es, n - 1);
    }
  }
}
