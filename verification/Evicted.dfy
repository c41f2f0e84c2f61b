/** The bounded memory of evicted jobs of `internal/stats/jobs.go`: a circular list refining a FIFO. */
module Evicted {
  import opened Basics

  const EVICTED_FACTOR: int := 8
  const MIN_EVICTED_MEMORY: int := 64

  /** The size of the eviction memory of an index holding `maxJobs`. */
  function Capacity(maxJobs: int): int {
    if maxJobs > MIN_EVICTED_MEMORY / EVICTED_FACTOR then maxJobs * EVICTED_FACTOR else MIN_EVICTED_MEMORY
  }

  /** Eight times the jobs, and never fewer than sixty-four. */
  lemma CapacityIs(maxJobs: int)
    ensures Capacity(maxJobs) == Max(8 * maxJobs, 64)
  {}

  /** The memory, oldest first, after one more eviction: one already known changes nothing, and
      when full the oldest is forgotten. */
  function Remember<T(==)>(memory: seq<T>, cap: nat, jid: T): seq<T> {
    if jid in memory then memory
    else if |memory| < cap then memory + [jid]
    else if memory == [] then []
    else memory[1..] + [jid]
  }

  /** A circular list from its oldest element on. */
  function Rotated<T>(order: seq<T>, next: nat): seq<T>
    requires next <= |order|
  {
    order[next..] + order[..next]
  }

  lemma RotatedMember<T>(order: seq<T>, next: nat, j: T)
    requires next <= |order|
    ensures j in Rotated(order, next) <==> j in order
  {
    assert order == order[..next] + order[next..];
  }

  /** Overwriting the oldest of a full circular list and moving on drops it and appends. */
  lemma OverwriteRotates<T>(order: seq<T>, next: nat, jid: T)
    requires next < |order|
    ensures Rotated(order[next := jid], if next + 1 == |order| then 0 else next + 1)
              == Rotated(order, next)[1..] + [jid]
  {}

  lemma OverwriteMember<T>(order: seq<T>, next: nat, jid: T, j: T)
    requires next < |order| && Distinct(order) && jid !in order
    ensures j in order[next := jid] <==> j == jid || (j in order && j != order[next])
  {
    var order' := order[next := jid];
    if j in order {
      var i :| 0 <= i < |order| && order[i] == j;
      assert i != next ==> order'[i] == j;
    }
    assert order'[next] == jid;
  }

  lemma {:induction false} SizeAtMost<T>(order: seq<T>, seen: set<T>)
    requires forall j :: j in seen ==> j in order
    ensures |seen| <= |order|
  {
    if order != [] {
      var n := |order| - 1;
      SizeAtMost(order[..n], seen - {order[n]});
    } else {
      assert seen == {};
    }
  }

  /** A list as long as the set of its members holds nothing twice. */
  lemma SizeIsDistinct<T>(order: seq<T>, seen: set<T>)
    requires |seen| == |order| && forall j :: j in seen <==> j in order
    ensures Distinct(order)
  {
    forall i, k | 0 <= i < k < |order|
      ensures order[i] != order[k]
    {
      if order[i] == order[k] {
        var rest := order[..k] + order[k + 1..];
        forall j | j in seen
          ensures j in rest
        {
          var p :| 0 <= p < |order| && order[p] == j;
          var at := if p == k then i else p;
          assert rest[if at < k then at else at - 1] == j;
        }
        SizeAtMost(rest, seen);
      }
    }
  }

  lemma NextIndex(next: nat, cap: nat)
    requires next < cap
    ensures (next + 1) % cap == if next + 1 == cap then 0 else next + 1
  {}

  /** A circular list and the set of its members: nothing is held twice, and the list starts
      over only once it is full. */
  ghost predicate Held<T(!new)>(order: seq<T>, seen: set<T>, cap: nat, next: nat) {
    && cap >= 1 && |order| <= cap && next <= |order| && (next > 0 ==> |order| == cap && next < cap)
    && |seen| == |order|
    && (forall j {:trigger Asked(j)} :: j in seen <==> j in order)
  }

  lemma HeldMember<T(!new)>(order: seq<T>, seen: set<T>, cap: nat, next: nat, j: T)
    requires Held(order, seen, cap, next)
    ensures j in seen <==> j in order
  {
    assert Asked(j);
  }

  /** With room left, a new member goes at the end. */
  lemma AddHolds<T(!new)>(order: seq<T>, seen: set<T>, cap: nat, next: nat, jid: T)
    requires Held(order, seen, cap, next) && jid !in seen && |order| < cap
    ensures Held(order + [jid], seen + {jid}, cap, next)
    ensures Rotated(order + [jid], next) == Remember(Rotated(order, next), cap, jid)
  {
    HeldMember(order, seen, cap, next, jid);
    RotatedMember(order, next, jid);
    forall j
      ensures j in seen + {jid} <==> j in order + [jid]
    {
      HeldMember(order, seen, cap, next, j);
    }
  }

  /** When full, a new member overwrites the oldest, and the list begins one further on. */
  lemma OverwriteHolds<T(!new)>(order: seq<T>, seen: set<T>, cap: nat, next: nat, jid: T)
    requires Held(order, seen, cap, next) && jid !in seen && |order| == cap
    ensures next < cap && Held(order[next := jid], seen - {order[next]} + {jid}, cap, (next + 1) % cap)
    ensures Rotated(order[next := jid], (next + 1) % cap) == Remember(Rotated(order, next), cap, jid)
  {
    HeldMember(order, seen, cap, next, jid);
    HeldMember(order, seen, cap, next, order[next]);
    RotatedMember(order, next, jid);
    HeldIsDistinct(order, seen, cap, next);
    forall j
      ensures j in seen - {order[next]} + {jid} <==> j in order[next := jid]
    {
      HeldMember(order, seen, cap, next, j);
      OverwriteMember(order, next, jid, j);
    }
    NextIndex(next, cap);
    OverwriteRotates(order, next, jid);
  }

  lemma HeldIsDistinct<T(!new)>(order: seq<T>, seen: set<T>, cap: nat, next: nat)
    requires Held(order, seen, cap, next)
    ensures Distinct(order)
  {
    forall j
      ensures j in seen <==> j in order
    {
      HeldMember(order, seen, cap, next, j);
    }
    SizeIsDistinct(order, seen);
  }

  class EvictedSet {
    const cap: nat
    var seen: set<string>
    var order: seq<string>
    var next: nat

    ghost predicate Valid()
      reads this
    {
      Held(order, seen, cap, next)
    }

    /** What is remembered, oldest first. */
    ghost function Contents(): seq<string>
      requires Valid()
      reads this
    {
      Rotated(order, next)
    }

    constructor (capacity: int)
      ensures Valid() && cap == (if capacity < 1 then 1 else capacity) && Contents() == []
    {
      cap := if capacity < 1 then 1 else capacity;
      seen, order, next := {}, [], 0;
    }

    /** Records an eviction, forgetting the oldest when full. */
    method Add(jid: string)
      requires Valid()
      modifies this
      ensures Valid() && Contents() == Remember(old(Contents()), cap, jid)
    {
      HeldMember(order, seen, cap, next, jid);
      RotatedMember(order, next, jid);
      if jid in seen {
        return;
      }
      if |order| < cap {
        AddHolds(order, seen, cap, next, jid);
        order, seen := order + [jid], seen + {jid};
      } else {
        Overwrite(jid);
      }
    }

    /** Puts a new member where the oldest was. */
    method Overwrite(jid: string)
      requires Valid() && jid !in seen && |order| == cap
      modifies this
      ensures Valid() && Contents() == Remember(old(Contents()), cap, jid)
    {
      OverwriteHolds(order, seen, cap, next, jid);
      seen := seen - {order[next]};
      order := order[next := jid];
      next := (next + 1) % cap;
      seen := seen + {jid};
    }

    method Has(jid: string) returns (r: bool)
      requires Valid()
      ensures r <==> jid in Contents()
    {
      HeldMember(order, seen, cap, next, jid);
      RotatedMember(order, next, jid);
      r := jid in seen;
    }
  }

  // ---------------------------------------------------------------- a whole log of evictions

  /** The memory after a log of evictions. */
  function Memory<T(==)>(log: seq<T>, cap: nat): seq<T> {
    if log == [] then [] else Remember(Memory(log[..|log| - 1], cap), cap, log[|log| - 1])
  }

  /** The last `n` of a log, or all of it. */
  function Last<T>(log: seq<T>, n: nat): seq<T> {
    if |log| <= n then log else log[|log| - n..]
  }

  /** The memory never exceeds its capacity, holds no job twice, and only jobs that were evicted. */
  lemma {:induction false} MemoryIsSound<T>(log: seq<T>, cap: nat)
    ensures |Memory(log, cap)| <= cap && Distinct(Memory(log, cap))
    ensures forall j :: j in Memory(log, cap) ==> j in log
  {
    if log != [] {
      var front, jid := log[..|log| - 1], log[|log| - 1];
      MemoryIsSound(front, cap);
      assert log == front + [jid];
      forall j | j in Memory(log, cap)
        ensures j in log
      {
        assert j == jid || j in Memory(front, cap);
      }
    }
  }

  /** While no job is evicted twice, exactly the last `cap` evictions are remembered. */
  lemma {:induction false} LastAreRemembered<T>(log: seq<T>, cap: nat)
    requires cap >= 1 && Distinct(log)
    ensures Memory(log, cap) == Last(log, cap)
  {
    if log != [] {
      var front, jid := log[..|log| - 1], log[|log| - 1];
      DistinctFront(log);
      LastAreRemembered(front, cap);
      RememberNew(front, cap, jid);
      assert log == front + [jid];
    }
  }

  /** The eviction of a job not evicted before moves the memory of the last ones on. */
  lemma RememberNew<T>(log: seq<T>, cap: nat, jid: T)
    requires cap >= 1 && jid !in log
    ensures Remember(Last(log, cap), cap, jid) == Last(log + [jid], cap)
  {
    LastMember(log, cap);
    LastAppend(log, cap, jid);
  }

  lemma DistinctFront<T>(log: seq<T>)
    requires log != [] && Distinct(log)
    ensures var front := log[..|log| - 1]; Distinct(front) && log[|log| - 1] !in front
  {}

  lemma LastAppend<T>(log: seq<T>, n: nat, jid: T)
    requires n >= 1
    ensures Last(log + [jid], n) == if |log| < n then log + [jid] else Last(log, n)[1..] + [jid]
    ensures |Last(log, n)| == if |log| < n then |log| else n
  {}

  lemma LastMember<T>(log: seq<T>, n: nat)
    ensures forall j :: j in Last(log, n) ==> j in log
  {}

  lemma TailMember<T>(m: seq<T>, j: T)
    requires Distinct(m) && m != []
    ensures j in m[1..] <==> j in m && j != m[0]
  {
    assert m == [m[0]] + m[1..];
  }

  /** All of the last `cap` evictions are remembered. */
  ghost predicate RecentRemembered<T>(log: seq<T>, cap: nat) {
    forall j <- Last(log, cap) :: j in Memory(log, cap)
  }

  /** The eviction of a new job, with the memory full, when the job to be forgotten is among the last
      evictions: it was evicted again since it entered the memory. */
  predicate ForcesOut<T(==)>(log: seq<T>, cap: nat, jid: T)
    requires cap >= 1
  {
    var memory := Memory(log, cap);
    jid !in memory && |memory| >= cap && memory != [] && memory[0] in Last(log, cap - 1)
  }

  /** With repeated evictions this may fail: a repeat does not refresh its job. It fails exactly at the
      eviction of a new job, with the memory full, when the job to be forgotten was evicted again since. */
  lemma RecentStaysRemembered<T>(log: seq<T>, cap: nat, jid: T)
    requires cap >= 1 && RecentRemembered(log, cap)
    ensures RecentRemembered(log + [jid], cap) <==> !ForcesOut(log, cap, jid)
  {
    var memory, recent := Memory(log, cap), Last(log, cap - 1);
    MemoryMore(log, cap, jid);
    LastMore(log, cap, jid);
    MemoryIsSound(log, cap);
    LastShorter(log, cap);
    if jid !in memory && |memory| == cap {
      forall j
        ensures j in memory[1..] <==> j in memory && j != memory[0]
      {
        TailMember(memory, j);
      }
      if memory[0] in recent {
        assert memory[0] in recent + [jid];
        assert memory[0] !in memory[1..] + [jid];
      }
    }
  }

  lemma LastMore<T>(log: seq<T>, cap: nat, jid: T)
    requires cap >= 1
    ensures Last(log + [jid], cap) == Last(log, cap - 1) + [jid]
  {}

  lemma LastShorter<T>(log: seq<T>, cap: nat)
    requires cap >= 1
    ensures forall j <- Last(log, cap - 1) :: j in Last(log, cap)
  {
    assert Last(log, cap - 1) == Last(Last(log, cap), cap - 1);
    LastMember(Last(log, cap), cap - 1);
  }

  /** At every point of a log the recent evictions were remembered. */
  ghost predicate AlwaysRemembered<T>(log: seq<T>, cap: nat) {
    RecentRemembered(log, cap) && (log == [] || AlwaysRemembered(log[..|log| - 1], cap))
  }

  ghost predicate NeverForcesOut<T>(log: seq<T>, cap: nat)
    requires cap >= 1
  {
    log == [] || (NeverForcesOut(log[..|log| - 1], cap) && !ForcesOut(log[..|log| - 1], cap, log[|log| - 1]))
  }

  /** Over a whole log, the recent evictions are always remembered exactly when no eviction forces
      out a job that was evicted again. */
  lemma {:induction false} RecentAlwaysRemembered<T>(log: seq<T>, cap: nat)
    requires cap >= 1
    ensures AlwaysRemembered(log, cap) <==> NeverForcesOut(log, cap)
  {
    if log != [] {
      var front, jid := log[..|log| - 1], log[|log| - 1];
      RecentAlwaysRemembered(front, cap);
      assert log == front + [jid];
      if RecentRemembered(front, cap) {
        RecentStaysRemembered(front, cap, jid);
      }
    }
  }

  /** It does happen, at every capacity: the memory is full, its oldest job is evicted again, and the
      next new one forces it out, though it is among the last two evictions. */
  lemma ARepeatIsForgotten<T>(first: seq<T>, x: T)
    requires |first| >= 2 && Distinct(first) && x !in first
    ensures var cap, log := |first|, first + [first[0]] + [x];
            && first[0] in Last(log, 2) && first[0] !in Memory(log, cap)
            && !RecentRemembered(log, cap)
  {
    var cap, again := |first|, first + [first[0]];
    LastAreRemembered(first, cap);
    MemoryMore(first, cap, first[0]);
    MemoryMore(again, cap, x);
    assert Memory(again + [x], cap) == first[1..] + [x];
    TailMember(first, first[0]);
    assert Last(again + [x], 2)[0] == first[0];
    assert Last(again + [x], cap)[cap - 2] == first[0];
  }

  lemma MemoryMore<T>(log: seq<T>, cap: nat, jid: T)
    ensures Memory(log + [jid], cap) == Remember(Memory(log, cap), cap, jid)
  {
    assert (log + [jid])[..|log|] == log;
  }
}
