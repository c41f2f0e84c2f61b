/** The counters of `internal/stats/topn.go`: how often each key was seen, for a bounded number of keys. */
module Counters {
  import opened Basics

  datatype Tally = Tally(counts: map<string, nat>, other: nat, total: nat)

  const NO_COUNTS := Tally(map[], 0, 0)

  /** One more occurrence: a key past the bound is folded into the rest. */
  function Tick(maxKeys: int, t: Tally, key: string): Tally {
    if key in t.counts then t.(counts := t.counts[key := t.counts[key] + 1], total := t.total + 1)
    else if |t.counts| >= maxKeys then t.(other := t.other + 1, total := t.total + 1)
    else t.(counts := t.counts[key := 1], total := t.total + 1)
  }

  class Counter {
    const maxKeys: int
    var counts: map<string, nat>
    var other: nat
    var total: nat

    /** Every key ever counted, in order. */
    ghost var keys: seq<string>

    function Value(): Tally
      reads this
    {
      Tally(counts, other, total)
    }

    ghost predicate Valid()
      reads this
    {
      Value() == TallyOf(maxKeys, keys)
    }

    constructor (maxKeys: int)
      ensures Valid() && keys == [] && Value() == NO_COUNTS && this.maxKeys == maxKeys
    {
      this.maxKeys := maxKeys;
      counts, other, total, keys := map[], 0, 0, [];
    }

    /** Counts one occurrence of a key; every count is exact over all keys ever counted. */
    method Add(key: string)
      requires Valid()
      modifies this
      ensures Valid() && keys == old(keys) + [key] && Value() == Tick(maxKeys, old(Value()), key)
      ensures Exact(Value(), maxKeys, keys)
    {
      TallyMore(maxKeys, keys, key);
      TalliesAreExact(maxKeys, keys + [key]);
      keys := keys + [key];
      total := total + 1;
      if key in counts {
        counts := counts[key := counts[key] + 1];
        return;
      }
      if |counts| >= maxKeys {
        other := other + 1;
        return;
      }
      counts := counts[key := 1];
    }
  }

  // ---------------------------------------------------------------- whole runs

  /** The tally after the first `n` keys. */
  function TallyTo(maxKeys: int, keys: seq<string>, n: nat): Tally
    requires n <= |keys|
  {
    if n == 0 then NO_COUNTS else Tick(maxKeys, TallyTo(maxKeys, keys, n - 1), keys[n - 1])
  }

  function TallyOf(maxKeys: int, keys: seq<string>): Tally {
    TallyTo(maxKeys, keys, |keys|)
  }

  /** How often a key occurs among the first `n`. */
  function Occurrences(keys: seq<string>, n: nat, key: string): nat
    requires n <= |keys|
  {
    if n == 0 then 0 else Occurrences(keys, n - 1, key) + if keys[n - 1] == key then 1 else 0
  }

  /** How many of the first `n` keys are not among those tracked. */
  function Untracked(keys: seq<string>, n: nat, tracked: set<string>): nat
    requires n <= |keys|
  {
    if n == 0 then 0 else Untracked(keys, n - 1, tracked) + if keys[n - 1] in tracked then 0 else 1
  }

  ghost function PlacesOf(keys: seq<string>, n: nat, key: string): set<nat>
    requires n <= |keys|
  {
    set i: nat | i < n && keys[i] == key
  }

  ghost function PlacesOutside(keys: seq<string>, n: nat, tracked: set<string>): set<nat>
    requires n <= |keys|
  {
    set i: nat | i < n && keys[i] !in tracked
  }

  lemma {:induction false} OccurrencesAre(keys: seq<string>, n: nat, key: string)
    requires n <= |keys|
    ensures Occurrences(keys, n, key) == |PlacesOf(keys, n, key)|
  {
    if n > 0 {
      OccurrencesAre(keys, n - 1, key);
      assert PlacesOf(keys, n, key) == PlacesOf(keys, n - 1, key) + if keys[n - 1] == key then {n - 1} else {};
    } else {
      assert PlacesOf(keys, 0, key) == {};
    }
  }

  lemma {:induction false} UntrackedAre(keys: seq<string>, n: nat, tracked: set<string>)
    requires n <= |keys|
    ensures Untracked(keys, n, tracked) == |PlacesOutside(keys, n, tracked)|
  {
    if n > 0 {
      UntrackedAre(keys, n - 1, tracked);
      assert PlacesOutside(keys, n, tracked)
          == PlacesOutside(keys, n - 1, tracked) + if keys[n - 1] !in tracked then {n - 1} else {};
    } else {
      assert PlacesOutside(keys, 0, tracked) == {};
    }
  }

  /** Occurrences and untracked keys are counted one by one. */
  lemma CountsAreCounts(keys: seq<string>, n: nat, key: string, tracked: set<string>)
    requires n <= |keys|
    ensures Occurrences(keys, n, key) == |PlacesOf(keys, n, key)|
    ensures Untracked(keys, n, tracked) == |PlacesOutside(keys, n, tracked)|
  {
    OccurrencesAre(keys, n, key);
    UntrackedAre(keys, n, tracked);
  }

  lemma {:induction false} SameTally(maxKeys: int, keys: seq<string>, key: string, n: nat)
    requires n <= |keys|
    ensures TallyTo(maxKeys, keys + [key], n) == TallyTo(maxKeys, keys, n)
  {
    if n > 0 {
      SameTally(maxKeys, keys, key, n - 1);
    }
  }

  lemma TallyMore(maxKeys: int, keys: seq<string>, key: string)
    ensures TallyOf(maxKeys, keys + [key]) == Tick(maxKeys, TallyOf(maxKeys, keys), key)
  {
    SameTally(maxKeys, keys, key, |keys|);
  }

  /** Every tracked key has its exact count among the first `n`, all others are counted together, the
      bound is kept, and a key goes untracked only once it is reached. */
  ghost predicate ExactTo(t: Tally, maxKeys: int, keys: seq<string>, n: nat)
    requires n <= |keys|
  {
    && t.total == n
    && t.other == Untracked(keys, n, t.counts.Keys)
    && |t.counts| <= Max(maxKeys, 0)
    && (forall k :: k in t.counts ==> t.counts[k] == Occurrences(keys, n, k) > 0)
    && (|t.counts| < maxKeys ==> forall k :: Occurrences(keys, n, k) > 0 ==> k in t.counts)
  }

  ghost predicate Exact(t: Tally, maxKeys: int, keys: seq<string>) {
    ExactTo(t, maxKeys, keys, |keys|)
  }

  lemma {:induction false} UntrackedStays(keys: seq<string>, n: nat, tracked: set<string>, key: string)
    requires n <= |keys| && Occurrences(keys, n, key) == 0
    ensures Untracked(keys, n, tracked + {key}) == Untracked(keys, n, tracked)
  {
    if n > 0 {
      UntrackedStays(keys, n - 1, tracked, key);
    }
  }

  lemma {:induction false} TallyIsExactTo(maxKeys: int, keys: seq<string>, n: nat)
    requires n <= |keys|
    ensures ExactTo(TallyTo(maxKeys, keys, n), maxKeys, keys, n)
  {
    if n > 0 {
      TallyIsExactTo(maxKeys, keys, n - 1);
      TickIsExact(maxKeys, TallyTo(maxKeys, keys, n - 1), keys, n - 1);
    }
  }

  lemma TickIsExact(maxKeys: int, was: Tally, keys: seq<string>, n: nat)
    requires n < |keys| && ExactTo(was, maxKeys, keys, n)
    ensures ExactTo(Tick(maxKeys, was, keys[n]), maxKeys, keys, n + 1)
  {
    var key := keys[n];
    if key in was.counts {
      KnownKey(maxKeys, was, keys, n);
    } else if |was.counts| < maxKeys {
      NewKey(maxKeys, was, keys, n);
    }
  }

  lemma KnownKey(maxKeys: int, was: Tally, keys: seq<string>, n: nat)
    requires n < |keys| && ExactTo(was, maxKeys, keys, n) && keys[n] in was.counts
    ensures ExactTo(Tick(maxKeys, was, keys[n]), maxKeys, keys, n + 1)
  {
    var t := Tick(maxKeys, was, keys[n]);
    assert t.counts.Keys == was.counts.Keys;
    assert |was.counts| == |was.counts.Keys| && |t.counts| == |t.counts.Keys|;
  }

  lemma NewKey(maxKeys: int, was: Tally, keys: seq<string>, n: nat)
    requires n < |keys| && ExactTo(was, maxKeys, keys, n) && keys[n] !in was.counts && |was.counts| < maxKeys
    ensures ExactTo(Tick(maxKeys, was, keys[n]), maxKeys, keys, n + 1)
  {
    var t := Tick(maxKeys, was, keys[n]);
    assert t.counts.Keys == was.counts.Keys + {keys[n]};
    assert |was.counts| == |was.counts.Keys| && |t.counts| == |t.counts.Keys|;
    UntrackedStays(keys, n, was.counts.Keys, keys[n]);
  }

  /** Folding loses nothing, over any keys. */
  lemma TalliesAreExact(maxKeys: int, keys: seq<string>)
    ensures Exact(TallyOf(maxKeys, keys), maxKeys, keys)
  {
    TallyIsExactTo(maxKeys, keys, |keys|);
  }
}
