/** What every run of the job index keeps, and whom it evicts. */
module IndexLaws {
  import opened Basics
  import opened Events
  import opened Jobs
  import opened Evicted
  import opened IndexSpec

  // ---------------------------------------------------------------- the accounting stays exact

  lemma UpdatedKeepsJid(v: JobVal, e: Event, expected: Option<seq<string>>, trimmed: bool)
    ensures Updated(v, e, expected, trimmed).jid == v.jid
  {}

  lemma ReweighIsSound(ix: Index, i: nat, job: JobVal)
    requires Sound(ix) && i < |ix.entries| && job.jid == ix.entries[i].job.jid
    ensures ix.bytes >= ix.entries[i].bytes && Sound(Reweigh(ix, i, job))
  {
    BytesCover(ix.entries, i);
    BytesUpdate(ix.entries, i, Entry(job, Weight(job)));
    ReplaceKeeps(ix.entries, i, Entry(job, Weight(job)));
  }

  /** Dropping keeps the accounting exact; the clamp at zero never acts. */
  lemma DropIsSound(ix: Index, i: nat)
    requires Sound(ix) && i < |ix.entries|
    ensures Sound(Drop(ix, i)) && Drop(ix, i).bytes == ix.bytes - ix.entries[i].bytes
  {
    BytesCover(ix.entries, i);
    BytesWithout(ix.entries, i);
    RemoveKeeps(ix.entries, i);
  }

  lemma {:induction false} EvictIsSound(lim: Limits, ix: Index)
    requires Sound(ix)
    ensures Sound(Evict(lim, ix))
    ensures var out := Evict(lim, ix);
            out.pinned == ix.pinned && out.highWater == ix.highWater && out.created == ix.created
    decreases |ix.entries|
  {
    var victim := Victim(ix.entries, ix.pinned);
    if OverCapacity(lim, ix) && victim >= 0 {
      DropIsSound(ix, victim);
      EvictIsSound(lim, Drop(ix, victim));
    }
  }

  // ---------------------------------------------------------------- the bounds

  lemma {:induction false} OldestIs(entries: seq<Entry>, pinned: string, tier: nat, i: nat)
    ensures var r := Oldest(entries, pinned, tier, i);
            && (r >= 0 ==> i <= r && entries[r].job.jid != pinned && Tier(entries[r].job) == tier)
            && forall j :: i <= j < (if r < 0 then |entries| else r) ==>
                 entries[j].job.jid == pinned || Tier(entries[j].job) != tier
    decreases |entries| - i
  {
    if i < |entries| && !(entries[i].job.jid != pinned && Tier(entries[i].job) == tier) {
      OldestIs(entries, pinned, tier, i + 1);
    }
  }

  /** Job `i` goes before job `j`: by tier, and within a tier by age. */
  predicate Before(entries: seq<Entry>, i: nat, j: nat)
    requires i < |entries| && j < |entries|
  {
    var ti, tj := Tier(entries[i].job), Tier(entries[j].job);
    ti < tj || (ti == tj && i < j)
  }

  /** The victim is the unpinned job that goes before every other, if there is an unpinned job at all. */
  lemma VictimIsFirst(entries: seq<Entry>, pinned: string)
    ensures var v := Victim(entries, pinned);
            && (v >= 0 ==> entries[v].job.jid != pinned)
            && forall j :: 0 <= j < |entries| && entries[j].job.jid != pinned ==>
                 v >= 0 && (j == v || Before(entries, v, j))
  {
    OldestIs(entries, pinned, 0, 0);
    OldestIs(entries, pinned, 1, 0);
    OldestIs(entries, pinned, 2, 0);
  }

  /** Both bounds hold, but for a single job that nothing may evict. */
  predicate Bounded(lim: Limits, ix: Index) {
    && |ix.entries| <= Max(lim.maxJobs, 1)
    && (lim.ceiling > 0 && ix.bytes > lim.ceiling ==> |ix.entries| <= 1)
    && ix.highWater <= Max(lim.maxJobs, 1) + 1
  }

  lemma TwoMeansUnpinned(entries: seq<Entry>, pinned: string) returns (j: nat)
    requires Unique(entries) && |entries| > 1
    ensures j < |entries| && entries[j].job.jid != pinned
  {
    UniqueAt(entries, 0, 1);
    j := if entries[0].job.jid == pinned then 1 else 0;
  }

  lemma {:induction false} EvictIsBounded(lim: Limits, ix: Index)
    requires Sound(ix) && ix.highWater <= Max(lim.maxJobs, 1) + 1
    ensures Bounded(lim, Evict(lim, ix))
    decreases |ix.entries|
  {
    var victim := Victim(ix.entries, ix.pinned);
    VictimIsFirst(ix.entries, ix.pinned);
    if OverCapacity(lim, ix) {
      if victim >= 0 {
        DropIsSound(ix, victim);
        EvictIsBounded(lim, Drop(ix, victim));
      } else if |ix.entries| > 1 {
        var j := TwoMeansUnpinned(ix.entries, ix.pinned);
      }
    }
  }

  lemma RecordedIsSound(ix: Index, jid: string, e: Event, expected: Option<seq<string>>, trimmed: bool)
    requires Sound(ix)
    ensures var r := Recorded(ix, jid, e, expected, trimmed);
            Sound(r) && r.pinned == ix.pinned && r.log == ix.log && r.highWater <= Max(ix.highWater, |ix.entries| + 1)
  {
    var t := Touch(ix, jid);
    TouchIsSound(ix, jid);
    var i := Find(t.entries, jid);
    UpdatedKeepsJid(t.entries[i].job, e, expected, trimmed);
    ReweighIsSound(t, i, Updated(t.entries[i].job, e, expected, trimmed));
  }

  lemma ObserveIsSound(lim: Limits, ix: Index, e: Event, expected: Option<seq<string>>, trimmed: bool)
    requires Sound(ix)
    ensures Sound(Observe(lim, ix, e, expected, trimmed))
  {
    if Concerns(e).Some? {
      var jid := Concerns(e).value;
      RecordedIsSound(ix, jid, e, expected, trimmed);
      EvictIsSound(lim, Recorded(ix, jid, e, expected, trimmed));
    }
  }

  lemma ObserveKeepsBounds(lim: Limits, ix: Index, e: Event, expected: Option<seq<string>>, trimmed: bool)
    requires Sound(ix) && Bounded(lim, ix)
    ensures Sound(Observe(lim, ix, e, expected, trimmed)) && Bounded(lim, Observe(lim, ix, e, expected, trimmed))
  {
    match Concerns(e)
    case None =>
    case Some(jid) =>
      var r := Recorded(ix, jid, e, expected, trimmed);
      RecordedIsSound(ix, jid, e, expected, trimmed);
      EvictIsSound(lim, r);
      EvictIsBounded(lim, r);
  }

  // ---------------------------------------------------------------- whole runs

  /** What may happen to the index. */
  datatype IndexOp =
    | See(e: Event, expected: Option<seq<string>>, trimmed: bool)
    | Pin(jid: string)
    | Unpin
    | Describe(jid: string, tgt: string, tgtType: string, user: string)

  /** Fills in the descriptive fields not known yet. */
  function Described(l: Labels, tgt: string, tgtType: string, user: string): Labels {
    l.(tgt := if l.tgt == "" then tgt else l.tgt,
       tgtType := if l.tgtType == "" then tgtType else l.tgtType,
       user := if l.user == "" then user else l.user)
  }

  function Relabel(ix: Index, jid: string, tgt: string, tgtType: string, user: string): Index {
    var i := Find(ix.entries, jid);
    if i == |ix.entries| then ix
    else
      var en := ix.entries[i];
      ix.(entries := ix.entries[i := en.(job := en.job.(labels := Described(en.job.labels, tgt, tgtType, user)))])
  }

  lemma RelabelIsSound(ix: Index, jid: string, tgt: string, tgtType: string, user: string)
    requires Sound(ix)
    ensures Sound(Relabel(ix, jid, tgt, tgtType, user))
  {
    var i := Find(ix.entries, jid);
    if i < |ix.entries| {
      var en := Relabel(ix, jid, tgt, tgtType, user).entries[i];
      ExactAt(ix.entries, i);
      BytesUpdate(ix.entries, i, en);
      ReplaceKeeps(ix.entries, i, en);
    }
  }

  /** The job now has each name it had, and where it had none the one given; nothing else is changed. */
  predicate FilledIn(was: JobVal, now: JobVal, tgt: string, tgtType: string, user: string) {
    && now.labels.tgt == (if was.labels.tgt == "" then tgt else was.labels.tgt)
    && now.labels.tgtType == (if was.labels.tgtType == "" then tgtType else was.labels.tgtType)
    && now.labels.user == (if was.labels.user == "" then user else was.labels.user)
    && now == was.(labels := now.labels) && now.labels.fun == was.labels.fun
  }

  /** A description fills in the names of its job, and touches nothing else. */
  lemma RelabelFillsIn(ix: Index, i: nat, tgt: string, tgtType: string, user: string)
    requires Sound(ix) && i < |ix.entries|
    ensures var r := Relabel(ix, ix.entries[i].job.jid, tgt, tgtType, user);
            && r == ix.(entries := r.entries) && |r.entries| == |ix.entries|
            && FilledIn(ix.entries[i].job, r.entries[i].job, tgt, tgtType, user)
            && forall j :: 0 <= j < |ix.entries| && j != i ==> r.entries[j] == ix.entries[j]
  {
    FindIs(ix.entries, ix.entries[i].job.jid);
    var at := Find(ix.entries, ix.entries[i].job.jid);
    if at < i {
      UniqueAt(ix.entries, at, i);
    }
  }

  ghost function Act(lim: Limits, ix: Index, op: IndexOp): Index
    requires Sound(ix)
  {
    match op
    case See(e, expected, trimmed) => Observe(lim, ix, e, expected, trimmed)
    case Pin(jid) => ix.(pinned := jid)
    case Unpin => ix.(pinned := "")
    case Describe(jid, tgt, tgtType, user) => Relabel(ix, jid, tgt, tgtType, user)
  }

  lemma ActKeepsBounds(lim: Limits, ix: Index, op: IndexOp)
    requires Sound(ix) && Bounded(lim, ix)
    ensures Sound(Act(lim, ix, op)) && Bounded(lim, Act(lim, ix, op))
  {
    match op
    case See(e, expected, trimmed) => ObserveKeepsBounds(lim, ix, e, expected, trimmed);
    case Describe(jid, tgt, tgtType, user) => RelabelIsSound(ix, jid, tgt, tgtType, user);
    case _ =>
  }

  /** The index after any run from the empty one: the accounting is exact and the bounds hold. */
  ghost function Run(lim: Limits, ops: seq<IndexOp>): (ix: Index)
    ensures Sound(ix) && Bounded(lim, ix)
  {
    if ops == [] then NO_JOBS
    else
      var before := Run(lim, ops[..|ops| - 1]);
      ActKeepsBounds(lim, before, ops[|ops| - 1]);
      Act(lim, before, ops[|ops| - 1])
  }

  lemma RunMore(lim: Limits, ops: seq<IndexOp>, op: IndexOp)
    ensures Run(lim, ops + [op]) == Act(lim, Run(lim, ops), op)
  {
    assert (ops + [op])[..|ops|] == ops;
  }

  // ---------------------------------------------------------------- whom the index evicts

  /** Job `i` of one list is job `Shifted(i, v)` of the list without job `v`. */
  function Shifted(i: nat, v: nat): nat
    requires i != v
  {
    if i < v then i else i - 1
  }

  lemma BeforeShifts(entries: seq<Entry>, v: nat, i: nat, j: nat)
    requires i < |entries| && j < |entries| && v < |entries| && i != v && j != v
    ensures var rest := entries[..v] + entries[v + 1..];
            && rest[Shifted(i, v)] == entries[i] && rest[Shifted(j, v)] == entries[j]
            && (Before(rest, Shifted(i, v), Shifted(j, v)) <==> Before(entries, i, j))
  {}

  /** The jobs one call drops, in order. */
  function Gone(lim: Limits, ix: Index): seq<string>
    decreases |ix.entries|
  {
    var v := Victim(ix.entries, ix.pinned);
    if OverCapacity(lim, ix) && v >= 0 then [ix.entries[v].job.jid] + Gone(lim, Drop(ix, v)) else []
  }

  lemma {:induction false} EvictKeepsEntries(lim: Limits, ix: Index)
    ensures forall en <- Evict(lim, ix).entries :: en in ix.entries
    ensures Evict(lim, ix).log == ix.log + Gone(lim, ix)
    decreases |ix.entries|
  {
    var v := Victim(ix.entries, ix.pinned);
    if OverCapacity(lim, ix) && v >= 0 {
      EvictKeepsEntries(lim, Drop(ix, v));
    }
  }

  /** The dropped job is not among the rest. */
  lemma VictimIsGone(entries: seq<Entry>, v: nat)
    requires Unique(entries) && v < |entries|
    ensures entries[v] !in entries[..v] + entries[v + 1..]
  {
    forall k | 0 <= k < |entries| && k != v
      ensures entries[k] != entries[v]
    {
      UniqueAt(entries, k, v);
    }
  }

  /** Over a whole call: every job dropped goes before every unpinned job kept, by tier and then by
      age; the pinned job is kept. */
  lemma {:induction false} EvictionOrder(lim: Limits, ix: Index, i: nat, j: nat)
    requires Sound(ix) && i < |ix.entries| && j < |ix.entries|
    requires ix.entries[i] !in Evict(lim, ix).entries
    ensures ix.entries[i].job.jid != ix.pinned
    ensures ix.entries[j] in Evict(lim, ix).entries && ix.entries[j].job.jid != ix.pinned ==> Before(ix.entries, i, j)
    decreases |ix.entries|
  {
    var v := Victim(ix.entries, ix.pinned);
    if OverCapacity(lim, ix) && v >= 0 {
      VictimIsFirst(ix.entries, ix.pinned);
      VictimIsGone(ix.entries, v);
      DropIsSound(ix, v);
      EvictKeepsEntries(lim, Drop(ix, v));
      if i != v {
        if j != v {
          BeforeShifts(ix.entries, v, i, j);
          EvictionOrder(lim, Drop(ix, v), Shifted(i, v), Shifted(j, v));
        } else {
          BeforeShifts(ix.entries, v, i, i);
          EvictionOrder(lim, Drop(ix, v), Shifted(i, v), Shifted(i, v));
        }
      }
    }
  }

  /** The policy in its own words. Of an evicted job i and an unpinned job j that stays: a job still in
      progress goes only when every job that stays is in progress too; a job that can never complete
      goes only when none that stays is complete; and among its like the older goes first. */
  lemma EvictionPolicy(lim: Limits, ix: Index, i: nat, j: nat)
    requires Sound(ix) && i < |ix.entries| && j < |ix.entries|
    requires ix.entries[i] !in Evict(lim, ix).entries
    requires ix.entries[j] in Evict(lim, ix).entries && ix.entries[j].job.jid != ix.pinned
    ensures var gone, stays := ix.entries[i].job, ix.entries[j].job;
            var goneDone := gone.state == Known && gone.expected <= gone.answers.Keys;
            var staysDone := stays.state == Known && stays.expected <= stays.answers.Keys;
            && gone.jid != ix.pinned
            && (gone.state == Known && !goneDone ==> stays.state == Known && !staysDone && i < j)
            && (gone.state != Known ==> !staysDone)
            && (gone.state != Known && stays.state != Known ==> i < j)
            && (goneDone && staysDone ==> i < j)
  {
    EvictionOrder(lim, ix, i, j);
  }

  /** A job that leaves the index is logged as evicted, and only such a job is. */
  lemma {:induction false} EvictionIsLogged(lim: Limits, ix: Index, i: nat)
    requires Sound(ix) && i < |ix.entries|
    ensures ix.entries[i] !in Evict(lim, ix).entries <==> ix.entries[i].job.jid in Gone(lim, ix)
    decreases |ix.entries|
  {
    var v := Victim(ix.entries, ix.pinned);
    if OverCapacity(lim, ix) && v >= 0 {
      DropIsSound(ix, v);
      VictimIsGone(ix.entries, v);
      EvictKeepsEntries(lim, Drop(ix, v));
      if i != v {
        BeforeShifts(ix.entries, v, i, i);
        EvictionIsLogged(lim, Drop(ix, v), Shifted(i, v));
        UniqueAt(ix.entries, i, v);
      }
    }
  }

  /** No eviction is needless: with the last job dropped still there, a bound would be exceeded. */
  lemma {:induction false} NoNeedlessEviction(lim: Limits, ix: Index) returns (i: nat)
    requires Sound(ix) && Gone(lim, ix) != []
    ensures i < |ix.entries| && ix.entries[i].job.jid == Gone(lim, ix)[|Gone(lim, ix)| - 1]
    ensures var out := Evict(lim, ix);
            |out.entries| + 1 > lim.maxJobs || (lim.ceiling > 0 && out.bytes + ix.entries[i].bytes > lim.ceiling)
    decreases |ix.entries|
  {
    var v := Victim(ix.entries, ix.pinned);
    var next := Drop(ix, v);
    DropIsSound(ix, v);
    if Gone(lim, next) == [] {
      i := v;
    } else {
      var k := NoNeedlessEviction(lim, next);
      i := if k < v then k else k + 1;
    }
  }

  // ---------------------------------------------------------------- the pin, over whole runs

  /** The pinned job is tracked. */
  ghost predicate HoldsPinned(ix: Index) {
    exists i :: 0 <= i < |ix.entries| && ix.entries[i].job.jid == ix.pinned
  }

  lemma {:induction false} EvictKeepsPin(lim: Limits, ix: Index)
    ensures Evict(lim, ix).pinned == ix.pinned
    decreases |ix.entries|
  {
    var v := Victim(ix.entries, ix.pinned);
    if OverCapacity(lim, ix) && v >= 0 {
      EvictKeepsPin(lim, Drop(ix, v));
    }
  }

  lemma EvictHoldsPinned(lim: Limits, ix: Index)
    requires Sound(ix) && HoldsPinned(ix)
    ensures HoldsPinned(Evict(lim, ix))
  {
    EvictKeepsPin(lim, ix);
    var i :| 0 <= i < |ix.entries| && ix.entries[i].job.jid == ix.pinned;
    var out := Evict(lim, ix).entries;
    if ix.entries[i] !in out {
      EvictionOrder(lim, ix, i, i);
    } else {
      var k :| 0 <= k < |out| && out[k] == ix.entries[i];
      assert out[k].job.jid == Evict(lim, ix).pinned;
    }
  }

  lemma ActHoldsPinned(lim: Limits, ix: Index, op: IndexOp)
    requires Sound(ix) && HoldsPinned(ix) && !op.Pin? && !op.Unpin?
    ensures Act(lim, ix, op).pinned == ix.pinned && HoldsPinned(Act(lim, ix, op))
  {
    var i :| 0 <= i < |ix.entries| && ix.entries[i].job.jid == ix.pinned;
    match op
    case See(e, expected, trimmed) =>
      if Concerns(e).Some? {
        var jid := Concerns(e).value;
        var r := Recorded(ix, jid, e, expected, trimmed);
        RecordedIsSound(ix, jid, e, expected, trimmed);
        RecordedKeepsJids(ix, jid, e, expected, trimmed, i);
        EvictHoldsPinned(lim, r);
        EvictKeepsPin(lim, r);
      }
    case Describe(jid, tgt, tgtType, user) =>
      assert Relabel(ix, jid, tgt, tgtType, user).entries[i].job.jid == ix.pinned;
  }

  lemma RecordedKeepsJids(ix: Index, jid: string, e: Event, expected: Option<seq<string>>, trimmed: bool, i: nat)
    requires Sound(ix) && i < |ix.entries|
    ensures var r := Recorded(ix, jid, e, expected, trimmed);
            r.pinned == ix.pinned && i < |r.entries| && r.entries[i].job.jid == ix.entries[i].job.jid
  {
    var t := Touch(ix, jid);
    TouchIsSound(ix, jid);
    UpdatedKeepsJid(t.entries[Find(t.entries, jid)].job, e, expected, trimmed);
  }

  /** A job that is pinned and tracked stays so through any run that does not move the pin. */
  lemma {:induction false} PinnedStays(lim: Limits, before: seq<IndexOp>, later: seq<IndexOp>)
    requires HoldsPinned(Run(lim, before)) && forall op <- later :: !op.Pin? && !op.Unpin?
    ensures Run(lim, before + later).pinned == Run(lim, before).pinned && HoldsPinned(Run(lim, before + later))
  {
    if later == [] {
      assert before + later == before;
    } else {
      var front, op := later[..|later| - 1], later[|later| - 1];
      PinnedStays(lim, before, front);
      assert before + later == (before + front) + [op];
      RunMore(lim, before + front, op);
      ActHoldsPinned(lim, Run(lim, before + front), op);
    }
  }

  // ---------------------------------------------------------------- the high water

  lemma {:induction false} EvictKeepsHighWater(lim: Limits, ix: Index)
    ensures Evict(lim, ix).highWater == ix.highWater
    decreases |ix.entries|
  {
    var v := Victim(ix.entries, ix.pinned);
    if OverCapacity(lim, ix) && v >= 0 {
      EvictKeepsHighWater(lim, Drop(ix, v));
    }
  }

  /** The high water rises exactly when a job is tracked beyond it, and to just that many; it never falls. */
  lemma HighWaterRises(lim: Limits, ix: Index, op: IndexOp)
    requires Sound(ix)
    ensures var r := Act(lim, ix, op);
            var begins := op.See? && Concerns(op.e).Some?
                         && forall i :: 0 <= i < |ix.entries| ==> ix.entries[i].job.jid != Concerns(op.e).value;
            r.highWater == if begins && |ix.entries| + 1 > ix.highWater then |ix.entries| + 1 else ix.highWater
  {
    if op.See? && Concerns(op.e).Some? {
      var jid := Concerns(op.e).value;
      FindIs(ix.entries, jid);
      TouchIsSound(ix, jid);
      EvictKeepsHighWater(lim, Recorded(ix, jid, op.e, op.expected, op.trimmed));
    }
  }

  // ---------------------------------------------------------------- why a job is unavailable

  datatype Lookup = LookupUnseen | LookupFound | LookupEvicted

  function LookUp(lim: Limits, ix: Index, jid: string): Lookup {
    if Find(ix.entries, jid) < |ix.entries| then LookupFound
    else if jid in Memory(ix.log, Capacity(lim.maxJobs)) then LookupEvicted
    else LookupUnseen
  }

  /** Evicted is answered only for a job that really was evicted and is not tracked now; and when no
      job was evicted twice, it is answered for each of the last evictions the memory has room for. */
  lemma EvictedIsTruthful(lim: Limits, ix: Index, jid: string)
    requires Sound(ix)
    ensures LookUp(lim, ix, jid) == LookupEvicted ==>
              jid in ix.log && forall i :: 0 <= i < |ix.entries| ==> ix.entries[i].job.jid != jid
    ensures Distinct(ix.log) && jid in Last(ix.log, Capacity(lim.maxJobs)) ==> LookUp(lim, ix, jid) != LookupUnseen
  {
    FindIs(ix.entries, jid);
    MemoryIsSound(ix.log, Capacity(lim.maxJobs));
    if Distinct(ix.log) {
      LastAreRemembered(ix.log, Capacity(lim.maxJobs));
    }
  }
}
