/** The job index of `internal/stats/jobs.go` as it is: a map of jobs and an ordered list of them,
    changed in place and kept against the values of IndexSpec. */
module JobIndexes {
  import opened Basics
  import opened Events
  import opened Jobs
  import opened Evicted
  import opened IndexSpec
  import opened IndexLaws

  lemma FindUnique(entries: seq<Entry>, i: nat)
    requires Unique(entries) && i < |entries|
    ensures Find(entries, entries[i].job.jid) == i
  {
    FindIs(entries, entries[i].job.jid);
    var r := Find(entries, entries[i].job.jid);
    if r < i {
      UniqueAt(entries, r, i);
    }
  }

  /** A tracked job as the index holds it: with its counters, and what it is charged. */
  datatype Slot = Slot(job: Counted, bytes: nat)

  ghost predicate StandsFor(slot: Slot, en: Entry) {
    slot.job.val == en.job && slot.bytes == en.bytes && CountsRight(slot.job)
  }

  /** Place `i` of the list leads through the table to entry `i`. */
  ghost predicate Leads(order: seq<string>, table: map<string, Slot>, entries: seq<Entry>, i: nat) {
    && i < |order| && i < |entries| && order[i] in table
    && StandsFor(table[order[i]], entries[i]) && entries[i].job.jid == order[i]
  }

  /** The list of JIDs and the table they lead into stand for a list of entries. */
  ghost predicate Represents(order: seq<string>, table: map<string, Slot>, entries: seq<Entry>) {
    && |order| == |entries| == |table|
    && (forall i {:trigger At(i, i)} :: 0 <= i < |order| ==> Leads(order, table, entries, i))
    && (forall jid {:trigger Asked(jid)} :: jid in table ==> jid in order)
  }

  lemma LeadsAt(order: seq<string>, table: map<string, Slot>, entries: seq<Entry>, i: nat)
    requires Represents(order, table, entries) && i < |order|
    ensures Leads(order, table, entries, i)
  {
    assert At(i, i);
  }

  lemma PlaceOf(order: seq<string>, table: map<string, Slot>, entries: seq<Entry>, jid: string) returns (i: nat)
    requires Represents(order, table, entries) && jid in table
    ensures i < |order| && order[i] == jid && Leads(order, table, entries, i)
  {
    assert Asked(jid);
    i :| 0 <= i < |order| && order[i] == jid;
    LeadsAt(order, table, entries, i);
  }

  /** A JID is in the table exactly when it is found in the list. */
  lemma TableFinds(order: seq<string>, table: map<string, Slot>, entries: seq<Entry>, jid: string)
    requires Represents(order, table, entries) && Unique(entries)
    ensures jid in table <==> Find(entries, jid) < |entries|
    ensures jid in table ==> StandsFor(table[jid], entries[Find(entries, jid)]) && table[jid].job.val.jid == jid
  {
    FindIs(entries, jid);
    if jid in table {
      var i := PlaceOf(order, table, entries, jid);
      FindUnique(entries, i);
    } else if Find(entries, jid) < |entries| {
      LeadsAt(order, table, entries, Find(entries, jid));
    }
  }

  lemma AppendRepresents(order: seq<string>, table: map<string, Slot>, entries: seq<Entry>, slot: Slot, en: Entry)
    requires Represents(order, table, entries) && en.job.jid !in table && StandsFor(slot, en)
    ensures Represents(order + [en.job.jid], table[en.job.jid := slot], entries + [en])
  {
    var order', table', entries' := order + [en.job.jid], table[en.job.jid := slot], entries + [en];
    forall k | 0 <= k < |order'|
      ensures Leads(order', table', entries', k)
    {
      if k < |order| {
        LeadsAt(order, table, entries, k);
      }
    }
    forall jid | jid in table'
      ensures jid in order'
    {
      if jid in table {
        var i := PlaceOf(order, table, entries, jid);
        assert order'[i] == jid;
      } else {
        assert order'[|order|] == jid;
      }
    }
  }

  lemma NamesMore(expected: set<string>, names: seq<string>, i: nat)
    requires i < |names|
    ensures expected + Names(names[..i + 1]) == (expected + Names(names[..i])) + {names[i]}
  {
    assert names[..i + 1] == names[..i] + [names[i]];
  }

  lemma NewCountsRight(jid: string)
    ensures CountsRight(NewCounted(jid))
  {}

  lemma TouchRepresents(order: seq<string>, table: map<string, Slot>, ix: Index, jid: string)
    requires Represents(order, table, ix.entries) && Sound(ix)
    ensures jid in table ==> Touch(ix, jid) == ix
    ensures jid !in table ==>
              && Represents(order + [jid], table[jid := Slot(NewCounted(jid), 0)], Touch(ix, jid).entries)
              && Touch(ix, jid).highWater == Max(ix.highWater, |table| + 1)
    ensures var t := Touch(ix, jid); Sound(t) && t.pinned == ix.pinned && t.log == ix.log && t.bytes == ix.bytes
  {
    TableFinds(order, table, ix.entries, jid);
    TouchIsSound(ix, jid);
    if jid !in table {
      NewCountsRight(jid);
      AppendRepresents(order, table, ix.entries, Slot(NewCounted(jid), 0), Entry(EmptyJob(jid), 0));
    }
  }

  lemma ChangeRepresents(order: seq<string>, table: map<string, Slot>, entries: seq<Entry>, i: nat, slot: Slot,
      en: Entry)
    requires Represents(order, table, entries) && Unique(entries) && StandsFor(slot, en)
    requires i < |entries| && en.job.jid == entries[i].job.jid
    ensures Represents(order, table[en.job.jid := slot], entries[i := en])
  {
    var jid, table', entries' := en.job.jid, table[en.job.jid := slot], entries[i := en];
    LeadsAt(order, table, entries, i);
    assert table'.Keys == table.Keys;
    assert |table'| == |table'.Keys|;
    forall k | 0 <= k < |order|
      ensures Leads(order, table', entries', k)
    {
      LeadsAt(order, table, entries, k);
      if k != i {
        UniqueAt(entries, k, i);
      }
    }
    forall name | name in table'
      ensures name in order
    {
      assert Asked(name);
    }
  }

  /** A JID other than the one at `i` is still in the list without it. */
  lemma StillNamed(order: seq<string>, table: map<string, Slot>, entries: seq<Entry>, i: nat, jid: string)
    requires Represents(order, table, entries) && i < |order| && jid in table && jid != order[i]
    ensures jid in order[..i] + order[i + 1..]
  {
    var k := PlaceOf(order, table, entries, jid);
    assert (order[..i] + order[i + 1..])[if k < i then k else k - 1] == jid;
  }

  lemma StillLeads(order: seq<string>, table: map<string, Slot>, entries: seq<Entry>, i: nat, k: nat)
    requires Represents(order, table, entries) && Unique(entries) && i < |entries| && k < |entries| - 1
    ensures i < |order|
    ensures Leads(order[..i] + order[i + 1..], table - {order[i]}, entries[..i] + entries[i + 1..], k)
  {
    var j := if k < i then k else k + 1;
    assert (order[..i] + order[i + 1..])[k] == order[j] && (entries[..i] + entries[i + 1..])[k] == entries[j];
    LeadsAt(order, table, entries, i);
    LeadsAt(order, table, entries, j);
    UniqueAt(entries, j, i);
  }

  lemma DropRepresents(order: seq<string>, table: map<string, Slot>, entries: seq<Entry>, i: nat)
    requires Represents(order, table, entries) && Unique(entries) && i < |entries|
    ensures Represents(order[..i] + order[i + 1..], table - {order[i]}, entries[..i] + entries[i + 1..])
  {
    var order', table', entries' := order[..i] + order[i + 1..], table - {order[i]}, entries[..i] + entries[i + 1..];
    LeadsAt(order, table, entries, i);
    assert table'.Keys == table.Keys - {order[i]};
    assert |table'| == |table'.Keys|;
    forall k | 0 <= k < |order'|
      ensures Leads(order', table', entries', k)
    {
      StillLeads(order, table, entries, i, k);
    }
    forall jid | jid in table'
      ensures jid in order'
    {
      StillNamed(order, table, entries, i, jid);
    }
  }

  lemma SettleRepresents(order: seq<string>, table: map<string, Slot>, ix: Index, jid: string, job: Counted)
    requires Represents(order, table, ix.entries) && Sound(ix) && jid in table && job.val.jid == jid && CountsRight(job)
    ensures var i := Find(ix.entries, jid);
            && i < |ix.entries| && table[jid].bytes == ix.entries[i].bytes && ix.bytes >= table[jid].bytes
            && Sound(Reweigh(ix, i, job.val))
            && Represents(order, table[jid := Slot(job, Weight(job.val))], Reweigh(ix, i, job.val).entries)
  {
    var i := Find(ix.entries, jid);
    TableFinds(order, table, ix.entries, jid);
    ReweighIsSound(ix, i, job.val);
    ChangeRepresents(order, table, ix.entries, i, Slot(job, Weight(job.val)), Entry(job.val, Weight(job.val)));
  }

  lemma LeaveRepresents(order: seq<string>, table: map<string, Slot>, ix: Index, v: nat)
    requires Represents(order, table, ix.entries) && Sound(ix) && v < |ix.entries|
    ensures v < |order| && order[v] in table && StandsFor(table[order[v]], ix.entries[v])
    ensures ix.bytes >= ix.entries[v].bytes
    ensures var jid := ix.entries[v].job.jid;
            && jid == order[v] && Sound(Drop(ix, v)) && Drop(ix, v).log == ix.log + [jid]
            && Represents(order[..v] + order[v + 1..], table - {jid}, Drop(ix, v).entries)
  {
    BytesCover(ix.entries, v);
    LeadsAt(order, table, ix.entries, v);
    DropIsSound(ix, v);
    DropRepresents(order, table, ix.entries, v);
  }

  /** An event is folded in by making a place for its job, changing it, and settling. */
  lemma ObserveIsSettle(lim: Limits, ix: Index, e: Event, expected: Option<seq<string>>, trimmed: bool,
      jid: string, job: JobVal)
    requires Sound(ix) && Concerns(e) == Some(jid)
    requires var t := Touch(ix, jid);
             Sound(t) && Find(t.entries, jid) < |t.entries|
             && job == Updated(t.entries[Find(t.entries, jid)].job, e, expected, trimmed)
    ensures var t := Touch(ix, jid);
            && t.bytes >= t.entries[Find(t.entries, jid)].bytes
            && Observe(lim, ix, e, expected, trimmed) == Evict(lim, Reweigh(t, Find(t.entries, jid), job))
  {
    BytesCover(Touch(ix, jid).entries, Find(Touch(ix, jid).entries, jid));
  }

  function DescribedSlot(slot: Slot, tgt: string, tgtType: string, user: string): Slot {
    var v := slot.job.val;
    slot.(job := slot.job.(val := v.(labels := Described(v.labels, tgt, tgtType, user))))
  }

  lemma DescribeRepresents(order: seq<string>, table: map<string, Slot>, ix: Index, jid: string,
      tgt: string, tgtType: string, user: string)
    requires Represents(order, table, ix.entries) && Sound(ix) && jid in table
    ensures var r := Relabel(ix, jid, tgt, tgtType, user);
            && Sound(r) && r == ix.(entries := r.entries)
            && Represents(order, table[jid := DescribedSlot(table[jid], tgt, tgtType, user)], r.entries)
  {
    TableFinds(order, table, ix.entries, jid);
    RelabelIsSound(ix, jid, tgt, tgtType, user);
    var i, slot := Find(ix.entries, jid), DescribedSlot(table[jid], tgt, tgtType, user);
    SameCounts(table[jid].job, slot.job);
    ChangeRepresents(order, table, ix.entries, i, slot, Relabel(ix, jid, tgt, tgtType, user).entries[i]);
  }

  /** The counters look at nothing but the two sets. */
  lemma SameCounts(c: Counted, d: Counted)
    requires CountsRight(c) && c.val.expected == d.val.expected && c.val.answers == d.val.answers
    requires c.failed == d.failed && c.missing == d.missing
    ensures CountsRight(d)
  {}

  /** The jobs listed are the newest entries, newest first, each with the right counters. */
  ghost predicate NewestFirst(out: seq<Counted>, entries: seq<Entry>) {
    && |out| <= |entries|
    && forall k :: 0 <= k < |out| ==> out[k].val == entries[|entries| - 1 - k].job && CountsRight(out[k])
  }

  /** How many jobs are tracked, of how many, the most there ever were, and how many were evicted. */
  datatype IndexStats = IndexStats(tracked: nat, cap: int, highWater: int, evicted: nat)

  class JobIndex {
    const maxJobs: int
    const memCeiling: int
    const evicted: EvictedSet

    /** The tracked jobs by JID, each with what it is charged, and their JIDs in order of first observation. */
    var jobs: map<string, Slot>
    var order: seq<string>

    var pinned: string
    var highWater: int
    var evictedCount: nat
    var bytes: nat

    /** The index as a value. */
    ghost var ix: Index

    ghost function Lim(): Limits {
      Limits(maxJobs, memCeiling)
    }

    ghost predicate Agrees()
      reads this
    {
      pinned == ix.pinned && highWater == ix.highWater && bytes == ix.bytes && evictedCount == |ix.log| && Sound(ix)
    }

    ghost predicate Remembers(log: seq<string>)
      reads evicted
    {
      evicted.Valid() && evicted.cap == Capacity(maxJobs) && evicted.Contents() == Memory(log, evicted.cap)
    }

    ghost predicate Valid()
      reads this, evicted
    {
      Represents(order, jobs, ix.entries) && Agrees() && Remembers(ix.log)
    }

    constructor (maxJobs: int, memCeiling: int)
      ensures Valid() && ix == NO_JOBS && this.maxJobs == maxJobs && this.memCeiling == memCeiling && fresh(evicted)
    {
      this.maxJobs, this.memCeiling := maxJobs, memCeiling;
      evicted := new EvictedSet(Capacity(maxJobs));
      jobs, order := map[], [];
      pinned, highWater, evictedCount, bytes, ix := "", 0, 0, 0, NO_JOBS;
    }

    /** Makes a place for `jid` if there is none. */
    method Touch(jid: string)
      requires Valid()
      modifies this
      ensures Valid() && ix == IndexSpec.Touch(old(ix), jid) && jid in jobs
    {
      TouchRepresents(order, jobs, ix, jid);
      if jid !in jobs {
        Link(jid);
        ix := IndexSpec.Touch(ix, jid);
      }
    }

    /** Puts a new job at the end of the list and records the high-water mark. */
    method Link(jid: string)
      requires jid !in jobs
      modifies this`order, this`jobs, this`highWater
      ensures order == old(order) + [jid] && jobs == old(jobs)[jid := Slot(NewCounted(jid), 0)]
      ensures highWater == Max(old(highWater), |old(jobs)| + 1)
    {
      order := order + [jid];
      jobs := jobs[jid := Slot(NewCounted(jid), 0)];
      if |jobs| > highWater {
        highWater := |jobs|;
      }
    }

    /** Re-weighs a job that was changed and evicts if a bound is now exceeded. */
    method Settle(jid: string, job: Counted)
      requires Valid() && jid in jobs && job.val.jid == jid && CountsRight(job)
      modifies this, evicted
      ensures Valid()
      ensures var was := old(ix);
              Find(was.entries, jid) < |was.entries| && was.bytes >= was.entries[Find(was.entries, jid)].bytes
              && ix == IndexSpec.Evict(Lim(), Reweigh(was, Find(was.entries, jid), job.val))
    {
      SettleRepresents(order, jobs, ix, jid, job);
      var weight := JobBytes(job.val);
      ix := Reweigh(ix, Find(ix.entries, jid), job.val);
      bytes := bytes + weight - jobs[jid].bytes;
      jobs := jobs[jid := Slot(job, weight)];
      Evict();
    }

    /** A job's weight, composed through the count that is zero while the expected set is unknown. */
    function JobBytes(job: JobVal): (w: nat)
      ensures w == Weight(job)
    {
      var (expected, _) := KnownCount(job);
      (expected + |job.answers|) * PER_MINION_BYTES
    }

    /** Drops jobs until both bounds hold. */
    method Evict()
      requires Valid()
      modifies this, evicted
      ensures Valid() && ix == IndexSpec.Evict(Lim(), old(ix))
    {
      while |jobs| > maxJobs || (memCeiling > 0 && bytes > memCeiling)
        invariant Valid() && IndexSpec.Evict(Lim(), ix) == IndexSpec.Evict(Lim(), old(ix))
        decreases |ix.entries|
      {
        var victim := OldestEvictable();
        if victim < 0 {
          return;
        }
        DropAt(victim);
      }
    }

    /** Picks a victim in three tiers of preference, oldest first within each; never the pinned job. */
    method OldestEvictable() returns (victim: int)
      requires Valid()
      ensures victim == Victim(ix.entries, ix.pinned)
    {
      var never, progressing := -1, -1;
      ghost var es, p := ix.entries, ix.pinned;
      for i := 0 to |order|
        invariant Oldest(es, p, 0, 0) == Oldest(es, p, 0, i)
        invariant Oldest(es, p, 1, 0) == if never >= 0 then never else Oldest(es, p, 1, i)
        invariant Oldest(es, p, 2, 0) == if progressing >= 0 then progressing else Oldest(es, p, 2, i)
      {
        LeadsAt(order, jobs, es, i);
        var job := jobs[order[i]].job;
        CounterDecides(job);
        if job.val.jid == pinned {
        } else if CountsComplete(job) {
          return i;
        } else if job.val.state != Known {
          if never < 0 {
            never := i;
          }
        } else {
          if progressing < 0 {
            progressing := i;
          }
        }
      }
      if never >= 0 {
        return never;
      }
      return progressing;
    }

    /** Removes one job and records the eviction. */
    method DropAt(v: nat)
      requires Valid() && v < |order|
      modifies this, evicted
      ensures Valid() && v < |old(ix).entries| && ix == IndexSpec.Drop(old(ix), v)
    {
      LeaveRepresents(order, jobs, ix, v);
      MemoryMore(ix.log, evicted.cap, order[v]);
      evicted.Add(order[v]);
      Unlink(v);
      ix := IndexSpec.Drop(ix, v);
    }

    /** Takes a job out of the list and the map, and its charge off the total. */
    method Unlink(v: nat)
      requires v < |order| && order[v] in jobs
      modifies this`order, this`jobs, this`bytes, this`evictedCount
      ensures order == old(order[..v] + order[v + 1..]) && jobs == old(jobs - {order[v]})
      ensures bytes == old(if bytes < jobs[order[v]].bytes then 0 else bytes - jobs[order[v]].bytes)
      ensures evictedCount == old(evictedCount) + 1
    {
      var jid := order[v];
      var en := jobs[jid];
      order := order[..v] + order[v + 1..];
      jobs := jobs - {jid};
      bytes := Max(0, bytes - en.bytes);
      evictedCount := evictedCount + 1;
    }

    /** Folds one event into the index. */
    method Observe(e: Event, expected: Option<seq<string>>, trimmed: bool)
      requires Valid()
      modifies this, evicted
      ensures Valid() && ix == IndexSpec.Observe(Lim(), old(ix), e, expected, trimmed)
    {
      match e.at.kind
      case KindNew => ObserveNew(e, expected, trimmed);
      case KindRet => ObserveRet(e, expected, trimmed);
      case _ =>
    }

    /** Records a job's publication and, when it was given, its expected minion set. */
    method ObserveNew(e: Event, expected: Option<seq<string>>, trimmed: bool)
      requires Valid() && e.at.kind.KindNew?
      modifies this, evicted
      ensures Valid() && ix == IndexSpec.Observe(Lim(), old(ix), e, expected, trimmed)
    {
      if e.at.jid == "" {
        return;
      }
      Touch(e.at.jid);
      TableFinds(order, jobs, ix.entries, e.at.jid);
      var job := Publish(jobs[e.at.jid].job, e, expected, trimmed);
      ObserveIsSettle(Lim(), old(ix), e, expected, trimmed, e.at.jid, job.val);
      Settle(e.at.jid, job);
    }

    /** What a publication adds to a job; a second sighting never takes anything away. */
    static method Publish(was: Counted, e: Event, expected: Option<seq<string>>, trimmed: bool) returns (job: Counted)
      requires CountsRight(was)
      ensures job.val == NewUpdate(was.val, e, expected, trimmed) && CountsRight(job)
    {
      var v := was.val;
      if e.at.fun != "" {
        v := v.(labels := v.labels.(fun := e.at.fun));
      }
      if v.start.None? {
        v := v.(start := Some(e.at.arrival));
      }
      if trimmed && v.state != Known {
        v := v.(state := Trimmed);
      } else if expected.Some? {
        v := v.(state := Known);
      }
      job := was.(val := v);
      SameCounts(was, job);
      if !(trimmed && was.val.state != Known) && expected.Some? {
        job := AddAll(job, expected.value);
      }
    }

    /** Adds every name of a list to the expected set. */
    static method AddAll(job: Counted, names: seq<string>) returns (r: Counted)
      requires CountsRight(job)
      ensures r.val == job.val.(expected := job.val.expected + Names(names)) && CountsRight(r)
    {
      r := job;
      assert job.val.expected + Names(names[..0]) == job.val.expected;
      for i := 0 to |names|
        invariant r.val == job.val.(expected := job.val.expected + Names(names[..i])) && CountsRight(r)
      {
        NamesMore(job.val.expected, names, i);
        CountTargetIsRight(r, names[i]);
        r := CountTarget(r, names[i]);
      }
      assert names[..|names|] == names;
    }

    /** Records one minion's return; one without a minion or a job is dropped. */
    method ObserveRet(e: Event, ghost expected: Option<seq<string>>, ghost trimmed: bool)
      requires Valid() && e.at.kind.KindRet?
      modifies this, evicted
      ensures Valid() && ix == IndexSpec.Observe(Lim(), old(ix), e, expected, trimmed)
    {
      if e.at.jid == "" || e.at.minion == "" {
        return;
      }
      Touch(e.at.jid);
      TableFinds(order, jobs, ix.entries, e.at.jid);
      var job := Answer(jobs[e.at.jid].job, e);
      ObserveIsSettle(Lim(), old(ix), e, expected, trimmed, e.at.jid, job.val);
      Settle(e.at.jid, job);
    }

    /** What a return adds to a job. */
    static method Answer(was: Counted, e: Event) returns (job: Counted)
      requires CountsRight(was)
      ensures job.val == RetUpdate(was.val, e) && CountsRight(job)
    {
      var r := RetInfo(e.at.minion, e.at.retCode, e.at.success, e.at.arrival);
      CountReturnIsRight(was, r);
      job := CountReturn(was, r);
      if job.val.labels.fun == "" {
        job := job.(val := job.val.(labels := job.val.labels.(fun := e.at.fun)));
        SameCounts(CountReturn(was, r), job);
      }
    }

    /** Marks a job as never evictable. */
    method SetPin(jid: string)
      requires Valid()
      modifies this
      ensures Valid() && ix == old(ix).(pinned := jid)
    {
      pinned := jid;
      ix := ix.(pinned := jid);
    }

    /** Looks up a job and says why it is unavailable when it is. */
    method JobOf(jid: string) returns (job: Option<Counted>, why: Lookup)
      requires Valid()
      ensures why == LookUp(Lim(), ix, jid)
      ensures why == LookupFound <==> job.Some?
      ensures job.Some? ==> job.value.val == ix.entries[Find(ix.entries, jid)].job && CountsRight(job.value)
    {
      TableFinds(order, jobs, ix.entries, jid);
      if jid in jobs {
        return Some(jobs[jid].job), LookupFound;
      }
      var known := evicted.Has(jid);
      return None, if known then LookupEvicted else LookupUnseen;
    }

    /** The index readout: every job ever tracked is tracked still or was evicted. */
    method Readout() returns (s: IndexStats)
      requires Valid()
      ensures s.tracked == |ix.entries| && s.cap == maxJobs && s.highWater == ix.highWater && s.evicted == |ix.log|
      ensures s.tracked + s.evicted == ix.created && s.tracked <= s.highWater
    {
      s := IndexStats(|jobs|, maxJobs, highWater, evictedCount);
    }

    /** The `n` most recent jobs, newest first. */
    method List(n: int) returns (out: seq<Counted>)
      requires Valid()
      ensures |out| == (if n <= 0 then 0 else Min(n, |ix.entries|)) && NewestFirst(out, ix.entries)
    {
      out := [];
      var m := if n > |jobs| then |jobs| else n;
      var i := |order|;
      while i > 0 && |out| < m
        invariant 0 <= i <= |order| && |out| == |order| - i && (|out| <= m || |out| == 0)
        invariant NewestFirst(out, ix.entries)
      {
        i := i - 1;
        LeadsAt(order, jobs, ix.entries, i);
        out := out + [jobs[order[i]].job];
      }
    }

    /** Fills in the descriptive fields of a job that are not known yet. */
    method Describe(jid: string, tgt: string, tgtType: string, user: string)
      requires Valid()
      modifies this
      ensures Valid() && ix == Relabel(old(ix), jid, tgt, tgtType, user)
    {
      TableFinds(order, jobs, ix.entries, jid);
      if jid in jobs {
        DescribeRepresents(order, jobs, ix, jid, tgt, tgtType, user);
        ix := Relabel(ix, jid, tgt, tgtType, user);
        jobs := jobs[jid := DescribedSlot(jobs[jid], tgt, tgtType, user)];
      }
    }
  }
}
