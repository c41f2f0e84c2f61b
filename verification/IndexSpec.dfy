/** What the job index of `internal/stats/jobs.go` does, on values: correlation of new and ret
    events, byte accounting, and eviction in three tiers around a pinned job. */
module IndexSpec {
  import opened Basics
  import opened Events
  import opened Jobs
  import opened Evicted

  const PER_MINION_BYTES: nat := 64

  /** One tracked job and the weight charged for it. */
  datatype Entry = Entry(job: JobVal, bytes: nat)

  /** The index: jobs in order of first observation, the pinned one, every eviction so far, the
      bytes charged, and how many jobs were ever tracked at once and ever created. */
  datatype Index = Index(
    entries: seq<Entry>, pinned: string, log: seq<string>, bytes: nat, highWater: nat, created: nat)

  const NO_JOBS := Index([], "", [], 0, 0, 0)

  datatype Limits = Limits(maxJobs: int, ceiling: int)

  // ---------------------------------------------------------------- correlating events

  function Names(list: seq<string>): set<string> {
    set m | m in list
  }

  function NewUpdate(v: JobVal, e: Event, expected: Option<seq<string>>, trimmed: bool): JobVal {
    var v1 := if e.at.fun != "" then v.(labels := v.labels.(fun := e.at.fun)) else v;
    var v2 := if v1.start.None? then v1.(start := Some(e.at.arrival)) else v1;
    if trimmed && v2.state != Known then v2.(state := Trimmed)
    else if expected.Some? then
      v2.(state := Known, expected := v2.expected + Names(expected.value))
    else v2
  }

  function RetUpdate(v: JobVal, e: Event): JobVal {
    var v1 := WithReturn(v, RetInfo(e.at.minion, e.at.retCode, e.at.success, e.at.arrival));
    if v1.labels.fun == "" then v1.(labels := v1.labels.(fun := e.at.fun)) else v1
  }

  /** The weight of a job: one short string per expected target, when known, and per return. */
  function Weight(v: JobVal): nat {
    (KnownCount(v).0 + |v.answers|) * PER_MINION_BYTES
  }

  /** The first place at or after `i` where a job is tracked, or the number of jobs. */
  function FindFrom(entries: seq<Entry>, jid: string, i: nat): (r: nat)
    requires i <= |entries|
    ensures i <= r <= |entries| && (r < |entries| ==> entries[r].job.jid == jid)
    decreases |entries| - i
  {
    if i == |entries| || entries[i].job.jid == jid then i else FindFrom(entries, jid, i + 1)
  }

  /** Where a job is tracked, or the number of jobs if it is not. */
  function Find(entries: seq<Entry>, jid: string): (i: nat)
    ensures i <= |entries|
    ensures i < |entries| ==> entries[i].job.jid == jid
  {
    FindFrom(entries, jid, 0)
  }

  /** The index with a place for `jid`. */
  function Touch(ix: Index, jid: string): Index {
    if Find(ix.entries, jid) < |ix.entries| then ix
    else ix.(entries := ix.entries + [Entry(EmptyJob(jid), 0)], created := ix.created + 1,
             highWater := Max(ix.highWater, |ix.entries| + 1))
  }

  /** A job re-weighed after it was changed. */
  function Reweigh(ix: Index, i: nat, job: JobVal): Index
    requires i < |ix.entries| && ix.bytes >= ix.entries[i].bytes
  {
    ix.(entries := ix.entries[i := Entry(job, Weight(job))], bytes := ix.bytes + Weight(job) - ix.entries[i].bytes)
  }

  // ---------------------------------------------------------------- eviction

  /** 0: nothing more will arrive; 1: can never complete; 2: still progressing. */
  function Tier(v: JobVal): nat {
    if IsComplete(v) then 0 else if v.state != Known then 1 else 2
  }

  /** The oldest unpinned job of a tier at or after `i`, or -1. */
  function Oldest(entries: seq<Entry>, pinned: string, tier: nat, i: nat): (r: int)
    ensures -1 <= r < |entries|
    decreases |entries| - i
  {
    if i >= |entries| then -1
    else if entries[i].job.jid != pinned && Tier(entries[i].job) == tier then i
    else Oldest(entries, pinned, tier, i + 1)
  }

  function Victim(entries: seq<Entry>, pinned: string): (r: int)
    ensures -1 <= r < |entries|
  {
    var complete := Oldest(entries, pinned, 0, 0);
    var never := Oldest(entries, pinned, 1, 0);
    if complete >= 0 then complete else if never >= 0 then never else Oldest(entries, pinned, 2, 0)
  }

  predicate OverCapacity(lim: Limits, ix: Index) {
    |ix.entries| > lim.maxJobs || (lim.ceiling > 0 && ix.bytes > lim.ceiling)
  }

  function Drop(ix: Index, i: nat): Index
    requires i < |ix.entries|
  {
    ix.(entries := ix.entries[..i] + ix.entries[i + 1..], log := ix.log + [ix.entries[i].job.jid],
        bytes := if ix.bytes < ix.entries[i].bytes then 0 else ix.bytes - ix.entries[i].bytes)
  }

  function Evict(lim: Limits, ix: Index): Index
    decreases |ix.entries|
  {
    if !OverCapacity(lim, ix) then ix
    else
      var victim := Victim(ix.entries, ix.pinned);
      if victim < 0 then ix else Evict(lim, Drop(ix, victim))
  }

  // ---------------------------------------------------------------- one event

  /** The job an event concerns, if it is one the index records. */
  function Concerns(e: Event): Option<string> {
    match e.at.kind
    case KindNew => if e.at.jid == "" then None else Some(e.at.jid)
    case KindRet => if e.at.jid == "" || e.at.minion == "" then None else Some(e.at.jid)
    case _ => None
  }

  function Updated(v: JobVal, e: Event, expected: Option<seq<string>>, trimmed: bool): JobVal {
    if e.at.kind.KindNew? then NewUpdate(v, e, expected, trimmed) else RetUpdate(v, e)
  }

  /** The index after an event is recorded and before eviction. */
  function Recorded(ix: Index, jid: string, e: Event, expected: Option<seq<string>>, trimmed: bool): Index
    requires Sound(ix)
  {
    var t := Touch(ix, jid);
    TouchIsSound(ix, jid);
    var i := Find(t.entries, jid);
    BytesCover(t.entries, i);
    Reweigh(t, i, Updated(t.entries[i].job, e, expected, trimmed))
  }

  function Observe(lim: Limits, ix: Index, e: Event, expected: Option<seq<string>>, trimmed: bool): Index
    requires Sound(ix)
  {
    match Concerns(e)
    case None => ix
    case Some(jid) => Evict(lim, Recorded(ix, jid, e, expected, trimmed))
  }

  // ---------------------------------------------------------------- accounting

  /** What the first `n` jobs are charged. */
  function BytesTo(entries: seq<Entry>, n: nat): nat
    requires n <= |entries|
  {
    if n == 0 then 0 else BytesTo(entries, n - 1) + entries[n - 1].bytes
  }

  function TotalBytes(entries: seq<Entry>): nat {
    BytesTo(entries, |entries|)
  }

  /** Always true: mentioned to say which instance of the quantifiers below a proof needs. */
  ghost predicate At(i: int, j: int) {
    true
  }

  /** No two jobs share a JID. */
  ghost predicate Unique(entries: seq<Entry>) {
    forall i, j {:trigger At(i, j)} :: 0 <= i < j < |entries| ==> entries[i].job.jid != entries[j].job.jid
  }

  /** Each charge is its job's current weight. */
  ghost predicate Exact(entries: seq<Entry>) {
    forall i {:trigger At(i, i)} :: 0 <= i < |entries| ==> entries[i].bytes == Weight(entries[i].job)
  }

  lemma UniqueAt(entries: seq<Entry>, i: nat, j: nat)
    requires Unique(entries) && i < |entries| && j < |entries| && i != j
    ensures entries[i].job.jid != entries[j].job.jid
  {
    assert At(i, j) && At(j, i);
  }

  lemma ExactAt(entries: seq<Entry>, i: nat)
    requires Exact(entries) && i < |entries|
    ensures entries[i].bytes == Weight(entries[i].job)
  {
    assert At(i, i);
  }

  /** The accounting is exact: bytes are the sum of the charges, each charge is its job's current
      weight, and every job ever created is tracked or evicted. */
  ghost predicate Sound(ix: Index) {
    && Unique(ix.entries)
    && ix.bytes == TotalBytes(ix.entries)
    && Exact(ix.entries)
    && ix.created == |ix.entries| + |ix.log|
    && |ix.entries| <= ix.highWater
  }

  lemma {:induction false} FindFromIs(entries: seq<Entry>, jid: string, i: nat)
    requires i <= |entries|
    ensures forall k :: i <= k < FindFrom(entries, jid, i) ==> entries[k].job.jid != jid
    decreases |entries| - i
  {
    if i < |entries| && entries[i].job.jid != jid {
      FindFromIs(entries, jid, i + 1);
    }
  }

  /** Not found means not tracked. */
  lemma FindIs(entries: seq<Entry>, jid: string)
    ensures forall k :: 0 <= k < Find(entries, jid) ==> entries[k].job.jid != jid
  {
    FindFromIs(entries, jid, 0);
  }

  lemma {:induction false} SameBytes(entries: seq<Entry>, others: seq<Entry>, n: nat)
    requires n <= |entries| && n <= |others| && forall k :: 0 <= k < n ==> entries[k] == others[k]
    ensures BytesTo(entries, n) == BytesTo(others, n)
  {
    if n > 0 {
      SameBytes(entries, others, n - 1);
    }
  }

  lemma {:induction false} BytesUpdateTo(entries: seq<Entry>, i: nat, en: Entry, n: nat)
    requires i < n <= |entries|
    ensures BytesTo(entries[i := en], n) == BytesTo(entries, n) - entries[i].bytes + en.bytes
  {
    if i == n - 1 {
      SameBytes(entries, entries[i := en], i);
    } else {
      BytesUpdateTo(entries, i, en, n - 1);
    }
  }

  /** Charging one job anew moves the total by the difference. */
  lemma BytesUpdate(entries: seq<Entry>, i: nat, en: Entry)
    requires i < |entries|
    ensures TotalBytes(entries[i := en]) == TotalBytes(entries) - entries[i].bytes + en.bytes
  {
    BytesUpdateTo(entries, i, en, |entries|);
  }

  lemma {:induction false} BytesCoverTo(entries: seq<Entry>, i: nat, n: nat)
    requires i < n <= |entries|
    ensures entries[i].bytes <= BytesTo(entries, n)
  {
    if i < n - 1 {
      BytesCoverTo(entries, i, n - 1);
    }
  }

  lemma BytesCover(entries: seq<Entry>, i: nat)
    ensures i < |entries| ==> entries[i].bytes <= TotalBytes(entries)
  {
    if i < |entries| {
      BytesCoverTo(entries, i, |entries|);
    }
  }

  lemma {:induction false} BytesWithoutTo(entries: seq<Entry>, i: nat, n: nat)
    requires i < n <= |entries|
    ensures BytesTo(entries[..i] + entries[i + 1..], n - 1) == BytesTo(entries, n) - entries[i].bytes
  {
    if i == n - 1 {
      SameBytes(entries, entries[..i] + entries[i + 1..], i);
    } else {
      BytesWithoutTo(entries, i, n - 1);
    }
  }

  /** The total without a job is less by its charge. */
  lemma BytesWithout(entries: seq<Entry>, i: nat)
    requires i < |entries|
    ensures TotalBytes(entries[..i] + entries[i + 1..]) == TotalBytes(entries) - entries[i].bytes
  {
    BytesWithoutTo(entries, i, |entries|);
  }

  lemma EmptyWeighsNothing(jid: string)
    ensures Weight(EmptyJob(jid)) == 0
  {}

  lemma TouchIsSound(ix: Index, jid: string)
    requires Sound(ix)
    ensures var t := Touch(ix, jid);
            && Sound(t) && Find(t.entries, jid) < |t.entries| <= |ix.entries| + 1
            && t.pinned == ix.pinned && t.log == ix.log
  {
    FindIs(ix.entries, jid);
    var t := Touch(ix, jid);
    FindIs(t.entries, jid);
    EmptyWeighsNothing(jid);
    if t != ix {
      assert t.entries[|ix.entries|].job.jid == jid;
      SameBytes(ix.entries, t.entries, |ix.entries|);
      forall i, j | 0 <= i < j < |t.entries|
        ensures t.entries[i].job.jid != t.entries[j].job.jid
      {
        if j < |ix.entries| {
          UniqueAt(ix.entries, i, j);
        }
      }
      forall i | 0 <= i < |t.entries|
        ensures t.entries[i].bytes == Weight(t.entries[i].job)
      {
        if i < |ix.entries| {
          ExactAt(ix.entries, i);
        }
      }
    }
  }

  lemma ReplaceKeeps(entries: seq<Entry>, i: nat, en: Entry)
    requires Unique(entries) && Exact(entries) && i < |entries|
    requires en.job.jid == entries[i].job.jid && en.bytes == Weight(en.job)
    ensures Unique(entries[i := en]) && Exact(entries[i := en])
  {
    var next := entries[i := en];
    forall k, j | 0 <= k < j < |next|
      ensures next[k].job.jid != next[j].job.jid
    {
      UniqueAt(entries, k, j);
    }
    forall k | 0 <= k < |next|
      ensures next[k].bytes == Weight(next[k].job)
    {
      ExactAt(entries, k);
    }
  }

  lemma RemoveKeeps(entries: seq<Entry>, v: nat)
    requires Unique(entries) && Exact(entries) && v < |entries|
    ensures Unique(entries[..v] + entries[v + 1..]) && Exact(entries[..v] + entries[v + 1..])
  {
    var rest := entries[..v] + entries[v + 1..];
    forall i, j | 0 <= i < j < |rest|
      ensures rest[i].job.jid != rest[j].job.jid
    {
      UniqueAt(entries, if i < v then i else i + 1, if j < v then j else j + 1);
    }
    forall i | 0 <= i < |rest|
      ensures rest[i].bytes == Weight(rest[i].job)
    {
      ExactAt(entries, if i < v then i else i + 1);
    }
  }
}
