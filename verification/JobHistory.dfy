/** What a job tracked by the index amounts to, in terms of the events about it: over any run, a job that
    was never evicted holds exactly what its own events said. */
module JobHistory {
  import opened Basics
  import opened Events
  import opened Jobs
  import opened IndexSpec
  import opened IndexLaws

  // ---------------------------------------------------------------- the events about a job

  /** A return of minion `m` for the job. */
  predicate IsReturn(op: IndexOp, jid: string, m: string) {
    op.See? && op.e.at.kind == KindRet && op.e.at.jid == jid && op.e.at.minion == m && m != ""
  }

  /** A publication of the job. */
  predicate IsNew(op: IndexOp, jid: string) {
    op.See? && op.e.at.kind == KindNew && op.e.at.jid == jid
  }

  /** A publication that lists the job's targets. */
  predicate Lists(op: IndexOp, jid: string) {
    IsNew(op, jid) && op.expected.Some?
  }

  /** An event about the job. */
  predicate About(op: IndexOp, jid: string) {
    jid != "" && (IsNew(op, jid) || (op.See? && IsReturn(op, jid, op.e.at.minion)))
  }

  /** No publication says both that its target list was trimmed and what it was. */
  ghost predicate Honest(ops: seq<IndexOp>) {
    forall i :: 0 <= i < |ops| && ops[i].See? && ops[i].trimmed ==> ops[i].expected == None
  }

  // ---------------------------------------------------------------- what they teach

  /** The job after its own events. */
  function Taught(ops: seq<IndexOp>, jid: string): JobVal {
    if ops == [] then EmptyJob(jid)
    else
      var op, v := ops[|ops| - 1], Taught(ops[..|ops| - 1], jid);
      if About(op, jid) then Updated(v, op.e, op.expected, op.trimmed) else v
  }

  /** A job without the names a description gives it. */
  function Plain(v: JobVal): JobVal {
    v.(labels := BLANK.(fun := v.labels.fun))
  }

  ghost predicate Tracked(ix: Index, jid: string) {
    exists i :: 0 <= i < |ix.entries| && ix.entries[i].job.jid == jid
  }

  lemma EvictKeepsOrLogs(lim: Limits, ix: Index, i: nat)
    requires Sound(ix) && i < |ix.entries|
    ensures var out := Evict(lim, ix); Tracked(out, ix.entries[i].job.jid) || ix.entries[i].job.jid in out.log
  {
    EvictKeepsEntries(lim, ix);
    EvictionIsLogged(lim, ix, i);
    var out := Evict(lim, ix);
    if ix.entries[i] in out.entries {
      var k :| 0 <= k < |out.entries| && out.entries[k] == ix.entries[i];
      assert out.entries[k].job.jid == ix.entries[i].job.jid;
    }
  }

  /** The index after an event about `jid` is recorded: that job updated, every other as it was. */
  lemma RecordedEntries(ix: Index, jid: string, e: Event, expected: Option<seq<string>>, trimmed: bool)
    requires Sound(ix)
    ensures var r := Recorded(ix, jid, e, expected, trimmed);
            && Sound(r) && r.log == ix.log && Tracked(r, jid)
            && (forall i :: 0 <= i < |ix.entries| ==> i < |r.entries| && r.entries[i].job.jid == ix.entries[i].job.jid)
            && (forall i :: 0 <= i < |r.entries| && r.entries[i].job.jid != jid ==>
                  i < |ix.entries| && r.entries[i].job == ix.entries[i].job)
            && (forall i :: 0 <= i < |r.entries| && r.entries[i].job.jid == jid ==>
                  if i < |ix.entries| then r.entries[i].job == Updated(ix.entries[i].job, e, expected, trimmed)
                  else !Tracked(ix, jid) && r.entries[i].job == Updated(EmptyJob(jid), e, expected, trimmed))
  {
    RecordedIsSound(ix, jid, e, expected, trimmed);
    TouchIsSound(ix, jid);
    FindIs(ix.entries, jid);
    var t := Touch(ix, jid);
    FindIs(t.entries, jid);
    var at := Find(t.entries, jid);
    UpdatedKeepsJid(t.entries[at].job, e, expected, trimmed);
    var r := Recorded(ix, jid, e, expected, trimmed);
    assert r.entries[at].job.jid == jid;
    forall i | 0 <= i < |r.entries| && r.entries[i].job.jid == jid
      ensures i == at
    {
      if i != at {
        UniqueAt(r.entries, i, at);
      }
    }
  }

  /** A job with an event is tracked, or was evicted. */
  lemma {:induction false} EventsAreKept(lim: Limits, ops: seq<IndexOp>, jid: string, k: nat)
    requires k < |ops| && About(ops[k], jid)
    ensures var ix := Run(lim, ops); Tracked(ix, jid) || jid in ix.log
  {
    var front, op := ops[..|ops| - 1], ops[|ops| - 1];
    assert ops == front + [op];
    RunMore(lim, front, op);
    var ix := Run(lim, front);
    if k < |front| {
      EventsAreKept(lim, front, jid, k);
      ActKeepsKnown(lim, ix, op, jid);
    } else {
      AboutIsRecorded(lim, ix, op, jid);
    }
  }

  lemma AboutConcerns(op: IndexOp, jid: string)
    requires op.See? && jid != ""
    ensures About(op, jid) <==> Concerns(op.e) == Some(jid)
  {}

  lemma AboutIsRecorded(lim: Limits, ix: Index, op: IndexOp, jid: string)
    requires Sound(ix) && About(op, jid)
    ensures var r := Act(lim, ix, op); Tracked(r, jid) || jid in r.log
  {
    AboutConcerns(op, jid);
    RecordedEntries(ix, jid, op.e, op.expected, op.trimmed);
    var r := Recorded(ix, jid, op.e, op.expected, op.trimmed);
    var i :| 0 <= i < |r.entries| && r.entries[i].job.jid == jid;
    EvictKeepsOrLogs(lim, r, i);
  }

  lemma SeeKeepsKnown(lim: Limits, ix: Index, e: Event, expected: Option<seq<string>>, trimmed: bool, jid: string)
    requires Sound(ix) && (Tracked(ix, jid) || jid in ix.log) && Concerns(e).Some?
    ensures var r := Observe(lim, ix, e, expected, trimmed); Tracked(r, jid) || jid in r.log
  {
    var about := Concerns(e).value;
    RecordedEntries(ix, about, e, expected, trimmed);
    var r := Recorded(ix, about, e, expected, trimmed);
    EvictKeepsEntries(lim, r);
    if Tracked(ix, jid) {
      var i :| 0 <= i < |ix.entries| && ix.entries[i].job.jid == jid;
      EvictKeepsOrLogs(lim, r, i);
    }
  }

  lemma ActKeepsKnown(lim: Limits, ix: Index, op: IndexOp, jid: string)
    requires Sound(ix) && (Tracked(ix, jid) || jid in ix.log)
    ensures var r := Act(lim, ix, op); Tracked(r, jid) || jid in r.log
  {
    var r := Act(lim, ix, op);
    if op.See? && Concerns(op.e).Some? {
      SeeKeepsKnown(lim, ix, op.e, op.expected, op.trimmed, jid);
    } else if Tracked(ix, jid) {
      var i :| 0 <= i < |ix.entries| && ix.entries[i].job.jid == jid;
      assert r.entries[i].job.jid == jid;
    }
  }

  lemma PlainUpdates(v: JobVal, e: Event, expected: Option<seq<string>>, trimmed: bool)
    ensures Plain(Updated(v, e, expected, trimmed)) == Updated(Plain(v), e, expected, trimmed)
  {
    if e.at.kind.KindNew? {
      PlainNew(v, e, expected, trimmed);
    } else {
      PlainRet(v, e);
    }
  }

  lemma PlainNew(v: JobVal, e: Event, expected: Option<seq<string>>, trimmed: bool)
    ensures Plain(NewUpdate(v, e, expected, trimmed)) == NewUpdate(Plain(v), e, expected, trimmed)
  {
    var a, b := Plain(NewUpdate(v, e, expected, trimmed)), NewUpdate(Plain(v), e, expected, trimmed);
    assert a.labels == b.labels && a.start == b.start && a.state == b.state && a.expected == b.expected;
  }

  lemma PlainRet(v: JobVal, e: Event)
    ensures Plain(RetUpdate(v, e)) == RetUpdate(Plain(v), e)
  {
    var a, b := Plain(RetUpdate(v, e)), RetUpdate(Plain(v), e);
    assert a.labels == b.labels && a.lastRet == b.lastRet && a.answers == b.answers;
  }

  /** Every tracked job that was never evicted is what its events taught. */
  ghost predicate AllTaught(ops: seq<IndexOp>, ix: Index) {
    forall i :: 0 <= i < |ix.entries| && ix.entries[i].job.jid !in ix.log ==>
      Plain(ix.entries[i].job) == Taught(ops, ix.entries[i].job.jid)
  }

  lemma TaughtMore(ops: seq<IndexOp>, op: IndexOp, jid: string)
    ensures Taught(ops + [op], jid)
              == if About(op, jid) then Updated(Taught(ops, jid), op.e, op.expected, op.trimmed) else Taught(ops, jid)
  {
    assert (ops + [op])[..|ops|] == ops;
  }

  lemma {:induction false} NothingTaught(ops: seq<IndexOp>, jid: string)
    requires forall k :: 0 <= k < |ops| ==> !About(ops[k], jid)
    ensures Taught(ops, jid) == EmptyJob(jid)
  {
    if ops != [] {
      NothingTaught(ops[..|ops| - 1], jid);
    }
  }

  /** What is recorded of one event, before eviction. */
  lemma RecordedIsTaught(lim: Limits, ops: seq<IndexOp>, op: IndexOp, jid: string)
    requires op.See? && Concerns(op.e) == Some(jid) && AllTaught(ops, Run(lim, ops))
    ensures AllTaught(ops + [op], Recorded(Run(lim, ops), jid, op.e, op.expected, op.trimmed))
  {
    var ix := Run(lim, ops);
    var r := Recorded(ix, jid, op.e, op.expected, op.trimmed);
    RecordedEntries(ix, jid, op.e, op.expected, op.trimmed);
    forall i | 0 <= i < |r.entries| && r.entries[i].job.jid !in r.log
      ensures Plain(r.entries[i].job) == Taught(ops + [op], r.entries[i].job.jid)
    {
      var name := r.entries[i].job.jid;
      TaughtMore(ops, op, name);
      assert About(op, name) <==> name == jid;
      if name == jid {
        if i < |ix.entries| {
          PlainUpdates(ix.entries[i].job, op.e, op.expected, op.trimmed);
        } else {
          PlainUpdates(EmptyJob(jid), op.e, op.expected, op.trimmed);
          forall k | 0 <= k < |ops|
            ensures !About(ops[k], jid)
          {
            if About(ops[k], jid) {
              EventsAreKept(lim, ops, jid, k);
            }
          }
          NothingTaught(ops, jid);
        }
      }
    }
  }

  lemma EvictKeepsTaught(lim: Limits, ops: seq<IndexOp>, ix: Index)
    requires Sound(ix) && AllTaught(ops, ix)
    ensures AllTaught(ops, Evict(lim, ix))
  {
    EvictKeepsEntries(lim, ix);
    var out := Evict(lim, ix);
    forall i | 0 <= i < |out.entries| && out.entries[i].job.jid !in out.log
      ensures Plain(out.entries[i].job) == Taught(ops, out.entries[i].job.jid)
    {
      assert out.entries[i] in ix.entries;
      var k :| 0 <= k < |ix.entries| && ix.entries[k] == out.entries[i];
      assert ix.entries[k].job.jid !in ix.log;
    }
  }

  /** Calls that are not about jobs' events leave what was taught. */
  lemma OtherKeepsTaught(lim: Limits, ops: seq<IndexOp>, op: IndexOp)
    requires AllTaught(ops, Run(lim, ops)) && (op.See? ==> Concerns(op.e) == None)
    ensures AllTaught(ops + [op], Act(lim, Run(lim, ops), op))
  {
    var ix := Run(lim, ops);
    var r := Act(lim, ix, op);
    forall i | 0 <= i < |r.entries| && r.entries[i].job.jid !in r.log
      ensures Plain(r.entries[i].job) == Taught(ops + [op], r.entries[i].job.jid)
    {
      TaughtMore(ops, op, r.entries[i].job.jid);
      assert Plain(r.entries[i].job) == Plain(ix.entries[i].job);
    }
  }

  /** Over any run, every tracked job that was never evicted holds what its own events taught, but for
      the names that only a description gives. */
  lemma {:induction false} RunTeaches(lim: Limits, ops: seq<IndexOp>)
    ensures AllTaught(ops, Run(lim, ops))
  {
    if ops != [] {
      var front, op := ops[..|ops| - 1], ops[|ops| - 1];
      assert ops == front + [op];
      RunTeaches(lim, front);
      RunMore(lim, front, op);
      if op.See? && Concerns(op.e).Some? {
        var jid := Concerns(op.e).value;
        RecordedIsTaught(lim, front, op, jid);
        RecordedEntries(Run(lim, front), jid, op.e, op.expected, op.trimmed);
        EvictKeepsTaught(lim, ops, Recorded(Run(lim, front), jid, op.e, op.expected, op.trimmed));
      } else {
        OtherKeepsTaught(lim, front, op);
      }
    }
  }

  // ---------------------------------------------------------------- in the events' own words

  /** The `k`th call is the last return of the minion. */
  predicate LastReturn(ops: seq<IndexOp>, jid: string, m: string, k: int) {
    0 <= k < |ops| && IsReturn(ops[k], jid, m) && forall j :: k < j < |ops| ==> !IsReturn(ops[j], jid, m)
  }

  /** The answers are the minions' returns, each the last one of its minion. */
  ghost predicate AnswersAre(ops: seq<IndexOp>, jid: string, answers: map<string, RetInfo>) {
    && (forall m :: m in answers <==> exists k :: 0 <= k < |ops| && IsReturn(ops[k], jid, m))
    && (forall m, k :: LastReturn(ops, jid, m, k) ==>
          m in answers && answers[m] == RetInfo(m, ops[k].e.at.retCode, ops[k].e.at.success, ops[k].e.at.arrival))
  }

  lemma {:induction false} TaughtAnswers(ops: seq<IndexOp>, jid: string)
    requires jid != ""
    ensures AnswersAre(ops, jid, Taught(ops, jid).answers)
  {
    if ops != [] {
      var front, op := ops[..|ops| - 1], ops[|ops| - 1];
      TaughtAnswers(front, jid);
      assert ops == front + [op];
      AnswersMore(front, op, jid);
    }
  }

  lemma AnsweredMore(ops: seq<IndexOp>, op: IndexOp, jid: string, m: string)
    requires jid != ""
    requires m in Taught(ops, jid).answers <==> exists k :: 0 <= k < |ops| && IsReturn(ops[k], jid, m)
    ensures m in Taught(ops + [op], jid).answers <==>
              exists k :: 0 <= k < |ops + [op]| && IsReturn((ops + [op])[k], jid, m)
  {
    TaughtMore(ops, op, jid);
    var all := ops + [op];
    if k :| 0 <= k < |ops| && IsReturn(ops[k], jid, m) {
      assert IsReturn(all[k], jid, m);
    }
    if IsReturn(op, jid, m) {
      assert IsReturn(all[|ops|], jid, m);
    }
    if k :| 0 <= k < |all| && IsReturn(all[k], jid, m) {
      assert k < |ops| ==> IsReturn(ops[k], jid, m);
    }
  }

  lemma LastMore(ops: seq<IndexOp>, op: IndexOp, jid: string, m: string, k: int)
    requires LastReturn(ops + [op], jid, m, k) && k < |ops|
    ensures LastReturn(ops, jid, m, k) && !IsReturn(op, jid, m)
  {
    var all := ops + [op];
    assert all[|ops|] == op;
    forall j | k < j < |ops|
      ensures !IsReturn(ops[j], jid, m)
    {
      assert !IsReturn(all[j], jid, m);
    }
  }

  lemma AnswersMore(ops: seq<IndexOp>, op: IndexOp, jid: string)
    requires jid != "" && AnswersAre(ops, jid, Taught(ops, jid).answers)
    ensures AnswersAre(ops + [op], jid, Taught(ops + [op], jid).answers)
  {
    var all, now := ops + [op], Taught(ops + [op], jid).answers;
    forall m
      ensures m in now <==> exists k :: 0 <= k < |all| && IsReturn(all[k], jid, m)
    {
      AnsweredMore(ops, op, jid, m);
    }
    forall m, k | LastReturn(all, jid, m, k)
      ensures m in now && now[m] == RetInfo(m, all[k].e.at.retCode, all[k].e.at.success, all[k].e.at.arrival)
    {
      LastAnswer(ops, op, jid, m, k);
    }
  }

  lemma LastAnswer(ops: seq<IndexOp>, op: IndexOp, jid: string, m: string, k: int)
    requires jid != "" && AnswersAre(ops, jid, Taught(ops, jid).answers) && LastReturn(ops + [op], jid, m, k)
    ensures var r, now := (ops + [op])[k], Taught(ops + [op], jid).answers;
            m in now && now[m] == RetInfo(m, r.e.at.retCode, r.e.at.success, r.e.at.arrival)
  {
    TaughtMore(ops, op, jid);
    if k < |ops| {
      LastMore(ops, op, jid, m, k);
      assert (ops + [op])[k] == ops[k];
    }
  }

  /** The targets are the names of all lists, and they are known exactly when there was a list; trimmed,
      when there was none but a publication said so. */
  ghost predicate TargetsAre(ops: seq<IndexOp>, jid: string, v: JobVal) {
    && (forall m :: m in v.expected <==> exists k :: 0 <= k < |ops| && Lists(ops[k], jid) && m in ops[k].expected.value)
    && (v.state == Known <==> exists k :: 0 <= k < |ops| && Lists(ops[k], jid))
    && (v.state == Trimmed <==>
          v.state != Known && exists k :: 0 <= k < |ops| && IsNew(ops[k], jid) && ops[k].trimmed)
  }

  lemma {:induction false} TaughtTargets(ops: seq<IndexOp>, jid: string)
    requires jid != "" && Honest(ops)
    ensures TargetsAre(ops, jid, Taught(ops, jid))
  {
    if ops != [] {
      var front, op := ops[..|ops| - 1], ops[|ops| - 1];
      assert ops == front + [op];
      assert Honest(front) by {
        assert forall i :: 0 <= i < |front| ==> ops[i] == front[i];
      }
      TaughtTargets(front, jid);
      TargetsMore(front, op, jid);
    }
  }

  lemma TargetsMore(ops: seq<IndexOp>, op: IndexOp, jid: string)
    requires jid != "" && TargetsAre(ops, jid, Taught(ops, jid)) && (op.See? && op.trimmed ==> op.expected == None)
    ensures TargetsAre(ops + [op], jid, Taught(ops + [op], jid))
  {
    TaughtMore(ops, op, jid);
    var all, was, now := ops + [op], Taught(ops, jid), Taught(ops + [op], jid);
    assert all[|ops|] == op && forall k :: 0 <= k < |ops| ==> all[k] == ops[k];
    forall m
      ensures m in now.expected <==> exists k :: 0 <= k < |all| && Lists(all[k], jid) && m in all[k].expected.value
    {
      if m in was.expected {
        var k :| 0 <= k < |ops| && Lists(ops[k], jid) && m in ops[k].expected.value;
        assert Lists(all[k], jid);
      }
      if Lists(op, jid) && m in op.expected.value {
        assert Lists(all[|ops|], jid);
      }
      if k :| 0 <= k < |all| && Lists(all[k], jid) && m in all[k].expected.value {
        assert k < |ops| ==> Lists(ops[k], jid);
      }
    }
    StateMore(ops, op, jid);
  }

  lemma StateMore(ops: seq<IndexOp>, op: IndexOp, jid: string)
    requires jid != "" && TargetsAre(ops, jid, Taught(ops, jid)) && (op.See? && op.trimmed ==> op.expected == None)
    ensures var all, now := ops + [op], Taught(ops + [op], jid);
            && (now.state == Known <==> exists k :: 0 <= k < |all| && Lists(all[k], jid))
            && (now.state == Trimmed <==>
                  now.state != Known && exists k :: 0 <= k < |all| && IsNew(all[k], jid) && all[k].trimmed)
  {
    TaughtMore(ops, op, jid);
    var all, was := ops + [op], Taught(ops, jid);
    assert all[|ops|] == op && forall k :: 0 <= k < |ops| ==> all[k] == ops[k];
    if k :| 0 <= k < |ops| && Lists(ops[k], jid) {
      assert Lists(all[k], jid);
    }
    if k :| 0 <= k < |ops| && IsNew(ops[k], jid) && ops[k].trimmed {
      assert IsNew(all[k], jid) && all[k].trimmed;
    }
    if k :| 0 <= k < |all| && Lists(all[k], jid) {
      assert k < |ops| ==> Lists(ops[k], jid);
    }
    if k :| 0 <= k < |all| && IsNew(all[k], jid) && all[k].trimmed {
      assert k < |ops| ==> IsNew(ops[k], jid) && ops[k].trimmed;
    }
  }

  /** The `k`th call is the first publication of the job. */
  predicate FirstNew(ops: seq<IndexOp>, jid: string, k: int) {
    0 <= k < |ops| && IsNew(ops[k], jid) && forall j :: 0 <= j < k ==> !IsNew(ops[j], jid)
  }

  /** The job started with its first publication. */
  ghost predicate StartIs(ops: seq<IndexOp>, jid: string, start: Option<nat>) {
    && (start.Some? ==> exists k :: 0 <= k < |ops| && IsNew(ops[k], jid))
    && (forall k :: FirstNew(ops, jid, k) ==> start == Some(ops[k].e.at.arrival))
  }

  lemma {:induction false} TaughtStart(ops: seq<IndexOp>, jid: string)
    requires jid != ""
    ensures StartIs(ops, jid, Taught(ops, jid).start)
  {
    if ops != [] {
      var front, op := ops[..|ops| - 1], ops[|ops| - 1];
      assert ops == front + [op];
      TaughtStart(front, jid);
      StartMore(front, op, jid);
    }
  }

  lemma FirstMore(ops: seq<IndexOp>, op: IndexOp, jid: string, k: int)
    requires FirstNew(ops + [op], jid, k)
    ensures if k < |ops| then FirstNew(ops, jid, k) else forall j :: 0 <= j < |ops| ==> !IsNew(ops[j], jid)
  {
    var all := ops + [op];
    forall j | 0 <= j < |ops| && j < k
      ensures !IsNew(ops[j], jid)
    {
      assert !IsNew(all[j], jid);
    }
  }

  lemma StartMore(ops: seq<IndexOp>, op: IndexOp, jid: string)
    requires jid != "" && StartIs(ops, jid, Taught(ops, jid).start)
    ensures StartIs(ops + [op], jid, Taught(ops + [op], jid).start)
  {
    TaughtMore(ops, op, jid);
    var all, now := ops + [op], Taught(ops + [op], jid).start;
    if now.Some? {
      if IsNew(op, jid) {
        assert IsNew(all[|ops|], jid);
      } else {
        var k :| 0 <= k < |ops| && IsNew(ops[k], jid);
        assert IsNew(all[k], jid);
      }
    }
    forall k | FirstNew(all, jid, k)
      ensures now == Some(all[k].e.at.arrival)
    {
      FirstMore(ops, op, jid, k);
      if k < |ops| {
        assert all[k] == ops[k];
        StartStays(ops, op, jid, k);
      }
    }
  }

  lemma StartStays(ops: seq<IndexOp>, op: IndexOp, jid: string, k: int)
    requires jid != "" && StartIs(ops, jid, Taught(ops, jid).start) && FirstNew(ops, jid, k)
    ensures Taught(ops + [op], jid).start == Some(ops[k].e.at.arrival)
  {
    TaughtMore(ops, op, jid);
  }

  /** The last return shown is the latest arrival of any. */
  ghost predicate LatestIs(ops: seq<IndexOp>, jid: string, latest: Option<nat>) {
    && (forall k :: 0 <= k < |ops| && ops[k].See? && IsReturn(ops[k], jid, ops[k].e.at.minion) ==>
          latest.Some? && ops[k].e.at.arrival <= latest.value)
    && (latest.Some? ==>
          exists k :: 0 <= k < |ops| && ops[k].See? && IsReturn(ops[k], jid, ops[k].e.at.minion)
                      && ops[k].e.at.arrival == latest.value)
  }

  lemma {:induction false} TaughtLatest(ops: seq<IndexOp>, jid: string)
    requires jid != ""
    ensures LatestIs(ops, jid, Taught(ops, jid).lastRet)
  {
    if ops != [] {
      var front, op := ops[..|ops| - 1], ops[|ops| - 1];
      assert ops == front + [op];
      TaughtLatest(front, jid);
      LatestMore(front, op, jid);
    }
  }

  lemma LatestMore(ops: seq<IndexOp>, op: IndexOp, jid: string)
    requires jid != "" && LatestIs(ops, jid, Taught(ops, jid).lastRet)
    ensures LatestIs(ops + [op], jid, Taught(ops + [op], jid).lastRet)
  {
    TaughtMore(ops, op, jid);
    var all, was := ops + [op], Taught(ops, jid).lastRet;
    assert all[|ops|] == op && forall k :: 0 <= k < |ops| ==> all[k] == ops[k];
    if was.Some? {
      var k :| 0 <= k < |ops| && ops[k].See? && IsReturn(ops[k], jid, ops[k].e.at.minion)
               && ops[k].e.at.arrival == was.value;
      assert all[k].See? && IsReturn(all[k], jid, all[k].e.at.minion);
    }
  }

  /** The function the last publication that names one names, or none. */
  function FunOfNew(ops: seq<IndexOp>, jid: string): string {
    if ops == [] then ""
    else
      var op := ops[|ops| - 1];
      if IsNew(op, jid) && op.e.at.fun != "" then op.e.at.fun else FunOfNew(ops[..|ops| - 1], jid)
  }

  /** The function the first return that names one names, or none. */
  function FunOfReturn(ops: seq<IndexOp>, jid: string): string {
    if ops == [] then ""
    else
      var op, before := ops[|ops| - 1], FunOfReturn(ops[..|ops| - 1], jid);
      if before == "" && op.See? && IsReturn(op, jid, op.e.at.minion) then op.e.at.fun else before
  }

  /** Publications decide the function, and only without one do returns. */
  lemma {:induction false} TaughtFun(ops: seq<IndexOp>, jid: string)
    requires jid != ""
    ensures Taught(ops, jid).labels.fun ==
              if FunOfNew(ops, jid) != "" then FunOfNew(ops, jid) else FunOfReturn(ops, jid)
  {
    if ops != [] {
      TaughtFun(ops[..|ops| - 1], jid);
    }
  }

  /** Over any run, a job that is tracked and was never evicted: has exactly the answers of its minions'
      last returns, exactly the targets its publications listed, its first publication's and latest
      return's times, and the function they named. */
  lemma JobIsItsEvents(lim: Limits, ops: seq<IndexOp>, i: nat)
    requires Honest(ops)
    requires var ix := Run(lim, ops);
             i < |ix.entries| && ix.entries[i].job.jid !in ix.log && ix.entries[i].job.jid != ""
    ensures var v := Run(lim, ops).entries[i].job;
            && AnswersAre(ops, v.jid, v.answers) && TargetsAre(ops, v.jid, v)
            && StartIs(ops, v.jid, v.start) && LatestIs(ops, v.jid, v.lastRet) 
            && v.labels.fun == if FunOfNew(ops, v.jid) != "" then FunOfNew(ops, v.jid) else FunOfReturn(ops, v.jid)
  {
    var v := Run(lim, ops).entries[i].job;
    RunTeaches(lim, ops);
    TaughtAnswers(ops, v.jid);
    TaughtTargets(ops, v.jid);
    TaughtStart(ops, v.jid);
    TaughtLatest(ops, v.jid);
    TaughtFun(ops, v.jid);
    SameTargets(ops, v.jid, Taught(ops, v.jid), v);
  }

  lemma SameTargets(ops: seq<IndexOp>, jid: string, v: JobVal, u: JobVal)
    requires TargetsAre(ops, jid, v) && v.expected == u.expected && v.state == u.state
    ensures TargetsAre(ops, jid, u)
  {}

  /** What it is charged: 64 bytes for each target, when they are known, and for each minion that answered. */
  lemma ChargeIsCounted(lim: Limits, ops: seq<IndexOp>, i: nat)
    requires i < |Run(lim, ops).entries|
    ensures var en := Run(lim, ops).entries[i];
            en.bytes == 64 * ((if en.job.state == Known then |en.job.expected| else 0) + |en.job.answers.Keys|)
  {
    ExactAt(Run(lim, ops).entries, i);
    assert |Run(lim, ops).entries[i].job.answers| == |Run(lim, ops).entries[i].job.answers.Keys|;
  }
}
