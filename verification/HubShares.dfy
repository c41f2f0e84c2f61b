/** What each part of the hub has after any calls, in terms of the calls themselves. */
module HubShares {
  import opened Basics
  import opened Events
  import opened Queries
  import opened HubLog
  import opened Counters
  import IndexSpec
  import IndexLaws
  import JobHistory
  import Jobs

  // ---------------------------------------------------------------- the plain fields

  ghost function Failures(log: seq<Call>): set<nat> {
    set i: nat | i < |log| && log[i].DecodeError?
  }

  /** The last time the reader said so, it held the socket. */
  ghost predicate LastSaidUp(log: seq<Call>) {
    exists i :: 0 <= i < |log| && log[i] == Attached(true) && forall j :: i < j < |log| ==> !log[j].Attached?
  }

  /** The `i`th call is the last that moved the pin. */
  predicate LastPin(log: seq<Call>, i: int) {
    0 <= i < |log| && log[i].PinJob? && forall j :: i < j < |log| ==> !log[j].PinJob?
  }

  lemma FailuresMore(log: seq<Call>, c: Call)
    ensures |Failures(log + [c])| == |Failures(log)| + if c.DecodeError? then 1 else 0
  {
    if c.DecodeError? {
      assert Failures(log + [c]) == Failures(log) + {|log|};
    } else {
      assert Failures(log + [c]) == Failures(log);
    }
  }

  lemma UpMore(log: seq<Call>, c: Call)
    ensures LastSaidUp(log + [c]) <==> if c.Attached? then c.up else LastSaidUp(log)
  {
    var all := log + [c];
    assert all[|log|] == c && forall j :: 0 <= j < |log| ==> all[j] == log[j];
    if !c.Attached? && LastSaidUp(log) {
      var i :| 0 <= i < |log| && log[i] == Attached(true) && forall j :: i < j < |log| ==> !log[j].Attached?;
      assert all[i] == Attached(true);
    }
    if c == Attached(true) {
      assert all[|log|] == Attached(true);
    }
    if LastSaidUp(all) {
      var i :| 0 <= i < |all| && all[i] == Attached(true) && forall j :: i < j < |all| ==> !all[j].Attached?;
      if i < |log| {
        assert !all[|log|].Attached?;
        assert log[i] == Attached(true);
        forall j | i < j < |log| ensures !log[j].Attached? {
          assert !all[j].Attached?;
        }
      }
    }
  }

  /** The errors are the failures counted, and connected is what the reader said last. */
  lemma {:induction false} PlainFields(lim: IndexSpec.Limits, decode: Option<Decoder>, log: seq<Call>)
    ensures var s := Fold(lim, decode, log); s.errors == |Failures(log)| && (s.up <==> LastSaidUp(log))
  {
    if log != [] {
      var front, c := log[..|log| - 1], log[|log| - 1];
      assert log == front + [c];
      PlainFields(lim, decode, front);
      FailuresMore(front, c);
      UpMore(front, c);
    }
  }

  /** An event leaves the pin alone. */
  lemma ObservedKeepsPin(lim: IndexSpec.Limits, ix: IndexSpec.Index, e: Event, f: Facts)
    requires IndexSpec.Sound(ix)
    ensures Observed(lim, ix, e, f).pinned == ix.pinned
  {
    if IndexSpec.Concerns(e).Some? {
      var jid := IndexSpec.Concerns(e).value;
      IndexLaws.RecordedIsSound(ix, jid, e, f.expected, f.trimmed);
      IndexLaws.EvictKeepsPin(lim, IndexSpec.Recorded(ix, jid, e, f.expected, f.trimmed));
      IndexSpec.TouchIsSound(ix, jid);
    }
  }

  /** The pin is where the last call that moved it put it, and nowhere before any did. */
  lemma {:induction false} PinIsWhereItWasPut(lim: IndexSpec.Limits, decode: Option<Decoder>, log: seq<Call>)
    ensures forall i :: LastPin(log, i) ==> Fold(lim, decode, log).index.pinned == log[i].jid
    ensures (forall i :: 0 <= i < |log| ==> !log[i].PinJob?) ==> Fold(lim, decode, log).index.pinned == ""
  {
    if log != [] {
      var front, c := log[..|log| - 1], log[|log| - 1];
      assert log == front + [c];
      PinIsWhereItWasPut(lim, decode, front);
      var s := Fold(lim, decode, front);
      if c.Event? {
        ObservedKeepsPin(lim, s.index, c.e, FactsOf(decode, c.e));
      }
      forall i | LastPin(log, i)
        ensures Fold(lim, decode, log).index.pinned == log[i].jid
      {
        if i < |front| {
          PinBefore(front, c, i);
        }
      }
    }
  }

  lemma PinBefore(front: seq<Call>, c: Call, i: int)
    requires LastPin(front + [c], i) && i < |front|
    ensures LastPin(front, i) && !c.PinJob?
  {
    var log := front + [c];
    assert !log[|front|].PinJob?;
    forall j | i < j < |front| ensures !front[j].PinJob? {
      assert !log[j].PinJob?;
    }
  }

  // ---------------------------------------------------------------- the events

  function Received(log: seq<Call>): seq<Event> {
    if log == [] then []
    else
      var c := log[|log| - 1];
      Received(log[..|log| - 1]) + if c.Event? then [c.e] else []
  }

  /** The texts that are not empty, in order. */
  function Named(texts: seq<string>): seq<string> {
    if texts == [] then []
    else Named(texts[..|texts| - 1]) + if texts[|texts| - 1] != "" then [texts[|texts| - 1]] else []
  }

  function Categories(es: seq<Event>): seq<string> {
    seq(|es|, i requires 0 <= i < |es| => es[i].at.category)
  }

  function MinionsOf(es: seq<Event>): seq<string> {
    seq(|es|, i requires 0 <= i < |es| => es[i].at.minion)
  }

  function FunsOf(es: seq<Event>): seq<string> {
    seq(|es|, i requires 0 <= i < |es| => es[i].at.fun)
  }

  lemma NamedMore(texts: seq<string>, t: string)
    ensures Named(texts + [t]) == Named(texts) + if t != "" then [t] else []
  {
    assert (texts + [t])[..|texts|] == texts;
  }

  /** Each field of the events, counted: the minions and functions where there is one. */
  function KeysOf(es: seq<Event>): Keys {
    Keys(TallyOf(256, Categories(es)), TallyOf(256, Named(MinionsOf(es))), TallyOf(256, Named(FunsOf(es))))
  }

  /** The cache was given every event, in order, and each counter counts its field of every event. */
  lemma {:induction false} EventsReachEveryPart(lim: IndexSpec.Limits, decode: Option<Decoder>, log: seq<Call>)
    ensures Fold(lim, decode, log).received == Received(log)
    ensures Fold(lim, decode, log).keys == KeysOf(Received(log))
  {
    if log != [] {
      var front, c := log[..|log| - 1], log[|log| - 1];
      EventsReachEveryPart(lim, decode, front);
      var es := Received(front);
      if c.Event? {
        KeysMore(es, c.e);
      } else {
        assert es + [] == es;
      }
    }
  }

  lemma KeysMore(es: seq<Event>, e: Event)
    ensures CountKeys(KeysOf(es), e) == KeysOf(es + [e])
  {
    assert Categories(es + [e]) == Categories(es) + [e.at.category];
    assert MinionsOf(es + [e]) == MinionsOf(es) + [e.at.minion];
    assert FunsOf(es + [e]) == FunsOf(es) + [e.at.fun];
    TallyMore(256, Categories(es), e.at.category);
    CountMore(MinionsOf(es), e.at.minion);
    CountMore(FunsOf(es), e.at.fun);
  }

  lemma CountMore(texts: seq<string>, t: string)
    ensures TallyOf(256, Named(texts + [t])) ==
              if t != "" then Tick(256, TallyOf(256, Named(texts)), t) else TallyOf(256, Named(texts))
  {
    NamedMore(texts, t);
    if t != "" {
      TallyMore(256, Named(texts), t);
    } else {
      assert Named(texts) + [] == Named(texts);
    }
  }

  // ---------------------------------------------------------------- the job index

  /** What a call has the index do: an event of a job is seen with what its payload says, and then the
      job is described if that says anything of it. */
  function JobShare(decode: Option<Decoder>, c: Call): seq<IndexLaws.IndexOp> {
    match c
    case Event(e) =>
      if e.at.kind != KindNew && e.at.kind != KindRet then []
      else
        var f := FactsOf(decode, e);
        [IndexLaws.See(e, f.expected, f.trimmed)]
        + if e.at.jid != "" && (f.tgt != "" || f.user != "" || f.tgtType != "")
          then [IndexLaws.Describe(e.at.jid, f.tgt, f.tgtType, f.user)] else []
    case PinJob(jid) => [IndexLaws.Pin(jid)]
    case _ => []
  }

  function JobOps(decode: Option<Decoder>, log: seq<Call>): seq<IndexLaws.IndexOp> {
    if log == [] then [] else JobOps(decode, log[..|log| - 1]) + JobShare(decode, log[|log| - 1])
  }

  lemma RunOneOrTwo(lim: IndexSpec.Limits, ops: seq<IndexLaws.IndexOp>, see: IndexLaws.IndexOp,
      more: seq<IndexLaws.IndexOp>)
    requires |more| <= 1
    ensures var seen := IndexLaws.Act(lim, IndexLaws.Run(lim, ops), see);
            IndexSpec.Sound(seen) &&
            IndexLaws.Run(lim, ops + ([see] + more)) == if more == [] then seen else IndexLaws.Act(lim, seen, more[0])
  {
    IndexLaws.RunMore(lim, ops, see);
    if more == [] {
      assert [see] + more == [see];
    } else {
      assert more == [more[0]];
      Associates(ops, [see], more);
      IndexLaws.RunMore(lim, ops + [see], more[0]);
    }
  }

  lemma RunEvent(lim: IndexSpec.Limits, decode: Option<Decoder>, ops: seq<IndexLaws.IndexOp>, e: Event)
    ensures Observed(lim, IndexLaws.Run(lim, ops), e, FactsOf(decode, e))
              == IndexLaws.Run(lim, ops + JobShare(decode, Call.Event(e)))
  {
    if e.at.kind != KindNew && e.at.kind != KindRet {
      assert ops + [] == ops;
    } else {
      var f := FactsOf(decode, e);
      var more := if e.at.jid != "" && (f.tgt != "" || f.user != "" || f.tgtType != "")
                  then [IndexLaws.Describe(e.at.jid, f.tgt, f.tgtType, f.user)] else [];
      RunOneOrTwo(lim, ops, IndexLaws.See(e, f.expected, f.trimmed), more);
    }
  }

  lemma RunShare(lim: IndexSpec.Limits, decode: Option<Decoder>, ops: seq<IndexLaws.IndexOp>, s: State, c: Call)
    requires s.index == IndexLaws.Run(lim, ops)
    ensures Feed(lim, decode, s, c).index == IndexLaws.Run(lim, ops + JobShare(decode, c))
  {
    match c
    case Event(e) => RunEvent(lim, decode, ops, e);
    case PinJob(jid) => IndexLaws.RunMore(lim, ops, IndexLaws.Pin(jid));
    case _ => assert ops + [] == ops;
  }

  /** The index is what a run of its own operations makes it, so whatever holds of every run holds of it. */
  lemma {:induction false} IndexIsARun(lim: IndexSpec.Limits, decode: Option<Decoder>, log: seq<Call>)
    ensures Fold(lim, decode, log).index == IndexLaws.Run(lim, JobOps(decode, log))
  {
    if log != [] {
      var front, c := log[..|log| - 1], log[|log| - 1];
      IndexIsARun(lim, decode, front);
      RunShare(lim, decode, JobOps(decode, front), Fold(lim, decode, front), c);
    }
  }

  lemma {:induction false} OpsAreHonest(decode: Option<Decoder>, log: seq<Call>)
    ensures JobHistory.Honest(JobOps(decode, log))
  {
    if log != [] {
      var front, c := log[..|log| - 1], log[|log| - 1];
      OpsAreHonest(decode, front);
      if c.Event? {
        TargetsAreWhole(decode, c.e);
      }
      var before, share := JobOps(decode, front), JobShare(decode, c);
      var all: seq<IndexLaws.IndexOp> := before + share;
      forall i | 0 <= i < |all| && all[i].See? && all[i].trimmed
        ensures all[i].expected == None
      {
        if i < |before| {
          assert all[i] == before[i];
        } else {
          assert all[i] == share[i - |before|];
        }
      }
    }
  }

  /** On the hub too: a job that is tracked and was never evicted is exactly what its events said. */
  lemma HubJobIsItsEvents(lim: IndexSpec.Limits, decode: Option<Decoder>, log: seq<Call>, i: nat)
    requires var ix := Fold(lim, decode, log).index;
             i < |ix.entries| && ix.entries[i].job.jid !in ix.log && ix.entries[i].job.jid != ""
    ensures var v, ops := Fold(lim, decode, log).index.entries[i].job, JobOps(decode, log);
            JobHistory.AnswersAre(ops, v.jid, v.answers) && JobHistory.TargetsAre(ops, v.jid, v)
  {
    IndexIsARun(lim, decode, log);
    OpsAreHonest(decode, log);
    JobHistory.JobIsItsEvents(lim, JobOps(decode, log), i);
  }

  // ---------------------------------------------------------------- one idea of failure

  /** The filter and the job counters mean the same by a failed return. */
  lemma FailureMeansTheSame(e: Event)
    requires e.at.hasRet
    ensures Fits(Outcome, "false", e) <==>
              Jobs.IsFailure(Jobs.RetInfo(e.at.minion, e.at.retCode, e.at.success, e.at.arrival))
    ensures Fits(Outcome, "true", e) <==> e.at.retCode == 0 && e.at.success
  {}
}
