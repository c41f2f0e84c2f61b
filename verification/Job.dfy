/** A job of `internal/model/job.go`: the minions a publication targeted and the ones that have
    returned, with counters kept incrementally. */
module Jobs {
  import opened Basics

  /** Why a job's expected set is or is not known. */
  datatype ExpectedState = Unseen | Known | Trimmed

  datatype RetInfo = RetInfo(minion: string, retCode: int, success: bool, arrival: nat)

  /** Salt reports failure two ways and either one counts. */
  predicate IsFailure(r: RetInfo) {
    r.retCode != 0 || !r.success
  }

  /** The descriptive fields of a job: nothing counts them and nothing branches on them. */
  datatype Labels = Labels(fun: string, tgt: string, tgtType: string, user: string)

  const BLANK := Labels("", "", "", "")

  /** A job as a value. A time that was never set is None. */
  datatype JobVal = JobVal(
    jid: string, labels: Labels, start: Option<nat>, lastRet: Option<nat>,
    state: ExpectedState, expected: set<string>, answers: map<string, RetInfo>)

  function EmptyJob(jid: string): JobVal {
    JobVal(jid, BLANK, None, None, Unseen, {}, map[])
  }

  /** The minions targeted that have not returned, and the ones whose last return failed. */
  function MissingSet(v: JobVal): set<string> {
    v.expected - v.answers.Keys
  }

  function FailedSet(v: JobVal): set<string> {
    set m | m in v.answers && IsFailure(v.answers[m])
  }

  function WithTarget(v: JobVal, minion: string): JobVal {
    v.(expected := v.expected + {minion})
  }

  function WithReturn(v: JobVal, r: RetInfo): JobVal {
    v.(answers := v.answers[r.minion := r],
       lastRet := if v.lastRet.None? || r.arrival > v.lastRet.value then Some(r.arrival) else v.lastRet)
  }

  /** Every expected minion has returned; never true of an unknown set. */
  predicate IsComplete(v: JobVal) {
    v.state == Known && v.expected <= v.answers.Keys
  }

  /** How many minions were targeted, when that is known. */
  function KnownCount(v: JobVal): (nat, ExpectedState) {
    if v.state == Known then (|v.expected|, Known) else (0, v.state)
  }

  lemma Card(s: set<string>, x: string)
    ensures |s + {x}| == |s| + if x in s then 0 else 1
    ensures |s - {x}| == |s| - if x in s then 1 else 0
  {
    if x in s {
      assert s + {x} == s;
      assert s == (s - {x}) + {x};
    } else {
      assert s - {x} == s;
    }
  }

  /** What one more target does to the number missing. */
  lemma TargetCounts(v: JobVal, m: string)
    ensures |MissingSet(WithTarget(v, m))| == |MissingSet(v)| + if m in v.expected || m in v.answers then 0 else 1
  {
    var missing := MissingSet(v);
    Card(missing, m);
    if m in v.expected || m in v.answers {
      assert MissingSet(WithTarget(v, m)) == missing;
    } else {
      assert MissingSet(WithTarget(v, m)) == missing + {m};
    }
  }

  lemma TargetAgain(v: JobVal, m: string)
    requires m in v.expected
    ensures WithTarget(v, m) == v
  {
    assert v.expected + {m} == v.expected;
  }

  /** What a return does to the number failed: the earlier one no longer counts. */
  lemma ReturnCountsFailed(v: JobVal, r: RetInfo)
    ensures |FailedSet(WithReturn(v, r))| == |FailedSet(v)|
              - (if r.minion in v.answers && IsFailure(v.answers[r.minion]) then 1 else 0)
              + (if IsFailure(r) then 1 else 0)
  {
    var others := FailedSet(v) - {r.minion};
    Card(FailedSet(v), r.minion);
    Card(others, r.minion);
    assert FailedSet(WithReturn(v, r)) == if IsFailure(r) then others + {r.minion} else others;
  }

  /** What a return does to the number missing: only a minion's first one counts. */
  lemma ReturnCountsMissing(v: JobVal, r: RetInfo)
    ensures |MissingSet(WithReturn(v, r))| == |MissingSet(v)|
              - if r.minion !in v.answers && r.minion in v.expected then 1 else 0
  {
    Card(MissingSet(v), r.minion);
    assert MissingSet(WithReturn(v, r)) == MissingSet(v) - {r.minion};
  }

  lemma NoneMissing(v: JobVal)
    ensures |MissingSet(v)| == 0 <==> v.expected <= v.answers.Keys
  {
    if v.expected <= v.answers.Keys {
      assert MissingSet(v) == {};
    } else {
      var m :| m in v.expected && m !in v.answers.Keys;
      assert m in MissingSet(v);
    }
  }

  // ---------------------------------------------------------------- the counters

  /** A job with the two counts that are kept as it changes instead of being counted again. */
  datatype Counted = Counted(val: JobVal, failed: int, missing: int)

  /** The counters are what recounting the two sets would give. */
  ghost predicate CountsRight(c: Counted) {
    c.failed == |FailedSet(c.val)| && c.missing == |MissingSet(c.val)|
  }

  function NewCounted(jid: string): Counted {
    Counted(EmptyJob(jid), 0, 0)
  }

  /** One more target; only a new one that has not answered is missing. */
  function CountTarget(c: Counted, m: string): Counted {
    if m in c.val.expected then c
    else Counted(WithTarget(c.val, m), c.failed, c.missing + if m in c.val.answers then 0 else 1)
  }

  /** One more return; an earlier failure is taken back, and only a first return closes its minion out. */
  function CountReturn(c: Counted, r: RetInfo): Counted {
    var repeated := r.minion in c.val.answers;
    var taken := c.failed - if repeated && IsFailure(c.val.answers[r.minion]) then 1 else 0;
    Counted(WithReturn(c.val, r), taken + if IsFailure(r) then 1 else 0,
            c.missing - if !repeated && r.minion in c.val.expected then 1 else 0)
  }

  /** Complete by the counter alone. */
  predicate CountsComplete(c: Counted) {
    c.val.state == Known && c.missing == 0
  }

  lemma CountTargetIsRight(c: Counted, m: string)
    requires CountsRight(c)
    ensures CountsRight(CountTarget(c, m)) && CountTarget(c, m).val == WithTarget(c.val, m)
  {
    TargetCounts(c.val, m);
    if m in c.val.expected {
      TargetAgain(c.val, m);
    }
  }

  lemma CountReturnIsRight(c: Counted, r: RetInfo)
    requires CountsRight(c)
    ensures CountsRight(CountReturn(c, r)) && CountReturn(c, r).val == WithReturn(c.val, r)
  {
    ReturnCountsFailed(c.val, r);
    ReturnCountsMissing(c.val, r);
  }

  /** The counter decides what the sets would. */
  lemma CounterDecides(c: Counted)
    requires CountsRight(c)
    ensures CountsComplete(c) <==> IsComplete(c.val)
  {
    NoneMissing(c.val);
  }

  /** The targets are those that are missing and those that have answered. */
  lemma TargetsAddUp(v: JobVal)
    ensures |v.expected| == |MissingSet(v)| + |v.expected * v.answers.Keys|
  {
    assert v.expected == MissingSet(v) + (v.expected * v.answers.Keys);
    assert MissingSet(v) !! (v.expected * v.answers.Keys);
  }

  // ---------------------------------------------------------------- names in order

  /** Lexicographic order. */
  predicate NoLater(s: string, t: string) {
    s == "" || (t != "" && (s[0] < t[0] || (s[0] == t[0] && NoLater(s[1..], t[1..]))))
  }

  lemma {:induction false} OrderIsTotal(s: string, t: string)
    ensures NoLater(s, t) || NoLater(t, s)
  {
    if s != "" && t != "" {
      OrderIsTotal(s[1..], t[1..]);
    }
  }

  lemma {:induction false} OrderIsTransitive(s: string, t: string, u: string)
    requires NoLater(s, t) && NoLater(t, u)
    ensures NoLater(s, u)
  {
    if s != "" && s[0] == t[0] && t[0] == u[0] {
      OrderIsTransitive(s[1..], t[1..], u[1..]);
    }
  }

  /** One text is no later than another when it begins it, or where they first differ has the lesser rune. */
  lemma {:induction false} OrderIs(s: string, t: string)
    ensures NoLater(s, t) <==> s <= t || exists k: nat :: Differ(s, t, k) && s[k] < t[k]
  {
    if s != "" && t != "" {
      var s', t' := s[1..], t[1..];
      OrderIs(s', t');
      assert s == [s[0]] + s' && t == [t[0]] + t';
      if s[0] < t[0] {
        assert Differ(s, t, 0);
      } else if s[0] == t[0] {
        if k: nat :| Differ(s', t', k) && s'[k] < t'[k] {
          assert s[..k + 1] == [s[0]] + s'[..k] && t[..k + 1] == [t[0]] + t'[..k];
          assert Differ(s, t, k + 1) && s[k + 1] < t[k + 1];
        }
        if k: nat :| Differ(s, t, k) && s[k] < t[k] {
          assert k > 0;
          assert s[..k] == [s[0]] + s'[..k - 1] && t[..k] == [t[0]] + t'[..k - 1];
          assert s'[..k - 1] == s[..k][1..] && t'[..k - 1] == t[..k][1..];
          assert Differ(s', t', k - 1) && s'[k - 1] < t'[k - 1];
        }
      } else {
        forall k: nat | Differ(s, t, k)
          ensures k == 0
        {
          if k > 0 {
            FirstIsSame(s, t, k);
          }
        }
      }
    }
  }

  lemma FirstIsSame(s: string, t: string, k: nat)
    requires Differ(s, t, k) && k > 0
    ensures s[0] == t[0]
  {
    assert s[..k][0] == s[0] && t[..k][0] == t[0];
  }

  /** The texts first differ at `k`. */
  predicate Differ(s: string, t: string, k: nat) {
    k < |s| && k < |t| && s[..k] == t[..k] && s[k] != t[k]
  }

  predicate InOrder(names: seq<string>) {
    forall i :: 0 <= i < |names| - 1 ==> NoLater(names[i], names[i + 1])
  }

  /** Names in order are in order throughout. */
  lemma {:induction false} InOrderThroughout(names: seq<string>, i: nat, j: nat)
    requires InOrder(names) && i < j < |names|
    ensures NoLater(names[i], names[j])
  {
    if i + 1 < j {
      InOrderThroughout(names, i, j - 1);
      OrderIsTransitive(names[i], names[j - 1], names[j]);
    }
  }

  function Insert(names: seq<string>, m: string): seq<string> {
    if names == [] || NoLater(m, names[0]) then [m] + names else [names[0]] + Insert(names[1..], m)
  }

  lemma {:induction false} InsertKeepsOrder(names: seq<string>, m: string)
    requires InOrder(names)
    ensures InOrder(Insert(names, m))
    ensures Insert(names, m)[0] == m || (names != [] && Insert(names, m)[0] == names[0])
  {
    if names != [] && !NoLater(m, names[0]) {
      var rest := names[1..];
      assert InOrder(rest) by {
        forall i | 0 <= i < |rest| - 1 ensures NoLater(rest[i], rest[i + 1]) {
          assert NoLater(names[i + 1], names[i + 2]);
        }
      }
      InsertKeepsOrder(rest, m);
      OrderIsTotal(m, names[0]);
      assert rest != [] ==> NoLater(names[0], names[1]);
    }
  }

  lemma {:induction false} InsertAdds(names: seq<string>, m: string)
    ensures multiset(Insert(names, m)) == multiset(names) + multiset{m}
  {
    if names != [] && !NoLater(m, names[0]) {
      InsertAdds(names[1..], m);
      assert names == [names[0]] + names[1..];
    }
  }

  function Ordered(names: seq<string>): seq<string> {
    if names == [] then [] else Insert(Ordered(names[1..]), names[0])
  }

  /** Sorting puts the same names in order. */
  lemma {:induction false} OrderedIsSorted(names: seq<string>)
    ensures InOrder(Ordered(names)) && multiset(Ordered(names)) == multiset(names)
  {
    if names != [] {
      OrderedIsSorted(names[1..]);
      InsertKeepsOrder(Ordered(names[1..]), names[0]);
      InsertAdds(Ordered(names[1..]), names[0]);
      assert names == [names[0]] + names[1..];
    }
  }

  /** A job reduced to what the list renders. */
  datatype JobRow = JobRow(
    jid: string, labels: Labels, start: Option<nat>, lastRet: Option<nat>,
    returned: int, failed: int, complete: bool, expected: int, state: ExpectedState)

  /** The row of a job, from map lengths and counters only. */
  function RowOf(c: Counted): JobRow {
    JobRow(c.val.jid, c.val.labels, c.val.start, c.val.lastRet, |c.val.answers|, c.failed, CountsComplete(c),
           |c.val.expected|, c.val.state)
  }

  /** A row says of the job what its sets say. */
  ghost predicate RowTells(row: JobRow, v: JobVal) {
    && row.jid == v.jid && row.labels == v.labels && row.start == v.start && row.lastRet == v.lastRet
    && row.returned == |v.answers.Keys| && row.failed == |FailedSet(v)|
    && (row.complete <==> IsComplete(v))
    && row.state == v.state && row.expected == |v.expected|
  }

  lemma RowIsTrue(c: Counted)
    requires CountsRight(c)
    ensures RowTells(RowOf(c), c.val)
  {
    CounterDecides(c);
    assert |c.val.answers| == |c.val.answers.Keys|;
  }

  class Job {
    var jid: string
    var labels: Labels
    var start: Option<nat>
    var lastRet: Option<nat>
    var expectedState: ExpectedState
    var expected: set<string>
    var answers: map<string, RetInfo>
    var failed: int
    var missing: int

    function Val(): JobVal
      reads this
    {
      JobVal(jid, labels, start, lastRet, expectedState, expected, answers)
    }

    function Now(): Counted
      reads this
    {
      Counted(Val(), failed, missing)
    }

    ghost predicate Valid()
      reads this
    {
      CountsRight(Now())
    }

    constructor (jid: string)
      ensures Valid() && Now() == NewCounted(jid)
    {
      this.jid, labels, start, lastRet := jid, BLANK, None, None;
      expectedState, expected, answers, failed, missing := Unseen, {}, map[], 0, 0;
    }

    /** Records a minion the job targeted. */
    method AddExpected(minion: string)
      requires Valid()
      modifies this
      ensures Valid() && Val() == WithTarget(old(Val()), minion) && Now() == CountTarget(old(Now()), minion)
    {
      CountTargetIsRight(Now(), minion);
      if minion in expected {
        return;
      }
      expected := expected + {minion};
      if minion !in answers {
        missing := missing + 1;
      }
    }

    /** Records a minion's return, replacing any earlier one. */
    method AddReturn(r: RetInfo)
      requires Valid()
      modifies this
      ensures Valid() && Val() == WithReturn(old(Val()), r) && Now() == CountReturn(old(Now()), r)
    {
      ghost var was := Now();
      CountReturnIsRight(was, r);
      var repeated := r.minion in answers;
      if repeated && IsFailure(answers[r.minion]) {
        failed := failed - 1;
      }
      if IsFailure(r) {
        failed := failed + 1;
      }
      if !repeated {
        if r.minion in expected {
          missing := missing - 1;
        }
      }
      answers := answers[r.minion := r];
      if lastRet.None? || r.arrival > lastRet.value {
        lastRet := Some(r.arrival);
      }
      assert Now() == CountReturn(was, r);
    }

    method Returned() returns (n: nat)
      ensures n == |answers.Keys|
    {
      n := |answers|;
    }

    /** The denominator: no number unless the targets are known, and then those missing and those
        that have answered add up to it. */
    method ExpectedCount() returns (n: nat, state: ExpectedState)
      requires Valid()
      ensures state == expectedState && (state != Known ==> n == 0)
      ensures state == Known ==> n == missing + |expected * answers.Keys|
    {
      TargetsAddUp(Val());
      if expectedState != Known {
        return 0, expectedState;
      }
      return |expected|, Known;
    }

    /** The minions expected but not returned, in order; no answer when the expected set is not
        known. The names come as many as the incremental counter says. */
    method Missing() returns (names: seq<string>, ok: bool)
      requires Valid()
      ensures ok <==> expectedState == Known
      ensures ok ==> multiset(names) == multiset(MissingSet(Val())) && |names| == missing
      ensures ok ==> forall i, j :: 0 <= i < j < |names| ==> NoLater(names[i], names[j])
    {
      if expectedState != Known {
        return [], false;
      }
      names, ok := [], true;
      var rest := expected;
      ghost var out := {};
      while rest != {}
        invariant rest <= expected
        invariant forall m :: m in out <==> m in expected && m !in rest && m !in answers
        invariant multiset(names) == multiset(out)
        decreases |rest|
      {
        var m :| m in rest;
        rest := rest - {m};
        if m !in answers {
          names := names + [m];
          out := out + {m};
        }
      }
      assert out == MissingSet(Val());
      OrderedIsSorted(names);
      names := Ordered(names);
      forall i, j | 0 <= i < j < |names|
        ensures NoLater(names[i], names[j])
      {
        InOrderThroughout(names, i, j);
      }
      assert |names| == |multiset(names)|;
    }

    /** Whether every expected minion has returned, answered from the counter alone. */
    method Complete() returns (r: bool)
      requires Valid()
      ensures r <==> IsComplete(Val())
    {
      CounterDecides(Now());
      r := expectedState == Known && missing == 0;
    }

    /** A copy sharing no state with this job. */
    method Clone() returns (copy: Job)
      requires Valid()
      ensures fresh(copy) && copy.Valid() && copy.Now() == Now()
    {
      copy := new Job(jid);
      copy.labels, copy.start, copy.lastRet, copy.expectedState := labels, start, lastRet, expectedState;
      copy.failed, copy.missing, copy.expected, copy.answers := failed, missing, expected, answers;
      assert copy.Now() == Now();
    }

    /** The list row, from map lengths and counters only. */
    method Row() returns (row: JobRow)
      requires Valid()
      ensures row == RowOf(Now()) && RowTells(row, Val())
    {
      RowIsTrue(Now());
      var complete := Complete();
      row := JobRow(jid, labels, start, lastRet, |answers|, failed, complete, |expected|, expectedState);
    }
  }

  // ---------------------------------------------------------------- any order of targets and returns

  datatype JobOp = Target(minion: string) | Return(r: RetInfo)

  function Apply(v: JobVal, op: JobOp): JobVal {
    match op
    case Target(m) => WithTarget(v, m)
    case Return(r) => WithReturn(v, r)
  }

  function ApplyAll(v: JobVal, ops: seq<JobOp>): JobVal {
    if ops == [] then v else Apply(ApplyAll(v, ops[..|ops| - 1]), ops[|ops| - 1])
  }

  function Targets(ops: seq<JobOp>): set<string> {
    set i | 0 <= i < |ops| && ops[i].Target? :: ops[i].minion
  }

  /** The returns among the operations, in order. */
  function Returns(ops: seq<JobOp>): seq<RetInfo> {
    if ops == [] then []
    else
      var rest := Returns(ops[..|ops| - 1]);
      if ops[|ops| - 1].Return? then rest + [ops[|ops| - 1].r] else rest
  }

  function ReturnAll(v: JobVal, rs: seq<RetInfo>): JobVal {
    if rs == [] then v else WithReturn(ReturnAll(v, rs[..|rs| - 1]), rs[|rs| - 1])
  }

  /** The targets and the returns act independently of each other. */
  lemma {:induction false} TargetsApart(v: JobVal, ops: seq<JobOp>)
    ensures ApplyAll(v, ops) == ReturnAll(v, Returns(ops)).(expected := v.expected + Targets(ops))
  {
    if ops == [] {
      assert v.expected + Targets(ops) == v.expected;
    } else {
      var front, last := ops[..|ops| - 1], ops[|ops| - 1];
      TargetsApart(v, front);
      match last
      case Target(m) =>
        TargetsOf(ops);
        assert v.expected + Targets(ops) == (v.expected + Targets(front)) + {m};
      case Return(r) =>
        TargetsOf(ops);
        assert (Returns(front) + [r])[..|Returns(front)|] == Returns(front);
    }
  }

  lemma TargetsOf(ops: seq<JobOp>)
    requires ops != []
    ensures var front, last := ops[..|ops| - 1], ops[|ops| - 1];
            Targets(ops) == if last.Target? then Targets(front) + {last.minion} else Targets(front)
  {
    var front, last := ops[..|ops| - 1], ops[|ops| - 1];
    forall m | m in Targets(ops)
      ensures m in if last.Target? then Targets(front) + {last.minion} else Targets(front)
    {
      var i :| 0 <= i < |ops| && ops[i].Target? && ops[i].minion == m;
      if i < |front| {
        assert front[i] == ops[i];
      }
    }
    forall m | m in Targets(front)
      ensures m in Targets(ops)
    {
      var i :| 0 <= i < |front| && front[i].Target? && front[i].minion == m;
      assert ops[i] == front[i];
    }
    if last.Target? {
      assert ops[|ops| - 1].minion in Targets(ops);
    }
  }

  /** The job does not depend on how its targets interleave with its returns, nor on how often or
      in what order the targets are named. */
  lemma InterleavingDoesNotMatter(v: JobVal, ops: seq<JobOp>, others: seq<JobOp>)
    requires Targets(ops) == Targets(others) && Returns(ops) == Returns(others)
    ensures ApplyAll(v, ops) == ApplyAll(v, others)
  {
    TargetsApart(v, ops);
    TargetsApart(v, others);
  }
}
