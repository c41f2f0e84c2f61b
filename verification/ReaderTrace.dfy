/** What holds of every trace of the reader, whatever the outside world answers. */
module ReaderTrace {
  import opened Basics
  import opened Reader

  /** A summary of the calls made so far. `outage` is the start of the outage last reported, if the
      current one was; `failures` counts the dials that failed since the last connection was lost, and
      `slept` adds up the sleeps since the last dial. */
  datatype Past = Past(
    level: Option<bool>, connections: nat, outage: Option<nat>, failures: nat, slept: nat, last: Option<Call>)

  const NOTHING := Past(None, 0, None, 0, 0, None)

  function Note(p: Past, c: Call): Past {
    match c
    case Attached(up) =>
      if up then Past(Some(true), p.connections + 1, p.outage, 0, 0, Some(c))
      else if p.level == Some(true) then Past(Some(false), p.connections, None, 0, 0, Some(c))
      else p.(level := Some(false), failures := p.failures + 1, slept := 0, last := Some(c))
    case Gap(from, _) => p.(outage := Some(from), last := Some(c))
    case Sleep(d) => p.(slept := p.slept + d, last := Some(c))
    case _ => p.(last := Some(c))
  }

  function PastOf(calls: seq<Call>): Past {
    if calls == [] then NOTHING else Note(PastOf(calls[..|calls| - 1]), calls[|calls| - 1])
  }

  function Pow2(k: nat): nat {
    if k == 0 then 1 else 2 * Pow2(k - 1)
  }

  /** How long the k-th consecutive retry waits. */
  function Backoff(k: nat): nat
    requires k > 0
  {
    Min(MIN_BACKOFF * Pow2(k - 1), MAX_BACKOFF)
  }

  // ---------------------------------------------------------------- what each call promises about the past

  /** Frames are delivered only while attached. */
  predicate DeliveredWhileAttached(p: Past, c: Call) {
    c.Event? || c.DecodeError? ==> p.level == Some(true)
  }

  /** No outage is reported before the first connection, all reports of one outage begin alike, and
      while attached the only report is the one that closes the window. */
  predicate OneWindowPerOutage(p: Past, c: Call) {
    c.Gap? ==>
      && p.connections > 0
      && (p.outage.Some? ==> c.from == p.outage.value)
      && (p.level == Some(true) ==> p.connections > 1 && p.last == Some(Attached(true)))
  }

  /** A reconnection closes the window before anything else happens. */
  predicate ReconnectCloses(p: Past, c: Call) {
    p.last == Some(Attached(true)) && p.connections > 1 ==> c.Gap?
  }

  /** A sleep follows a report, is at most one refresh interval long, and keeps within the backoff. */
  predicate SleepsInSlices(p: Past, c: Call) {
    c.Sleep? ==>
      && p.last.Some? && p.last.value.Gap? && p.level == Some(false) && p.failures > 0
      && 0 < c.d <= GAP_REFRESH
      && p.slept + c.d <= Backoff(p.failures)
  }

  /** The dial after k consecutive failures comes after exactly the k-th backoff. */
  predicate DialsAfterBackoff(p: Past, c: Call) {
    c.Attached? && p.level == Some(false) && p.failures > 0 ==> p.slept == Backoff(p.failures)
  }

  /** A dial after a wait is made upon a report. */
  predicate ReportsBeforeDialing(p: Past, c: Call) {
    c.Attached? && p.level == Some(false) && p.failures > 0 ==> p.last.Some? && p.last.value.Gap?
  }

  predicate Legal(p: Past, c: Call) {
    && DeliveredWhileAttached(p, c) && OneWindowPerOutage(p, c) && ReconnectCloses(p, c)
    && SleepsInSlices(p, c) && DialsAfterBackoff(p, c) && ReportsBeforeDialing(p, c)
  }

  /** Every call is legal after the calls before it; LegalAt reads this at one index. */
  predicate LegalTrace(calls: seq<Call>) {
    calls == [] ||
    (LegalTrace(calls[..|calls| - 1]) && Legal(PastOf(calls[..|calls| - 1]), calls[|calls| - 1]))
  }

  lemma {:induction false} LegalAt(calls: seq<Call>, i: nat)
    requires LegalTrace(calls) && i < |calls|
    ensures Legal(PastOf(calls[..i]), calls[i])
  {
    if i < |calls| - 1 {
      LegalAt(calls[..|calls| - 1], i);
      assert calls[..|calls| - 1][..i] == calls[..i];
    }
  }

  /** The state of the machine that goes with a past. */
  ghost predicate Link(s: State, p: Past) {
    && (s.connected <==> p.connections > 0)
    && match s.phase
       case Reading =>
         && p.level == Some(true) && s.connected && s.backoff == MIN_BACKOFF
         && !(p.last == Some(Attached(true)) && p.connections > 1)
       case Dialing =>
         && p.level != Some(true) && (!s.connected ==> p == NOTHING)
         && (s.connected ==> p.level == Some(false) && s.backoff == Backoff(p.failures + 1))
         && (p.outage.Some? ==> p.outage.value == s.lostAt)
         && (p.failures > 0 ==> p.slept == Backoff(p.failures) && p.last.Some? && p.last.value.Gap?)
       case Waiting(remaining) =>
         && p.level == Some(false) && s.connected && p.failures > 0 && p.outage == Some(s.lostAt)
         && 0 < remaining <= s.backoff == Backoff(p.failures)
         && p.slept == s.backoff - remaining + Min(remaining, GAP_REFRESH)
       case Stopped(_) => true
  }

  lemma Append(calls: seq<Call>, c: Call)
    requires LegalTrace(calls) && Legal(PastOf(calls), c)
    ensures LegalTrace(calls + [c]) && PastOf(calls + [c]) == Note(PastOf(calls), c)
  {
    assert (calls + [c])[..|calls|] == calls;
  }

  lemma AppendTwo(calls: seq<Call>, c: Call, d: Call)
    requires LegalTrace(calls) && Legal(PastOf(calls), c) && Legal(Note(PastOf(calls), c), d)
    ensures LegalTrace(calls + [c, d]) && PastOf(calls + [c, d]) == Note(Note(PastOf(calls), c), d)
  {
    Append(calls, c);
    Append(calls + [c], d);
    assert calls + [c, d] == calls + [c] + [d];
  }

  lemma NextBackoff(k: nat)
    requires k > 0
    ensures Backoff(k + 1) == Min(Backoff(k) * 2, MAX_BACKOFF) && Backoff(k) >= MIN_BACKOFF && Backoff(1) == MIN_BACKOFF
  {
    PowPositive(k - 1);
  }

  lemma {:induction false} PowPositive(k: nat)
    ensures Pow2(k) >= 1
  {
    if k > 0 { PowPositive(k - 1); }
  }

  /** A turn of the wait loop, made while disconnected with `remaining` of the backoff left. */
  lemma ReportIsLegal(s: State, remaining: int, now: nat, calls: seq<Call>)
    requires LegalTrace(calls) && s.connected && remaining <= s.backoff
    requires var p := PastOf(calls);
             && p.level == Some(false) && p.connections > 0 && p.failures > 0 && s.backoff == Backoff(p.failures)
             && (p.outage.Some? ==> p.outage.value == s.lostAt)
             && p.slept == s.backoff - if remaining <= 0 then 0 else remaining
    ensures var (s', more) := Report(s, remaining, now);
            LegalTrace(calls + more) && Link(s', PastOf(calls + more))
  {
    var p := PastOf(calls);
    NextBackoff(p.failures);
    var gap := Gap(s.lostAt, now);
    if remaining > 0 {
      AppendTwo(calls, gap, Sleep(Min(remaining, GAP_REFRESH)));
    } else {
      Append(calls, gap);
    }
  }

  lemma Reassociate(calls: seq<Call>, c: Call, more: seq<Call>)
    ensures calls + ([c] + more) == (calls + [c]) + more
  {}

  /** The step keeps the trace legal, and the state in step with it. */
  ghost predicate StepsLegally(s: State, calls: seq<Call>, input: Input) {
    var (s', more) := Step(s, input);
    LegalTrace(calls + more) && Link(s', PastOf(calls + more))
  }

  lemma ReadingIsLegal(s: State, calls: seq<Call>, input: Input)
    requires s.phase.Reading? && LegalTrace(calls) && Link(s, PastOf(calls))
    ensures StepsLegally(s, calls, input)
  {
    NextBackoff(1);
    match input
    case FrameRead(now) => Append(calls, Event(now));
    case FrameBad => Append(calls, DecodeError);
    case StreamEnded(_) => Append(calls, Attached(false));
    case _ => assert calls + [] == calls;
  }

  lemma FailureIsLegal(s: State, calls: seq<Call>, input: Input)
    requires s.phase.Dialing? && s.connected && LegalTrace(calls) && Link(s, PastOf(calls)) && input.DialFailed?
    ensures StepsLegally(s, calls, input)
  {
    var said, more := calls + [Attached(false)], Report(s, s.backoff, input.now).1;
    Append(calls, Attached(false));
    Reassociate(calls, Attached(false), more);
    ReportIsLegal(s, s.backoff, input.now, said);
  }

  lemma ConnectionIsLegal(s: State, calls: seq<Call>, input: Input)
    requires s.phase.Dialing? && LegalTrace(calls) && Link(s, PastOf(calls)) && input.DialOk?
    ensures StepsLegally(s, calls, input)
  {
    if s.connected {
      AppendTwo(calls, Attached(true), Gap(s.lostAt, input.now));
      assert [Attached(true)] + [Gap(s.lostAt, input.now)] == [Attached(true), Gap(s.lostAt, input.now)];
    } else {
      Append(calls, Attached(true));
      assert [Attached(true)] + [] == [Attached(true)];
    }
  }

  lemma GivingUpIsLegal(s: State, calls: seq<Call>, input: Input)
    requires s.phase.Dialing? && LegalTrace(calls) && Link(s, PastOf(calls))
    requires input.WrongSocket? || (input.DialFailed? && !s.connected)
    ensures StepsLegally(s, calls, input)
  {
    Append(calls, Attached(false));
    assert [Attached(false)] + [] == [Attached(false)];
  }

  lemma SilenceIsLegal(s: State, calls: seq<Call>, input: Input)
    requires s.phase.Dialing? && LegalTrace(calls) && Link(s, PastOf(calls))
    requires !input.WrongSocket? && !input.DialFailed? && !input.DialOk?
    ensures StepsLegally(s, calls, input)
  {
    assert calls + [] == calls;
  }

  lemma DialingIsLegal(s: State, calls: seq<Call>, input: Input)
    requires s.phase.Dialing? && LegalTrace(calls) && Link(s, PastOf(calls))
    ensures StepsLegally(s, calls, input)
  {
    if input.DialOk? {
      ConnectionIsLegal(s, calls, input);
    } else if input.WrongSocket? || (input.DialFailed? && !s.connected) {
      GivingUpIsLegal(s, calls, input);
    } else if input.DialFailed? {
      FailureIsLegal(s, calls, input);
    } else {
      SilenceIsLegal(s, calls, input);
    }
  }

  lemma WaitingIsLegal(s: State, calls: seq<Call>, input: Input)
    requires s.phase.Waiting? && LegalTrace(calls) && Link(s, PastOf(calls))
    ensures StepsLegally(s, calls, input)
  {
    var remaining := s.phase.remaining;
    if input.Woke? {
      assert Step(s, input) == Report(s, remaining - GAP_REFRESH, input.now);
      ReportIsLegal(s, remaining - GAP_REFRESH, input.now, calls);
    } else {
      assert calls + Step(s, input).1 == calls;
    }
  }

  lemma StepIsLegal(s: State, calls: seq<Call>, input: Input)
    requires LegalTrace(calls) && Link(s, PastOf(calls))
    ensures StepsLegally(s, calls, input)
  {
    match s.phase
    case Reading => ReadingIsLegal(s, calls, input);
    case Dialing => DialingIsLegal(s, calls, input);
    case Waiting(_) => WaitingIsLegal(s, calls, input);
    case Stopped(_) => assert calls + [] == calls;
  }

  /** Every trace of the reader obeys the protocol at every call. */
  lemma {:induction false} EveryTraceIsLegal(inputs: seq<Input>)
    ensures var (s, calls) := After(inputs); LegalTrace(calls) && Link(s, PastOf(calls))
  {
    if inputs == [] {
      NextBackoff(1);
    } else {
      var before := inputs[..|inputs| - 1];
      EveryTraceIsLegal(before);
      StepIsLegal(After(before).0, After(before).1, inputs[|inputs| - 1]);
    }
  }

  // ---------------------------------------------------------------- consequences over whole traces

  /** All reports of one outage, from its first to the one that closes it, name the same start. */
  lemma {:induction false} OneStartPerOutage(inputs: seq<Input>, i: nat, j: nat)
    requires var calls := After(inputs).1;
             && i < j < |calls| && calls[i].Gap? && calls[j].Gap?
             && forall k :: i < k < j && calls[k] == Attached(false) ==> PastOf(calls[..k]).level != Some(true)
    ensures After(inputs).1[i].from == After(inputs).1[j].from
  {
    EveryTraceIsLegal(inputs);
    var calls := After(inputs).1;
    OutagePersists(calls, i, j);
    LegalAt(calls, j);
  }

  lemma PastNext(calls: seq<Call>, j: nat)
    requires 0 < j <= |calls|
    ensures PastOf(calls[..j]) == Note(PastOf(calls[..j - 1]), calls[j - 1])
  {
    assert calls[..j][..j - 1] == calls[..j - 1];
  }

  lemma {:induction false} OutagePersists(calls: seq<Call>, i: nat, j: nat)
    requires i < j <= |calls| && calls[i].Gap? && LegalTrace(calls)
    requires forall k :: i < k < j && calls[k] == Attached(false) ==> PastOf(calls[..k]).level != Some(true)
    ensures PastOf(calls[..j]).outage == Some(calls[i].from)
    decreases j
  {
    PastNext(calls, j);
    if j > i + 1 {
      OutagePersists(calls, i, j - 1);
      LegalAt(calls, j - 1);
    }
  }

  /** A reader that gave up on a failed dial had never connected. */
  lemma {:induction false} StopsOnlyUnconnected(inputs: seq<Input>)
    ensures var s := After(inputs).0;
            s.phase.Stopped? ==>
              match s.phase.err
              case None => Cancelled in inputs
              case Some(NotPubSocket) => WrongSocket in inputs
              case Some(DialError) => !s.connected
  {
    if inputs != [] {
      StopsOnlyUnconnected(inputs[..|inputs| - 1]);
    }
  }

  /** The reader gives up only on a socket that is not the publish socket, or when the very first
      dial fails; after one connection every other failure is retried. */
  lemma OnlyTwoFailuresAreFatal(inputs: seq<Input>)
    ensures var (s, calls) := After(inputs);
            s.phase.Stopped? ==>
              match s.phase.err
              case None => Cancelled in inputs
              case Some(NotPubSocket) => WrongSocket in inputs
              case Some(DialError) => PastOf(calls).connections == 0
  {
    StopsOnlyUnconnected(inputs);
    EveryTraceIsLegal(inputs);
  }

  /** When the connection held last was lost: the time its stream ended. */
  function LossTime(inputs: seq<Input>): nat {
    if inputs == [] then 0
    else
      var front, input := inputs[..|inputs| - 1], inputs[|inputs| - 1];
      if After(front).0.phase.Reading? && input.StreamEnded? then input.now else LossTime(front)
  }

  lemma {:induction false} LostAtIsLossTime(inputs: seq<Input>)
    ensures After(inputs).0.lostAt == LossTime(inputs)
  {
    if inputs != [] {
      LostAtIsLossTime(inputs[..|inputs| - 1]);
    }
  }

  /** Every report made on an answer names a window from the end of the stream that was lost to the
      time of that answer. */
  lemma ReportsNameTheLoss(inputs: seq<Input>, input: Input, c: Call)
    requires var (s, calls) := After(inputs); c in Step(s, input).1 && c.Gap?
    ensures HasTime(input) && c == Gap(LossTime(inputs), input.now)
    ensures After(inputs + [input]).1 == After(inputs).1 + Step(After(inputs).0, input).1
  {
    LostAtIsLossTime(inputs);
    assert (inputs + [input])[..|inputs|] == inputs;
  }

  predicate HasTime(input: Input) {
    input.DialOk? || input.DialFailed? || input.Woke? || input.FrameRead? || input.StreamEnded?
  }

  function Latest(inputs: seq<Input>): nat {
    if inputs == [] then 0
    else if HasTime(inputs[|inputs| - 1]) then inputs[|inputs| - 1].now
    else Latest(inputs[..|inputs| - 1])
  }

  /** The clock readings never go back. */
  predicate Clocked(inputs: seq<Input>) {
    inputs == [] ||
    (var front, input := inputs[..|inputs| - 1], inputs[|inputs| - 1];
     Clocked(front) && (HasTime(input) ==> Latest(front) <= input.now))
  }

  predicate NoLater(c: Call, t: nat) {
    match c
    case Gap(from, to) => from <= to <= t
    case Event(at) => at <= t
    case _ => true
  }

  /** A call is no earlier than the ones before it, and the start of an outage no later than its end. */
  predicate InTime(earlier: Call, later: Call) {
    match later
    case Gap(from, to) => NoLater(earlier, to)
    case Event(at) => NoLater(earlier, at)
    case _ => true
  }

  ghost predicate TimedTrace(calls: seq<Call>) {
    forall i, j :: 0 <= i < j < |calls| ==> InTime(calls[i], calls[j])
  }

  /** On a clock that never goes back, every report and every event is stamped no earlier than the
      ones before it. */
  lemma {:induction false} TracesAreTimed(inputs: seq<Input>)
    requires Clocked(inputs)
    ensures var (s, calls) := After(inputs);
            && TimedTrace(calls) && s.lostAt <= Latest(inputs)
            && forall i :: 0 <= i < |calls| ==> NoLater(calls[i], Latest(inputs))
  {
    if inputs != [] {
      var before, input := inputs[..|inputs| - 1], inputs[|inputs| - 1];
      TracesAreTimed(before);
      var (s, calls) := After(before);
      var more := Step(s, input).1;
      forall i, j | 0 <= i < j < |calls + more|
        ensures InTime((calls + more)[i], (calls + more)[j])
      {
        if j >= |calls| && i < |calls| {
          assert NoLater(calls[i], Latest(before));
        }
      }
    }
  }
}
