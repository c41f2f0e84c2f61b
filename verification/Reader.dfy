/** The reconnecting reader of `internal/saltipc/reader.go`: connect, read, report the outage,
    back off, reconnect. Everything the outside world decides arrives as a list of answers. */
module Reader {
  import opened Basics
  import RingHistory

  const MILLISECOND: nat := 1_000_000
  const MIN_BACKOFF: nat := 250 * MILLISECOND
  const MAX_BACKOFF: nat := 5_000 * MILLISECOND
  const GAP_REFRESH: nat := RingHistory.GAP_REPORT_INTERVAL

  /** What the outside world answers: the outcome of a dial, of a sleep, of reading a frame, each
      with the clock reading taken then, or the cancellation. */
  datatype Input =
    | Cancelled
    | DialOk(now: nat)
    | DialFailed(now: nat)
    | WrongSocket
    | Woke(now: nat)
    | FrameRead(now: nat)
    | FrameBad
    | StreamEnded(now: nat)

  /** What the reader does: the sink's methods, and the sleeps between them. */
  datatype Call =
    | Attached(up: bool)
    | Gap(from: nat, to: nat)
    | Event(at: nat)
    | DecodeError
    | Sleep(d: nat)

  datatype Failure = DialError | NotPubSocket

  datatype Phase =
    | Dialing
    | Waiting(remaining: int)
    | Reading
    | Stopped(err: Option<Failure>)

  datatype State = State(phase: Phase, backoff: nat, connected: bool, lostAt: nat)

  const START := State(Dialing, MIN_BACKOFF, false, 0)

  // ---------------------------------------------------------------- the reader as a machine

  /** One turn of the wait loop: report, then sleep a slice or be done. */
  function Report(s: State, remaining: int, now: nat): (State, seq<Call>) {
    if remaining <= 0
    then (s.(phase := Dialing, backoff := Min(s.backoff * 2, MAX_BACKOFF)), [Gap(s.lostAt, now)])
    else (s.(phase := Waiting(remaining)), [Gap(s.lostAt, now), Sleep(Min(remaining, GAP_REFRESH))])
  }

  /** What one answer makes the reader do; an answer to a question not asked is ignored. */
  function Step(s: State, input: Input): (State, seq<Call>) {
    match s.phase
    case Dialing => (
      match input
      case Cancelled => (s.(phase := Stopped(None)), [])
      case WrongSocket => (s.(phase := Stopped(Some(NotPubSocket))), [Attached(false)])
      case DialFailed(now) =>
        if !s.connected then (s.(phase := Stopped(Some(DialError))), [Attached(false)])
        else
          var (s', calls) := Report(s, s.backoff, now);
          (s', [Attached(false)] + calls)
      case DialOk(now) =>
        (State(Reading, MIN_BACKOFF, true, s.lostAt),
         [Attached(true)] + if s.connected then [Gap(s.lostAt, now)] else [])
      case _ => (s, [])
    )
    case Waiting(remaining) => (
      match input
      case Cancelled => (s.(phase := Stopped(None)), [])
      case Woke(now) => Report(s, remaining - GAP_REFRESH, now)
      case _ => (s, [])
    )
    case Reading => (
      match input
      case FrameRead(now) => (s, [Event(now)])
      case FrameBad => (s, [DecodeError])
      case StreamEnded(now) => (s.(phase := Dialing, lostAt := now), [Attached(false)])
      case _ => (s, [])
    )
    case Stopped(_) => (s, [])
  }

  /** The state and the calls after a list of answers. */
  function After(inputs: seq<Input>): (State, seq<Call>) {
    if inputs == [] then (START, [])
    else
      var (s, calls) := After(inputs[..|inputs| - 1]);
      var (s', more) := Step(s, inputs[|inputs| - 1]);
      (s', calls + more)
  }

  lemma AfterOne(inputs: seq<Input>, i: nat)
    requires i < |inputs|
    ensures var (s, calls) := After(inputs[..i]);
            After(inputs[..i + 1]) == (Step(s, inputs[i]).0, calls + Step(s, inputs[i]).1)
  {
    assert inputs[..i + 1][..i] == inputs[..i];
  }

  /** A reader that has stopped does nothing more. */
  lemma {:induction false} StoppedStays(inputs: seq<Input>, n: nat)
    requires n <= |inputs| && After(inputs[..n]).0.phase.Stopped?
    ensures After(inputs) == After(inputs[..n])
  {
    if n == |inputs| {
      assert inputs[..n] == inputs;
    } else {
      var front := inputs[..|inputs| - 1];
      assert front[..n] == inputs[..n];
      StoppedStays(front, n);
      assert After(front).1 + [] == After(front).1;
    }
  }

  /** What makes the reader stop, and that it then does: the wrong socket at any dial, cancellation
      while it dials or waits, and a first dial that fails. */
  predicate Stops(s: State, input: Input, err: Option<Failure>) {
    || (s.phase.Dialing? && input.WrongSocket? && err == Some(NotPubSocket))
    || ((s.phase.Dialing? || s.phase.Waiting?) && input.Cancelled? && err == None)
    || (s.phase.Dialing? && !s.connected && input.DialFailed? && err == Some(DialError))
  }

  lemma StopsExactlyThen(inputs: seq<Input>, input: Input, err: Option<Failure>)
    requires !After(inputs).0.phase.Stopped?
    ensures After(inputs + [input]).0.phase == Stopped(err) <==> Stops(After(inputs).0, input, err)
  {
    assert (inputs + [input])[..|inputs|] == inputs;
  }

  /** The reader has connected exactly when a dial has succeeded. */
  lemma {:induction false} ConnectedOnceDialed(inputs: seq<Input>)
    ensures var (s, calls) := After(inputs); s.connected <==> Attached(true) in calls
  {
    if inputs != [] {
      var front, input := inputs[..|inputs| - 1], inputs[|inputs| - 1];
      ConnectedOnceDialed(front);
      var (s, calls) := After(front);
      var more := Step(s, input).1;
      if s.phase.Dialing? && input.DialOk? {
        assert more[0] == Attached(true);
      } else {
        assert Attached(true) !in more;
      }
    }
  }

  // ---------------------------------------------------------------- the loops of the code

  /** Where a wait stands once a report is made: asleep for another slice, or back to dialing. */
  function Waited(s: State, remaining: int, calls: seq<Call>): (State, seq<Call>) {
    if remaining <= 0 then (s.(phase := Dialing, backoff := Min(s.backoff * 2, MAX_BACKOFF)), calls)
    else (s.(phase := Waiting(remaining)), calls + [Sleep(Min(remaining, GAP_REFRESH))])
  }

  lemma ReportWaits(s: State, phase: Phase, remaining: int, now: nat, before: seq<Call>)
    ensures var (s', more) := Report(s.(phase := phase), remaining, now);
            (s', before + more) == Waited(s, remaining, before + [Gap(s.lostAt, now)])
  {
    if remaining > 0 {
      var slice := Sleep(Min(remaining, GAP_REFRESH));
      assert before + [Gap(s.lostAt, now), slice] == before + [Gap(s.lostAt, now)] + [slice];
    }
  }

  predicate Fits(phase: Phase, input: Input) {
    match phase
    case Dialing => input.Cancelled? || input.WrongSocket? || input.DialFailed? || input.DialOk?
    case Waiting(_) => input.Cancelled? || input.Woke?
    case Reading => input.FrameRead? || input.FrameBad? || input.StreamEnded?
    case Stopped(_) => false
  }

  /** Asks a question: the next answer that fits it, those in between changing nothing. */
  method Ask(inputs: seq<Input>, at: nat, phase: Phase, ghost s: State, ghost calls: seq<Call>) returns (i: nat)
    requires at <= |inputs| && After(inputs[..at]) == (s, calls) && s.phase == phase
    ensures at <= i <= |inputs| && After(inputs[..i]) == (s, calls)
    ensures i < |inputs| ==>
              && Fits(phase, inputs[i])
              && After(inputs[..i + 1]) == (Step(s, inputs[i]).0, calls + Step(s, inputs[i]).1)
  {
    i := at;
    while i < |inputs|
      invariant at <= i <= |inputs| && After(inputs[..i]) == (s, calls)
    {
      AfterOne(inputs, i);
      if Fits(phase, inputs[i]) {
        return;
      }
      assert calls + [] == calls;
      i := i + 1;
    }
  }

  /** How a loop of the reader ended: it goes on, it stopped, or the answers ran out while it waits for one. */
  datatype Exit = Continue | Stop | Pending

  /** Waits for `d` before the next dial, keeping the outage reported as it runs. */
  method WaitToRetry(inputs: seq<Input>, at: nat, d: nat, lostAt: nat, now: nat, before: seq<Call>, ghost s: State)
      returns (i: nat, calls: seq<Call>, exit: Exit)
    requires at <= |inputs| && s.phase.Dialing? && d == s.backoff && lostAt == s.lostAt
    requires After(inputs[..at]) == (Report(s, d, now).0, before + Report(s, d, now).1)
    ensures at <= i <= |inputs| && After(inputs[..i]).1 == calls
    ensures exit.Continue? ==> After(inputs[..i]).0 == s.(backoff := Min(s.backoff * 2, MAX_BACKOFF))
    ensures exit.Stop? ==> After(inputs[..i]).0.phase == Stopped(None)
    ensures exit.Pending? ==> i == |inputs| && After(inputs[..i]).0.phase.Waiting?
  {
    i := at;
    var remaining: int := d;
    calls := before + [Gap(lostAt, now)];
    ReportWaits(s, Dialing, remaining, now, before);
    while remaining > 0
      invariant at <= i <= |inputs|
      invariant After(inputs[..i]) == Waited(s, remaining, calls)
      decreases remaining
    {
      calls := calls + [Sleep(Min(remaining, GAP_REFRESH))];
      i := Ask(inputs, i, Waiting(remaining), s.(phase := Waiting(remaining)), calls);
      if i == |inputs| {
        return i, calls, Pending;
      }
      var answer := inputs[i];
      i := i + 1;
      if answer.Cancelled? {
        return i, calls, Stop;
      }
      remaining := remaining - GAP_REFRESH;
      ReportWaits(s, Waiting(remaining + GAP_REFRESH), remaining, answer.now, calls);
      calls := calls + [Gap(lostAt, answer.now)];
    }
    exit := Continue;
  }

  /** Reads frames until the stream ends, returning when it did. */
  method Consume(inputs: seq<Input>, at: nat, before: seq<Call>, ghost s: State)
      returns (i: nat, calls: seq<Call>, lostAt: nat, exit: Exit)
    requires at <= |inputs| && s.phase.Reading? && After(inputs[..at]) == (s, before)
    ensures at <= i <= |inputs|
    ensures exit.Continue? ==> After(inputs[..i]) == (s.(phase := Dialing, lostAt := lostAt), calls + [Attached(false)])
    ensures exit.Pending? ==> i == |inputs| && After(inputs[..i]) == (s, calls)
    ensures !exit.Stop?
  {
    i, calls, lostAt := at, before, 0;
    while true
      invariant at <= i <= |inputs| && After(inputs[..i]) == (s, calls)
      decreases |inputs| - i
    {
      i := Ask(inputs, i, Reading, s, calls);
      if i == |inputs| {
        return i, calls, 0, Pending;
      }
      var answer := inputs[i];
      i := i + 1;
      match answer
      case StreamEnded(now) => return i, calls, now, Continue;
      case FrameRead(now) => calls := calls + [Event(now)];
      case _ => calls := calls + [DecodeError];
    }
  }

  /** Reads until cancelled, reconnecting across master restarts. `calls` is everything it did. */
  method Run(inputs: seq<Input>) returns (calls: seq<Call>, exit: Exit, err: Option<Failure>)
    ensures calls == After(inputs).1
    ensures exit.Stop? <==> After(inputs).0.phase.Stopped?
    ensures exit.Stop? ==> After(inputs).0.phase == Stopped(err)
  {
    var backoff: nat, connected: bool, lostAt: nat := MIN_BACKOFF, false, 0;
    var i := 0;
    calls := [];
    assert inputs[..|inputs|] == inputs;
    while true
      invariant i <= |inputs|
      invariant After(inputs[..i]) == (State(Dialing, backoff, connected, lostAt), calls)
      decreases |inputs| - i
    {
      ghost var s := State(Dialing, backoff, connected, lostAt);
      i := Ask(inputs, i, Dialing, s, calls);
      if i == |inputs| {
        return calls, Pending, None;
      }
      var answer := inputs[i];
      i := i + 1;
      if answer.Cancelled? {
        assert calls + [] == calls;
        StoppedStays(inputs, i);
        return calls, Stop, None;
      }
      if !answer.DialOk? {
        ghost var report := if answer.DialFailed? then Report(s, backoff, answer.now).1 else [];
        assert calls + ([Attached(false)] + report) == (calls + [Attached(false)]) + report;
        calls := calls + [Attached(false)];
        if !connected || answer.WrongSocket? {
          assert calls + [] == calls;
          StoppedStays(inputs, i);
          err := Some(if answer.WrongSocket? then NotPubSocket else DialError);
          return calls, Stop, err;
        }
        var i', calls', exit' := WaitToRetry(inputs, i, backoff, lostAt, answer.now, calls, s);
        i, calls := i', calls';
        if exit'.Stop? {
          StoppedStays(inputs, i);
        }
        if !exit'.Continue? {
          return calls, exit', None;
        }
        backoff := Min(backoff * 2, MAX_BACKOFF);
      } else {
        assert calls + ([Attached(true)] + [Gap(lostAt, answer.now)])
            == (calls + [Attached(true)]) + [Gap(lostAt, answer.now)];
        assert calls + ([Attached(true)] + []) == calls + [Attached(true)];
        calls := calls + [Attached(true)];
        if connected {
          calls := calls + [Gap(lostAt, answer.now)];
        }
        connected, backoff := true, MIN_BACKOFF;
        var i', calls', lost, exit' := Consume(inputs, i, calls, State(Reading, backoff, connected, lostAt));
        i, calls := i', calls';
        if !exit'.Continue? {
          return calls, exit', None;
        }
        lostAt := lost;
        calls := calls + [Attached(false)];
      }
    }
  }
}
