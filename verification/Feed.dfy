/** From bytes to the hub: what the reader makes of a connection's stream, and what the status bar
    may conclude from the reader's calls. */
module Feeds {
  import opened Basics
  import opened Events
  import Frames
  import Reader

  /** How the reader sees one outcome of reading a frame. */
  function Answer(o: Frames.Outcome, now: nat): Reader.Input {
    if o.Read? then Reader.FrameRead(now) else Reader.FrameBad
  }

  /** The answers a stream gives, read at the times `nows`: its frames, and then its end. */
  function Answers(handed: seq<Frames.Outcome>, nows: seq<nat>, n: nat): seq<Reader.Input>
    requires n <= |handed| < |nows|
    decreases |handed| - n
  {
    if n == |handed| then [Reader.StreamEnded(nows[n])] else [Answer(handed[n], nows[n])] + Answers(handed, nows, n + 1)
  }

  /** The calls they cause: an event or a decode error for each, and then the loss of the socket. */
  function Calls(handed: seq<Frames.Outcome>, nows: seq<nat>, n: nat): seq<Reader.Call>
    requires n <= |handed| < |nows|
    decreases |handed| - n
  {
    if n == |handed| then [Reader.Attached(false)]
    else [if handed[n].Read? then Reader.Event(nows[n]) else Reader.DecodeError] + Calls(handed, nows, n + 1)
  }

  lemma StepFrom(inputs: seq<Reader.Input>, input: Reader.Input)
    ensures var (s, calls) := Reader.After(inputs);
            Reader.After(inputs + [input]) == (Reader.Step(s, input).0, calls + Reader.Step(s, input).1)
  {
    assert (inputs + [input])[..|inputs|] == inputs;
  }

  lemma {:induction false} AnswersBecomeCalls(inputs: seq<Reader.Input>, handed: seq<Frames.Outcome>,
      nows: seq<nat>, n: nat)
    requires n <= |handed| < |nows| && Reader.After(inputs).0.phase == Reader.Reading
    ensures var (s, calls) := Reader.After(inputs);
            Reader.After(inputs + Answers(handed, nows, n))
              == (s.(phase := Reader.Dialing, lostAt := nows[|handed|]), calls + Calls(handed, nows, n))
    decreases |handed| - n
  {
    if n == |handed| {
      StepFrom(inputs, Reader.StreamEnded(nows[n]));
    } else {
      var input := Answer(handed[n], nows[n]);
      var (s, calls) := Reader.After(inputs);
      var call := if handed[n].Read? then Reader.Event(nows[n]) else Reader.DecodeError;
      StepFrom(inputs, input);
      assert Reader.Step(s, input) == (s, [call]);
      AnswersBecomeCalls(inputs + [input], handed, nows, n + 1);
      Associates(inputs, [input], Answers(handed, nows, n + 1));
      Associates(calls, [call], Calls(handed, nows, n + 1));
    }
  }

  /** A connection that carries frames of legal length, some of which do not decode, and then ends
      wherever it ends, gives one event or one decode error for each, one more decode error for a
      body cut short, and only then the loss of the socket. */
  lemma ConnectionIsReadInFull(lib: Frames.Library, bufs: seq<seq<Byte>>, tail: seq<Byte>,
      inputs: seq<Reader.Input>, nows: seq<nat>)
    requires (forall b :: b in bufs ==> Frames.Legal(b)) && Frames.Tail(tail)
    requires Reader.After(inputs).0.phase == Reader.Reading
    requires |nows| > |Frames.Handed(lib, Frames.Written(bufs) + tail)|
    ensures var handed := Frames.Handed(lib, Frames.Written(bufs) + tail);
            && handed == Frames.Decoded(lib, bufs) + Frames.Leftover(tail)
            && Reader.After(inputs + Answers(handed, nows, 0)).1 == Reader.After(inputs).1 + Calls(handed, nows, 0)
  {
    Frames.FramesComeBack(lib, bufs, tail);
    Frames.TailIsOneErrorAtMost(lib, tail);
    AnswersBecomeCalls(inputs, Frames.Handed(lib, Frames.Written(bufs) + tail), nows, 0);
  }

  // ---------------------------------------------------------------- being connected

  /** What the status bar says after a list of calls. */
  function Up(calls: seq<Reader.Call>): bool {
    if calls == [] then false
    else
      var c := calls[|calls| - 1];
      if c.Attached? then c.up else Up(calls[..|calls| - 1])
  }

  lemma {:induction false} UpStays(calls: seq<Reader.Call>, more: seq<Reader.Call>)
    requires forall c :: c in more ==> !c.Attached?
    ensures Up(calls + more) == Up(calls)
  {
    if more == [] {
      assert calls + more == calls;
    } else {
      var front := more[..|more| - 1];
      assert (calls + more)[..|calls + more| - 1] == calls + front;
      UpStays(calls, front);
    }
  }

  lemma UpIsSet(calls: seq<Reader.Call>, up: bool, rest: seq<Reader.Call>)
    requires forall c :: c in rest ==> !c.Attached?
    ensures Up(calls + ([Reader.Attached(up)] + rest)) == up
  {
    var first := calls + [Reader.Attached(up)];
    assert first[..|first| - 1] == calls;
    UpStays(first, rest);
    assert calls + ([Reader.Attached(up)] + rest) == first + rest;
  }

  lemma UpWhileDialing(calls: seq<Reader.Call>, s: Reader.State, input: Reader.Input)
    requires s.phase == Reader.Dialing && !Up(calls)
    ensures var (s', more) := Reader.Step(s, input); Up(calls + more) <==> s'.phase == Reader.Reading
  {
    match input
    case DialOk(now) => UpIsSet(calls, true, if s.connected then [Reader.Gap(s.lostAt, now)] else []);
    case DialFailed(now) =>
      var more := if s.connected then Reader.Report(s, s.backoff, now).1 else [];
      UpIsSet(calls, false, more);
      assert [Reader.Attached(false)] + [] == [Reader.Attached(false)];
    case WrongSocket =>
      UpIsSet(calls, false, []);
      assert [Reader.Attached(false)] + [] == [Reader.Attached(false)];
    case _ => UpStays(calls, []);
  }

  lemma UpWhileReading(calls: seq<Reader.Call>, s: Reader.State, input: Reader.Input)
    requires s.phase == Reader.Reading && Up(calls)
    ensures var (s', more) := Reader.Step(s, input); Up(calls + more) <==> s'.phase == Reader.Reading
  {
    match input
    case StreamEnded(_) =>
      UpIsSet(calls, false, []);
      assert [Reader.Attached(false)] + [] == [Reader.Attached(false)];
    case _ => UpStays(calls, Reader.Step(s, input).1);
  }

  lemma UpAfterStep(calls: seq<Reader.Call>, s: Reader.State, input: Reader.Input)
    requires Up(calls) <==> s.phase == Reader.Reading
    ensures var (s', more) := Reader.Step(s, input); Up(calls + more) <==> s'.phase == Reader.Reading
  {
    match s.phase
    case Dialing => UpWhileDialing(calls, s, input);
    case Reading => UpWhileReading(calls, s, input);
    case _ => UpStays(calls, Reader.Step(s, input).1);
  }

  /** The status bar says connected exactly while the reader holds the publish socket. */
  lemma {:induction false} ConnectedMeansReading(inputs: seq<Reader.Input>)
    ensures var (s, calls) := Reader.After(inputs); Up(calls) <==> s.phase == Reader.Reading
  {
    if inputs != [] {
      var front, input := inputs[..|inputs| - 1], inputs[|inputs| - 1];
      ConnectedMeansReading(front);
      var (s, calls) := Reader.After(front);
      UpAfterStep(calls, s, input);
    }
  }
}
