/** What the hub of `cmd/salt-events/hub.go` makes of the calls it receives: each part sees its own
    share of them, and no part's share depends on what the event cache can hold. */
module HubLog {
  import opened Basics
  import opened Events
  import opened Jobs
  import opened IndexSpec
  import opened IndexLaws
  import RingHistory
  import opened Counters

  // ---------------------------------------------------------------- what a new job's payload says

  /** A decoded payload. */
  datatype Value = Text(text: string) | Items(items: seq<Value>) | Table(fields: map<string, Value>) | Other

  type Decoder = seq<Byte> -> Option<Value>

  datatype Facts = Facts(expected: Option<seq<string>>, trimmed: bool, tgt: string, tgtType: string, user: string)

  const NO_FACTS := Facts(None, false, "", "", "")
  const TRIMMED_MARKER := "VALUE_TRIMMED"
  const MAX_LABEL: nat := 256

  function ValueAt(v: Value, key: string): Option<Value> {
    if v.Table? && key in v.fields then Some(v.fields[key]) else None
  }

  predicate AllTexts(items: seq<Value>) {
    forall i :: 0 <= i < |items| ==> items[i].Text?
  }

  /** The minions the master targeted: every one, or nothing known. */
  function Listed(v: Value): (Option<seq<string>>, bool) {
    match ValueAt(v, "minions")
    case Some(Text(s)) => (None, s == TRIMMED_MARKER)
    case Some(Items(items)) =>
      if AllTexts(items)
      then (Some(seq(|items|, i requires 0 <= i < |items| => items[i].text)), false)
      else (None, false)
    case _ => (None, false)
  }

  /** The longest beginning of a text that fits the bound: a cut after so many bytes, without the part
      of a rune that it may leave. */
  function Clamped(s: string): string {
    if Bytes(s) <= MAX_LABEL then s else Clamped(s[..|s| - 1])
  }

  /** A label fits, is a beginning of the text, and would not fit with one more rune. */
  lemma {:induction false} ClampedIsLongest(s: string)
    ensures var r := Clamped(s);
            && Bytes(r) <= MAX_LABEL && |r| <= |s| && r == s[..|r|]
            && (|r| < |s| ==> Bytes(s[..|r| + 1]) > MAX_LABEL)
  {
    if Bytes(s) > MAX_LABEL {
      var front := s[..|s| - 1];
      ClampedIsLongest(front);
      var n := |Clamped(front)|;
      assert front[..n] == s[..n];
      if n < |front| {
        assert front[..n + 1] == s[..n + 1];
      } else {
        assert s[..n + 1] == s;
      }
    }
  }

  /** The texts among the first `n` items. */
  function TextsTo(items: seq<Value>, n: nat): seq<string>
    requires n <= |items|
  {
    if n == 0 then [] else TextsTo(items, n - 1) + if items[n - 1].Text? then [items[n - 1].text] else []
  }

  function CommaJoined(parts: seq<string>): string {
    if parts == [] then ""
    else if |parts| == 1 then parts[0]
    else parts[0] + "," + CommaJoined(parts[1..])
  }

  function Label(v: Option<Value>): string {
    match v
    case Some(Text(s)) => Clamped(s)
    case Some(Items(items)) => Clamped(CommaJoined(TextsTo(items, |items|)))
    case _ => ""
  }

  function FactsOf(decode: Option<Decoder>, e: Event): Facts {
    if !e.at.kind.KindNew? || PayloadSize(e) == 0 || decode.None? then NO_FACTS
    else
      match decode.value(e.payload.value)
      case None => NO_FACTS
      case Some(v) =>
        var (expected, trimmed) := Listed(v);
        Facts(expected, trimmed, Label(ValueAt(v, "tgt")), Label(ValueAt(v, "tgt_type")), Label(ValueAt(v, "user")))
  }

  // ---------------------------------------------------------------- the calls and their shares

  /** One call on the hub. A look reads the clock once for each window and each summary. */
  datatype Call =
    | Event(e: Event)
    | Gap(from: nat, to: nat)
    | Attached(up: bool)
    | DecodeError
    | PinJob(jid: string)
    | Snapshot(seconds: nat, minutes: nat, secSum: nat, minSum: nat)

  /** What the hub has been told, and what the rings, the index and the counters make of it. Nothing here knows
      how much the event cache can hold. */
  datatype State = State(
    received: seq<Event>, ringOps: seq<RingHistory.Op>, index: Index, up: bool, errors: nat, keys: Keys)

  /** The counters of categories, minions and functions. */
  datatype Keys = Keys(cats: Tally, minions: Tally, funs: Tally)

  const MAX_TOP_KEYS: int := 256

  /** An event is counted under its category, and under its minion and function when it has one. */
  function CountKeys(k: Keys, e: Event): Keys {
    Keys(Tick(MAX_TOP_KEYS, k.cats, e.at.category),
         if e.at.minion != "" then Tick(MAX_TOP_KEYS, k.minions, e.at.minion) else k.minions,
         if e.at.fun != "" then Tick(MAX_TOP_KEYS, k.funs, e.at.fun) else k.funs)
  }

  const EMPTY := State([], [], NO_JOBS, false, 0, Keys(NO_COUNTS, NO_COUNTS, NO_COUNTS))

  /** The job index after an event. */
  ghost function Observed(lim: Limits, ix: Index, e: Event, f: Facts): Index
    requires Sound(ix)
  {
    if !e.at.kind.KindNew? && !e.at.kind.KindRet? then ix
    else
      var seen := Act(lim, ix, See(e, f.expected, f.trimmed));
      if e.at.jid == "" || (f.tgt == "" && f.user == "" && f.tgtType == "") then seen
      else
        ObserveIsSound(lim, ix, e, f.expected, f.trimmed);
        Act(lim, seen, Describe(e.at.jid, f.tgt, f.tgtType, f.user))
  }

  /** One call. */
  ghost function Feed(lim: Limits, decode: Option<Decoder>, s: State, c: Call): State
    requires Sound(s.index)
  {
    match c
    case Event(e) =>
      s.(received := s.received + [e], ringOps := s.ringOps + [RingHistory.Add(e.at.arrival)],
         index := Observed(lim, s.index, e, FactsOf(decode, e)), keys := CountKeys(s.keys, e))
    case Gap(from, to) => s.(ringOps := s.ringOps + [RingHistory.MarkGap(from, to)])
    case Attached(up) => s.(up := up)
    case DecodeError => s.(errors := s.errors + 1)
    case PinJob(jid) => s.(index := s.index.(pinned := jid))
    case Snapshot(a, b, c, d) =>
      s.(ringOps := s.ringOps + [RingHistory.Poll(a), RingHistory.Poll(b), RingHistory.Poll(c), RingHistory.Poll(d)])
  }

  /** The state after a list of calls. */
  ghost function Fold(lim: Limits, decode: Option<Decoder>, log: seq<Call>): (s: State)
    ensures Sound(s.index) && Bounded(lim, s.index)
  {
    if log == [] then EMPTY
    else
      var before := Fold(lim, decode, log[..|log| - 1]);
      FeedKeepsBounds(lim, decode, before, log[|log| - 1]);
      Feed(lim, decode, before, log[|log| - 1])
  }

  lemma FeedKeepsBounds(lim: Limits, decode: Option<Decoder>, s: State, c: Call)
    requires Sound(s.index) && Bounded(lim, s.index)
    ensures var ix := Feed(lim, decode, s, c).index; Sound(ix) && Bounded(lim, ix)
  {
    match c
    case Event(e) => ObservedKeepsBounds(lim, s.index, e, FactsOf(decode, e));
    case _ =>
  }

  lemma ObservedKeepsBounds(lim: Limits, ix: Index, e: Event, f: Facts)
    requires Sound(ix) && Bounded(lim, ix)
    ensures Sound(Observed(lim, ix, e, f)) && Bounded(lim, Observed(lim, ix, e, f))
  {
    var see := See(e, f.expected, f.trimmed);
    ActKeepsBounds(lim, ix, see);
    ActKeepsBounds(lim, Act(lim, ix, see), Describe(e.at.jid, f.tgt, f.tgtType, f.user));
  }

  lemma FeedLook(lim: Limits, decode: Option<Decoder>, s: State, a: nat, b: nat, c: nat, d: nat)
    requires Sound(s.index)
    ensures Feed(lim, decode, s, Snapshot(a, b, c, d))
              == s.(ringOps := s.ringOps
                                 + [RingHistory.Poll(a), RingHistory.Poll(b), RingHistory.Poll(c), RingHistory.Poll(d)])
  {}

  lemma FoldMore(lim: Limits, decode: Option<Decoder>, log: seq<Call>, c: Call)
    ensures Fold(lim, decode, log + [c]) == Feed(lim, decode, Fold(lim, decode, log), c)
  {
    assert (log + [c])[..|log|] == log;
  }

  /** The items a new job's payload lists as its minions, if it decodes to a table that lists any. */
  function ListOf(decode: Option<Decoder>, e: Event): Option<seq<Value>> {
    if !e.at.kind.KindNew? || PayloadSize(e) == 0 || decode.None? || decode.value(e.payload.value).None? then None
    else
      match ValueAt(decode.value(e.payload.value).value, "minions")
      case Some(Items(items)) => Some(items)
      case _ => None
  }

  /** The targets read are all of the list and in its order, and they are read exactly when every item
      of it is a text; a trimmed list gives none. */
  ghost predicate ReadWhole(decode: Option<Decoder>, e: Event, f: Facts) {
    && (f.expected.Some? <==> ListOf(decode, e).Some? && AllTexts(ListOf(decode, e).value))
    && (f.expected.Some? ==>
          var items := ListOf(decode, e).value;
          |f.expected.value| == |items| && forall i :: 0 <= i < |items| ==> items[i] == Text(f.expected.value[i]))
    && (f.trimmed ==> f.expected.None?)
  }

  lemma TargetsAreWhole(decode: Option<Decoder>, e: Event)
    ensures ReadWhole(decode, e, FactsOf(decode, e))
  {}

  /** A short text is its own label, and of two listed texts the label is both with a comma between. */
  lemma LabelsAreTexts(s: string, t: string)
    ensures Bytes(s) <= 256 ==> Label(Some(Text(s))) == s
    ensures Bytes(s + "," + t) <= 256 ==> Label(Some(Items([Text(s), Other, Text(t)]))) == s + "," + t
    ensures Label(None) == "" && Label(Some(Other)) == ""
  {
    var items := [Text(s), Other, Text(t)];
    assert TextsTo(items, 1) == [s] && TextsTo(items, 2) == [s] && TextsTo(items, 3) == [s, t];
    assert [s, t][1..] == [t];
    assert CommaJoined([s, t]) == s + "," + t;
  }

  /** Target, targeting type and user are read each from its own key. */
  lemma LabelsHaveTheirKeys(decode: Option<Decoder>, e: Event, fields: map<string, Value>)
    requires e.at.kind.KindNew? && PayloadSize(e) > 0 && decode.Some?
    requires decode.value(e.payload.value) == Some(Table(fields))
    ensures var f := FactsOf(decode, e);
            && ("tgt" in fields && fields["tgt"].Text? && Bytes(fields["tgt"].text) <= 256 ==>
                  f.tgt == fields["tgt"].text)
            && ("tgt_type" in fields && fields["tgt_type"].Text? && Bytes(fields["tgt_type"].text) <= 256 ==>
                  f.tgtType == fields["tgt_type"].text)
            && ("user" in fields && fields["user"].Text? && Bytes(fields["user"].text) <= 256 ==>
                  f.user == fields["user"].text)
            && ("minions" in fields && fields["minions"] == Text("VALUE_TRIMMED") ==> f.trimmed)
  {}

  // ---------------------------------------------------------------- nothing about targets is made up

  /** The call is a new job's event that carries a readable target list for `jid`. */
  predicate Announces(decode: Option<Decoder>, c: Call, jid: string) {
    c.Event? && c.e.at.kind.KindNew? && c.e.at.jid == jid && FactsOf(decode, c.e).expected.Some?
  }

  ghost predicate Announced(decode: Option<Decoder>, log: seq<Call>, jid: string) {
    exists i :: 0 <= i < |log| && Announces(decode, log[i], jid)
  }

  ghost predicate Targeted(decode: Option<Decoder>, log: seq<Call>, jid: string, minion: string) {
    exists i :: 0 <= i < |log| && Announces(decode, log[i], jid) && minion in FactsOf(decode, log[i].e).expected.value
  }

  /** A job's targets count as known only when a list was read, and are only what lists named. */
  ghost predicate Warranted(decode: Option<Decoder>, log: seq<Call>, v: JobVal) {
    && (v.state == Known ==> Announced(decode, log, v.jid))
    && forall m :: m in v.expected ==> Targeted(decode, log, v.jid, m)
  }

  lemma WarrantStays(decode: Option<Decoder>, log: seq<Call>, c: Call, v: JobVal)
    requires Warranted(decode, log, v)
    ensures Warranted(decode, log + [c], v)
  {
    if v.state == Known {
      var i :| 0 <= i < |log| && Announces(decode, log[i], v.jid);
      assert Announces(decode, (log + [c])[i], v.jid);
    }
    forall m | m in v.expected
      ensures Targeted(decode, log + [c], v.jid, m)
    {
      assert Targeted(decode, log, v.jid, m);
      var i :| 0 <= i < |log| && Announces(decode, log[i], v.jid) && m in FactsOf(decode, log[i].e).expected.value;
      assert Announces(decode, (log + [c])[i], v.jid);
    }
  }

  lemma UpdateIsWarranted(decode: Option<Decoder>, log: seq<Call>, e: Event, v: JobVal)
    requires Warranted(decode, log, v) && v.jid == e.at.jid
    ensures var f := FactsOf(decode, e);
            Warranted(decode, log + [Call.Event(e)], Updated(v, e, f.expected, f.trimmed))
  {
    var f, c := FactsOf(decode, e), Call.Event(e);
    WarrantStays(decode, log, c, v);
    var v' := Updated(v, e, f.expected, f.trimmed);
    if e.at.kind.KindNew? && f.expected.Some? {
      assert Announces(decode, (log + [c])[|log|], v.jid);
      forall m | m in v'.expected
        ensures Targeted(decode, log + [c], v.jid, m)
      {
        if m !in v.expected {
          assert m in f.expected.value;
        }
      }
    }
  }

  ghost predicate AllWarranted(decode: Option<Decoder>, log: seq<Call>, entries: seq<Entry>) {
    forall i :: 0 <= i < |entries| ==> Warranted(decode, log, entries[i].job)
  }

  lemma SeenIsWarranted(lim: Limits, decode: Option<Decoder>, log: seq<Call>, ix: Index, e: Event)
    requires Sound(ix) && AllWarranted(decode, log, ix.entries)
    ensures var f := FactsOf(decode, e);
            AllWarranted(decode, log + [Call.Event(e)], Act(lim, ix, See(e, f.expected, f.trimmed)).entries)
  {
    var f, c := FactsOf(decode, e), Call.Event(e);
    forall i | 0 <= i < |ix.entries|
      ensures Warranted(decode, log + [c], ix.entries[i].job)
    {
      WarrantStays(decode, log, c, ix.entries[i].job);
    }
    if Concerns(e).Some? {
      var t := Touch(ix, e.at.jid);
      TouchIsSound(ix, e.at.jid);
      var i := Find(t.entries, e.at.jid);
      UpdateIsWarranted(decode, log, e, t.entries[i].job);
      var r := Recorded(ix, e.at.jid, e, f.expected, f.trimmed);
      assert AllWarranted(decode, log + [c], r.entries);
      EvictKeepsEntries(lim, r);
      var out := Evict(lim, r).entries;
      forall k | 0 <= k < |out|
        ensures Warranted(decode, log + [c], out[k].job)
      {
        assert out[k] in r.entries;
      }
    }
  }

  lemma FeedIsWarranted(lim: Limits, decode: Option<Decoder>, log: seq<Call>, s: State, c: Call)
    requires Sound(s.index) && AllWarranted(decode, log, s.index.entries)
    ensures AllWarranted(decode, log + [c], Feed(lim, decode, s, c).index.entries)
  {
    forall i | 0 <= i < |s.index.entries|
      ensures Warranted(decode, log + [c], s.index.entries[i].job)
    {
      WarrantStays(decode, log, c, s.index.entries[i].job);
    }
    if c.Event? {
      SeenIsWarranted(lim, decode, log, s.index, c.e);
    }
  }

  /** After any list of calls: a job whose targets are known had them listed in full by a new job's
      event, and no minion is expected that no such list named. */
  lemma {:induction false} TargetsAreNeverMadeUp(lim: Limits, decode: Option<Decoder>, log: seq<Call>)
    ensures AllWarranted(decode, log, Fold(lim, decode, log).index.entries)
  {
    if log != [] {
      var front := log[..|log| - 1];
      TargetsAreNeverMadeUp(lim, decode, front);
      FeedIsWarranted(lim, decode, front, Fold(lim, decode, front), log[|log| - 1]);
      assert log == front + [log[|log| - 1]];
    }
  }
}
