/** The event query of `internal/filter/filter.go`: terms that AND together, each a glob over one
    eagerly extracted field, a closed kind, or the outcome of a return. */
module Queries {
  import opened Basics
  import opened Events
  import opened Glob

  /** What a term is about; a bare term is about the tag. */
  datatype Field = Tag | Minion | Jid | Fun | Namespace | KindIs | Outcome

  /** The closed set of prefixes. */
  function FieldNamed(name: string): Option<Field> {
    if name == "minion" then Some(Minion)
    else if name == "jid" then Some(Jid)
    else if name == "fun" then Some(Fun)
    else if name == "ns" then Some(Namespace)
    else if name == "kind" then Some(KindIs)
    else if name == "ok" then Some(Outcome)
    else None
  }

  const KINDS := {"new", "ret", "prog", "start", "auth", "key", "presence", "other"}
  const MAX_TERMS := 64
  const MAX_GLOB_RUNES := 512

  /** `pattern` is absent when the value holds no metacharacter. */
  datatype Term = Term(field: Field, value: string, pattern: Option<seq<char>>)

  /** `raw` is the text as typed, trimmed. */
  datatype Query = Query(terms: seq<Term>, raw: string)

  datatype Error = TooManyTerms | UnknownField | NoValue | BadOutcome | UnknownKind | LongGlob | UnclosedClass

  datatype Result<+T> = Ok(value: T) | Err(error: Error)

  predicate IsMeta(c: char) {
    c == '*' || c == '?' || c == '['
  }

  ghost predicate HasMeta(v: seq<char>) {
    exists i :: 0 <= i < |v| && IsMeta(v[i])
  }

  function KindName(k: Kind): string {
    match k
    case KindNew => "new"
    case KindRet => "ret"
    case KindProg => "prog"
    case KindStart => "start"
    case KindAuth => "auth"
    case KindKey => "key"
    case KindPresence => "presence"
    case KindOther => "other"
  }

  // ---------------------------------------------------------------- what a query means

  /** The text a glob term is matched against. */
  function Subject(field: Field, e: Event): string {
    match field
    case Minion => e.at.minion
    case Jid => e.at.jid
    case Fun => e.at.fun
    case Namespace => e.at.namespace
    case _ => e.tag
  }

  /** A return succeeded or it did not; an event with no return answers neither. */
  predicate Succeeded(want: bool, e: Event) {
    e.at.hasRet && (want <==> e.at.retCode == 0 && e.at.success)
  }

  /** What a term asks of an event, whatever its compiled form. */
  ghost predicate Fits(field: Field, value: string, e: Event) {
    if field == KindIs then KindName(e.at.kind) == value
    else if field == Outcome then Succeeded(value == "true", e)
    else Matches(Tokens(value), Subject(field, e))
  }

  /** What a query asks of an event. */
  ghost predicate Selects(q: Query, e: Event) {
    forall t :: t in q.terms ==> Fits(t.field, t.value, e)
  }

  // ---------------------------------------------------------------- what the parser accepts

  ghost predicate GoodGlob(v: string) {
    HasMeta(v) ==> |v| <= MAX_GLOB_RUNES && WellFormed(v)
  }

  ghost predicate GoodTerm(field: Field, value: string) {
    if field == Outcome then value == "true" || value == "false"
    else if field == KindIs then value in KINDS
    else GoodGlob(value) && (field == Tag || value != "")
  }

  /** What the parser leaves in a term. */
  ghost predicate Compiled(t: Term) {
    && GoodTerm(t.field, t.value)
    && (if t.field != KindIs && t.field != Outcome && HasMeta(t.value) then t.pattern == Some(t.value)
        else t.pattern == None)
  }

  ghost predicate CompiledQuery(q: Query) {
    |q.terms| <= MAX_TERMS && forall t :: t in q.terms ==> Compiled(t)
  }

  /** The index of the first ":" at or after `i`, or the length. */
  function Colon(f: string, i: nat): (r: nat)
    requires i <= |f|
    ensures i <= r <= |f| && (r < |f| ==> f[r] == ':')
    ensures forall k :: i <= k < r ==> f[k] != ':'
    decreases |f| - i
  {
    if i == |f| || f[i] == ':' then i else Colon(f, i + 1)
  }

  /** The field a word is about, if it names one. */
  function FieldOf(f: string): Option<Field> {
    if Colon(f, 0) == |f| then Some(Tag) else FieldNamed(f[..Colon(f, 0)])
  }

  function ValueOf(f: string): string {
    if Colon(f, 0) == |f| then f else f[Colon(f, 0) + 1..]
  }

  /** A word with a ":" must name one of the six fields; one without is a glob over the tag. */
  ghost predicate GoodWord(f: string) {
    FieldOf(f).Some? && GoodTerm(FieldOf(f).value, ValueOf(f))
  }

  /** What is wrong with a value. */
  function Fault(field: Field, value: string): Error {
    match field
    case Outcome => BadOutcome
    case KindIs => UnknownKind
    case _ => if |value| > MAX_GLOB_RUNES then LongGlob else UnclosedClass
  }

  /** What is wrong with a word. */
  function WordFault(f: string): Error {
    if FieldOf(f).None? then UnknownField
    else if FieldOf(f) != Some(Tag) && ValueOf(f) == "" then NoValue
    else Fault(FieldOf(f).value, ValueOf(f))
  }

  method ParseTerm(f: string) returns (r: Result<Term>)
    ensures r.Ok? <==> GoodWord(f)
    ensures r.Err? ==> r.error == WordFault(f)
    ensures r.Ok? ==> Means(f, r.value)
  {
    var i := Colon(f, 0);
    if i == |f| {
      r := CompileGlob(Tag, f);
      return;
    }
    var field, value := FieldNamed(f[..i]), f[i + 1..];
    if field == None {
      return Err(UnknownField);
    }
    if value == "" {
      return Err(NoValue);
    }
    r := ParseFieldTerm(field.value, value);
  }

  method ParseFieldTerm(field: Field, value: string) returns (r: Result<Term>)
    requires field != Tag && value != ""
    ensures r.Ok? <==> GoodTerm(field, value)
    ensures r.Err? ==> r.error == Fault(field, value)
    ensures r.Ok? ==> Compiled(r.value) && r.value.field == field && r.value.value == value
  {
    if field == Outcome {
      if value != "true" && value != "false" {
        return Err(BadOutcome);
      }
    } else if field == KindIs {
      if value !in KINDS {
        return Err(UnknownKind);
      }
    } else {
      r := CompileGlob(field, value);
      return;
    }
    return Ok(Term(field, value, None));
  }

  method CompileGlob(field: Field, value: string) returns (r: Result<Term>)
    requires field != Outcome && field != KindIs
    ensures r.Ok? <==> GoodGlob(value)
    ensures r.Err? ==> r.error == Fault(field, value)
    ensures r.Ok? ==> r.value == Term(field, value, if HasMeta(value) then Some(value) else None)
  {
    var meta := ContainsMeta(value);
    if !meta {
      return Ok(Term(field, value, None));
    }
    if |value| > MAX_GLOB_RUNES {
      return Err(LongGlob);
    }
    var good := ValidateGlob(value);
    return if good then Ok(Term(field, value, Some(value))) else Err(UnclosedClass);
  }

  method ContainsMeta(v: string) returns (r: bool)
    ensures r <==> HasMeta(v)
  {
    for i := 0 to |v|
      invariant forall k :: 0 <= k < i ==> !IsMeta(v[k])
    {
      if IsMeta(v[i]) {
        return true;
      }
    }
    return false;
  }

  // ---------------------------------------------------------------- words

  predicate IsSpace(c: char) {
    var n := c as int;
    9 <= n <= 13 || n == 0x20 || n == 0x85 || n == 0xA0 || n == 0x1680 || 0x2000 <= n <= 0x200A
    || n == 0x2028 || n == 0x2029 || n == 0x202F || n == 0x205F || n == 0x3000
  }

  /** The end of the word, or of the gap, that goes on at `i`. */
  function RunEnd(s: string, i: nat, space: bool): (r: nat)
    requires i <= |s|
    ensures i <= r <= |s| && (r < |s| ==> IsSpace(s[r]) != space)
    decreases |s| - i
  {
    if i < |s| && IsSpace(s[i]) == space then RunEnd(s, i + 1, space) else i
  }

  lemma {:induction false} RunIsAlike(s: string, i: nat, space: bool, k: nat)
    requires i <= |s| && i <= k < RunEnd(s, i, space)
    ensures IsSpace(s[k]) == space
    decreases |s| - i
  {
    if i < k {
      RunIsAlike(s, i + 1, space, k);
    }
  }

  /** The words of a text from index `i` on: the longest runs without a space. */
  function WordsFrom(s: string, i: nat): seq<string>
    requires i <= |s|
    decreases |s| - i
  {
    var from := RunEnd(s, i, true);
    if from == |s| then [] else [s[from..RunEnd(s, from, false)]] + WordsFrom(s, RunEnd(s, from, false))
  }

  function Words(s: string): seq<string> {
    WordsFrom(s, 0)
  }

  /** Splits a text into its words. */
  method Fields(s: string) returns (words: seq<string>)
    ensures words == Words(s)
  {
    words := [];
    var i := SkipRun(s, 0, true);
    assert Words(s) == words + WordsAt(s, i);
    while i < |s|
      invariant i <= |s| && (i < |s| ==> !IsSpace(s[i]))
      invariant Words(s) == words + WordsAt(s, i)
      decreases |s| - i
    {
      var end := SkipRun(s, i, false);
      words := words + [s[i..end]];
      i := SkipRun(s, end, true);
    }
  }

  /** The words from the beginning of one, or from the end of the text. */
  function WordsAt(s: string, from: nat): seq<string>
    requires from <= |s| && (from < |s| ==> !IsSpace(s[from]))
  {
    if from == |s| then [] else [s[from..RunEnd(s, from, false)]] + WordsFrom(s, RunEnd(s, from, false))
  }

  method SkipRun(s: string, i: nat, space: bool) returns (r: nat)
    requires i <= |s|
    ensures r == RunEnd(s, i, space)
  {
    r := i;
    while r < |s| && IsSpace(s[r]) == space
      invariant i <= r <= |s| && RunEnd(s, r, space) == RunEnd(s, i, space)
    {
      r := r + 1;
    }
  }

  /** One past the last character at or before `n` that is not a space, or 0. */
  function LastEnd(s: string, n: nat): (r: nat)
    requires n <= |s|
    ensures r <= n && (r > 0 ==> !IsSpace(s[r - 1]))
  {
    if n > 0 && IsSpace(s[n - 1]) then LastEnd(s, n - 1) else n
  }

  lemma {:induction false} LastEndIsSpace(s: string, n: nat, k: nat)
    requires n <= |s| && LastEnd(s, n) <= k < n
    ensures IsSpace(s[k])
  {
    if k < n - 1 {
      LastEndIsSpace(s, n - 1, k);
    }
  }

  /** The text without spaces at either end. */
  function Trim(s: string): string {
    var from, to := RunEnd(s, 0, true), LastEnd(s, |s|);
    if from < to then s[from..to] else ""
  }

  lemma {:induction false} RunOfPart(s: string, from: nat, to: nat, i: nat, space: bool)
    requires from + i <= to <= |s| && (!space ==> to == |s| || IsSpace(s[to]))
    requires space ==> (from + i < to ==> !IsSpace(s[to - 1]))
    ensures from + RunEnd(s[from..to], i, space) == (if from + i == to && space then to else RunEnd(s, from + i, space))
    decreases |s| - i
  {
    if from + i < to && IsSpace(s[from + i]) == space {
      RunOfPart(s, from, to, i + 1, space);
    }
  }

  /** Everything after `to` is space, and the part before it ends in a word. */
  ghost predicate EndsWithWord(s: string, from: nat, to: nat) {
    from <= to <= |s| && (from < to ==> !IsSpace(s[to - 1])) && forall k :: to <= k < |s| ==> IsSpace(s[k])
  }

  lemma NextWord(s: string, t: string, from: nat, to: nat, i: nat) returns (start: nat, end: nat)
    requires EndsWithWord(s, from, to) && from + i < to && t == s[from..to]
    ensures i <= start < end <= |t| == to - from
    ensures start == RunEnd(t, i, true) && end == RunEnd(t, start, false)
    ensures from + start == RunEnd(s, from + i, true) && from + end == RunEnd(s, from + start, false)
  {
    start := RunEnd(t, i, true);
    if start == |t| {
      RunIsAlike(t, i, true, |t| - 1);
    }
    RunOfPart(s, from, to, i, true);
    end := RunEnd(t, start, false);
    RunOfPart(s, from, to, start, false);
  }

  lemma {:induction false} SpaceToTheEnd(s: string, i: nat)
    requires i <= |s| && forall k :: i <= k < |s| ==> IsSpace(s[k])
    ensures RunEnd(s, i, true) == |s|
    decreases |s| - i
  {
    if i < |s| {
      SpaceToTheEnd(s, i + 1);
    }
  }

  lemma NoMoreWords(s: string, t: string, from: nat, to: nat)
    requires EndsWithWord(s, from, to) && t == s[from..to]
    ensures WordsFrom(s, to) == [] && WordsFrom(t, |t|) == []
  {
    SpaceToTheEnd(s, to);
  }

  /** A part of a text that begins anywhere and leaves out only spaces at the end has the same words. */
  lemma {:induction false} WordsOfPart(s: string, t: string, from: nat, to: nat, i: nat)
    requires EndsWithWord(s, from, to) && from + i <= to && t == s[from..to]
    ensures WordsFrom(t, i) == WordsFrom(s, from + i)
    decreases |t| - i
  {
    if from + i == to {
      NoMoreWords(s, t, from, to);
    } else {
      var end, word := SameWord(s, t, from, to, i);
      WordsOfPart(s, t, from, to, end);
    }
  }

  lemma SameWord(s: string, t: string, from: nat, to: nat, i: nat) returns (end: nat, word: string)
    requires EndsWithWord(s, from, to) && from + i < to && t == s[from..to]
    ensures i < end <= |t| == to - from
    ensures WordsFrom(t, i) == [word] + WordsFrom(t, end)
    ensures WordsFrom(s, from + i) == [word] + WordsFrom(s, from + end)
  {
    var start;
    start, end := NextWord(s, t, from, to, i);
    word := s[from + start..from + end];
    SliceOfPart(s, from, to, start, end);
    FirstWord(t, i, start, end, word);
    FirstWord(s, from + i, from + start, from + end, word);
  }

  lemma SliceOfPart(s: string, from: nat, to: nat, start: nat, end: nat)
    requires start <= end && from + end <= to <= |s|
    ensures s[from..to][start..end] == s[from + start..from + end]
  {
    var part, whole := s[from..to][start..end], s[from + start..from + end];
    forall k | 0 <= k < |whole|
      ensures part[k] == whole[k]
    {
      assert s[from..to][start + k] == s[from + start + k];
    }
  }

  lemma FirstWord(s: string, i: nat, start: nat, end: nat, word: string)
    requires i <= start < |s| && start == RunEnd(s, i, true) && end == RunEnd(s, start, false) && word == s[start..end]
    ensures WordsFrom(s, i) == [word] + WordsFrom(s, end)
  {}

  /** Trimming changes no word. */
  lemma TrimKeepsWords(s: string)
    ensures Words(Trim(s)) == Words(s)
  {
    var from, to := RunEnd(s, 0, true), LastEnd(s, |s|);
    assert RunEnd(s, from, true) == from;
    assert Words(s) == WordsFrom(s, from);
    if from < to {
      forall k | to <= k < |s| ensures IsSpace(s[k]) {
        LastEndIsSpace(s, |s|, k);
      }
      WordsOfPart(s, s[from..to], from, to, 0);
    } else {
      if from < |s| {
        LastEndIsSpace(s, |s|, from);
      }
      assert Words("") == [];
    }
  }

  lemma TrimTwice(s: string)
    ensures Trim(Trim(s)) == Trim(s)
  {
    var t := Trim(s);
    if t != "" {
      assert !IsSpace(t[0]) && !IsSpace(t[|t| - 1]);
      assert RunEnd(t, 0, true) == 0 && LastEnd(t, |t|) == |t|;
      assert t[0..|t|] == t;
    }
  }

  /** Words are what spaces divide: a text without spaces is one word, and a text with a space in it has
      the words of what stands before and after. */
  lemma OneWord(w: string)
    requires w != "" && forall i :: 0 <= i < |w| ==> !IsSpace(w[i])
    ensures Words(w) == [w] && Words("") == []
  {
    WordToTheEnd(w, 0);
    assert RunEnd(w, 0, true) == 0;
    assert w[0..|w|] == w;
    assert WordsFrom(w, |w|) == [];
  }

  lemma {:induction false} WordToTheEnd(s: string, i: nat)
    requires i <= |s| && forall k :: i <= k < |s| ==> !IsSpace(s[k])
    ensures RunEnd(s, i, false) == |s|
    decreases |s| - i
  {
    if i < |s| {
      WordToTheEnd(s, i + 1);
    }
  }

  lemma {:induction false} RunBefore(a: string, rest: string, i: nat, space: bool)
    requires i <= |a| && rest != "" && IsSpace(rest[0])
    ensures !space || RunEnd(a, i, space) < |a| ==> RunEnd(a + rest, i, space) == RunEnd(a, i, space)
    decreases |a| - i
  {
    var s := a + rest;
    assert i < |a| ==> s[i] == a[i];
    assert s[|a|] == rest[0];
    if i < |a| && IsSpace(a[i]) == space {
      RunBefore(a, rest, i + 1, space);
    }
  }

  lemma {:induction false} RunAfter(a: string, rest: string, i: nat, space: bool)
    requires i <= |rest|
    ensures RunEnd(a + rest, |a| + i, space) == |a| + RunEnd(rest, i, space)
    decreases |rest| - i
  {
    if i < |rest| {
      assert (a + rest)[|a| + i] == rest[i];
      RunAfter(a, rest, i + 1, space);
    }
  }

  /** If only spaces are left of the first part, the run goes on into the second. */
  lemma {:induction false} RunAcross(a: string, rest: string, i: nat)
    requires i <= |a| && RunEnd(a, i, true) == |a|
    ensures RunEnd(a + rest, i, true) == |a| + RunEnd(rest, 0, true)
    decreases |a| - i
  {
    if i < |a| {
      assert (a + rest)[i] == a[i];
      RunAcross(a, rest, i + 1);
    } else {
      RunAfter(a, rest, 0, true);
    }
  }

  lemma WordAfter(a: string, rest: string, i: nat) returns (end: nat, word: string)
    requires i <= |rest| && RunEnd(rest, i, true) < |rest|
    ensures i < end <= |rest|
    ensures WordsFrom(rest, i) == [word] + WordsFrom(rest, end)
    ensures WordsFrom(a + rest, |a| + i) == [word] + WordsFrom(a + rest, |a| + end)
  {
    var start := RunEnd(rest, i, true);
    RunAfter(a, rest, i, true);
    RunAfter(a, rest, start, false);
    end := RunEnd(rest, start, false);
    word := rest[start..end];
    SliceAfter(a, rest, start, end);
    FirstWord(rest, i, start, end, word);
    FirstWord(a + rest, |a| + i, |a| + start, |a| + end, word);
  }

  lemma {:induction false} WordsAfter(a: string, rest: string, i: nat)
    requires i <= |rest|
    ensures WordsFrom(a + rest, |a| + i) == WordsFrom(rest, i)
    decreases |rest| - i
  {
    if RunEnd(rest, i, true) < |rest| {
      var end, word := WordAfter(a, rest, i);
      WordsAfter(a, rest, end);
    } else {
      RunAfter(a, rest, i, true);
    }
  }

  lemma SliceAfter(a: string, rest: string, start: nat, end: nat)
    requires start <= end <= |rest|
    ensures (a + rest)[|a| + start..|a| + end] == rest[start..end]
  {}

  lemma {:induction false} WordsAround(a: string, rest: string, i: nat)
    requires i <= |a| && rest != "" && IsSpace(rest[0])
    ensures WordsFrom(a + rest, i) == WordsFrom(a, i) + Words(rest)
    decreases |a| - i
  {
    var start := RunEnd(a, i, true);
    if start == |a| {
      RunAcross(a, rest, i);
      RunAfter(a, rest, 0, true);
      WordsFromRun(a + rest, i, |a|);
      WordsAfter(a, rest, 0);
      assert WordsFrom(a, i) == [];
    } else {
      RunBefore(a, rest, i, true);
      RunBefore(a, rest, start, false);
      var end := RunEnd(a, start, false);
      assert (a + rest)[start..end] == a[start..end];
      FirstWord(a, i, start, end, a[start..end]);
      FirstWord(a + rest, i, start, end, a[start..end]);
      WordsAround(a, rest, end);
      Associates([a[start..end]], WordsFrom(a, end), Words(rest));
    }
  }

  /** Skipping part of a gap changes no word. */
  lemma WordsFromRun(s: string, i: nat, j: nat)
    requires i <= j <= |s| && RunEnd(s, i, true) == RunEnd(s, j, true)
    ensures WordsFrom(s, i) == WordsFrom(s, j)
  {}

  lemma SpaceDivides(a: string, space: char, b: string)
    requires IsSpace(space)
    ensures Words(a + ([space] + b)) == Words(a) + Words(b)
  {
    var rest := [space] + b;
    WordsAround(a, rest, 0);
    assert RunEnd(rest, 0, true) == RunEnd(rest, 1, true);
    WordsFromRun(rest, 0, 1);
    WordsAfter([space], b, 0);
  }

  lemma InThree(s: string, from: nat, to: nat)
    requires from <= to <= |s|
    ensures s == s[..from] + s[from..to] + s[to..]
  {}

  lemma TrimEnds(s: string)
    ensures var t := Trim(s); t != "" ==> !IsSpace(t[0]) && !IsSpace(t[|t| - 1])
  {}

  /** Trimming takes away spaces at both ends, and all of them. */
  lemma TrimIs(s: string) returns (front: string, back: string)
    ensures s == front + Trim(s) + back
    ensures forall i :: 0 <= i < |front| ==> IsSpace(front[i])
    ensures forall i :: 0 <= i < |back| ==> IsSpace(back[i])
    ensures var t := Trim(s); t != "" ==> !IsSpace(t[0]) && !IsSpace(t[|t| - 1])
  {
    TrimEnds(s);
    var from, to := RunEnd(s, 0, true), LastEnd(s, |s|);
    front, back := s, "";
    if from < to {
      InThree(s, from, to);
      front, back := s[..from], s[to..];
    }
    forall i | 0 <= i < |front|
      ensures IsSpace(front[i])
    {
      if i < from {
        RunIsAlike(s, 0, true, i);
      } else {
        LastEndIsSpace(s, |s|, i);
      }
    }
    forall i | 0 <= i < |back|
      ensures IsSpace(back[i])
    {
      LastEndIsSpace(s, |s|, to + i);
    }
  }

  // ---------------------------------------------------------------- whole queries

  /** The error is that of the first word that is not good. */
  ghost predicate FirstFault(words: seq<string>, error: Error) {
    exists k :: 0 <= k < |words|
      && !GoodWord(words[k]) && error == WordFault(words[k])
      && forall j :: 0 <= j < k ==> GoodWord(words[j])
  }

  /** The term a word compiles to. */
  ghost predicate Means(f: string, t: Term) {
    Compiled(t) && Some(t.field) == FieldOf(f) && t.value == ValueOf(f)
  }

  ghost predicate GoodText(s: string) {
    |Words(s)| <= MAX_TERMS && forall k :: 0 <= k < |Words(s)| ==> GoodWord(Words(s)[k])
  }

  /** The query a text compiles to: a term for each of its words, in order. */
  ghost predicate ParsesTo(s: string, q: Query) {
    && q.raw == Trim(s) && |q.terms| == |Words(s)| <= MAX_TERMS
    && forall k :: 0 <= k < |q.terms| ==> Means(Words(s)[k], q.terms[k])
  }

  /** Compiles a query. Either every word is good and every term is kept, or the whole query is refused. */
  method Parse(s: string) returns (r: Result<Query>)
    ensures r.Ok? <==> GoodText(s)
    ensures r.Ok? ==> ParsesTo(s, r.value)
    ensures r.Err? && |Words(s)| > MAX_TERMS ==> r.error == TooManyTerms
    ensures r.Err? && |Words(s)| <= MAX_TERMS ==> FirstFault(Words(s), r.error)
  {
    var words := Fields(s);
    if |words| > MAX_TERMS {
      return Err(TooManyTerms);
    }
    var terms := [];
    for i := 0 to |words|
      invariant |terms| == i
      invariant forall k :: 0 <= k < i ==> GoodWord(words[k])
      invariant forall k :: 0 <= k < i ==> Means(words[k], terms[k])
    {
      var t := ParseTerm(words[i]);
      if t.Err? {
        return Err(t.error);
      }
      terms := terms + [t.value];
    }
    return Ok(Query(terms, Trim(s)));
  }

  /** What the parser accepts may be matched. */
  lemma ParsedIsCompiled(s: string, q: Query)
    requires ParsesTo(s, q)
    ensures CompiledQuery(q)
  {
    forall t | t in q.terms ensures Compiled(t) {
      var k :| 0 <= k < |q.terms| && q.terms[k] == t;
      assert Means(Words(s)[k], q.terms[k]);
    }
  }

  /** The text a query shows compiles to that very query, and to no other. */
  lemma ShownTextReparses(s: string, q: Query)
    requires ParsesTo(s, q)
    ensures ParsesTo(q.raw, q) && forall other :: ParsesTo(q.raw, other) ==> other == q
  {
    TrimKeepsWords(s);
    TrimTwice(s);
    forall other | ParsesTo(q.raw, other)
      ensures other == q
    {
      forall k | 0 <= k < |q.terms|
        ensures other.terms[k] == q.terms[k]
      {
        assert Means(Words(s)[k], q.terms[k]) && Means(Words(q.raw)[k], other.terms[k]);
      }
    }
  }

  // ---------------------------------------------------------------- matching

  /** Every term is satisfied. */
  method Match(q: Query, e: Event) returns (r: bool)
    requires CompiledQuery(q)
    ensures r <==> Selects(q, e)
  {
    for i := 0 to |q.terms|
      invariant forall k :: 0 <= k < i ==> Fits(q.terms[k].field, q.terms[k].value, e)
    {
      var t := q.terms[i];
      var fits := MatchTerm(t, e);
      if !fits {
        return false;
      }
    }
    return true;
  }

  method MatchTerm(t: Term, e: Event) returns (r: bool)
    requires Compiled(t)
    ensures r <==> Fits(t.field, t.value, e)
  {
    if t.field == Tag {
      r := GlobMatch(t, e.tag);
    } else if t.field == Minion {
      r := GlobMatch(t, e.at.minion);
    } else if t.field == Jid {
      r := GlobMatch(t, e.at.jid);
    } else if t.field == Fun {
      r := GlobMatch(t, e.at.fun);
    } else if t.field == Namespace {
      r := GlobMatch(t, e.at.namespace);
    } else if t.field == KindIs {
      return KindName(e.at.kind) == t.value;
    } else {
      return Succeeded(t.value == "true", e);
    }
  }

  /** The literal fast path means what the glob would. */
  method GlobMatch(t: Term, s: string) returns (r: bool)
    requires Compiled(t) && t.field != KindIs && t.field != Outcome
    ensures r <==> Matches(Tokens(t.value), s)
  {
    if t.pattern == None {
      LiteralIsGlob(t.value, s);
      return t.value == s;
    }
    ghost var turns, work, starts;
    r, turns, work, starts := Fnmatch(t.pattern.value, s);
  }

  // ---------------------------------------------------------------- laws

  lemma {:induction false} LiteralFrom(v: seq<char>, i: nat, s: seq<char>, t: nat, j: nat)
    requires !HasMeta(v) && i <= |v| && t + |TokensFrom(v, i)| == |Tokens(v)| && Tokens(v)[t..] == TokensFrom(v, i)
    ensures MatchFrom(Tokens(v), t, s, j) <==> j <= |s| && s[j..] == v[i..]
    decreases |v| - i
  {
    if i < |v| {
      assert Tokens(v)[t..][1..] == Tokens(v)[t + 1..];
      assert Tokens(v)[t] == Lit(v[i]) by {
        assert Tokens(v)[t] == TokensFrom(v, i)[0];
      }
      LiteralFrom(v, i + 1, s, t + 1, j + 1);
      if j < |s| {
        assert s[j..] == [s[j]] + s[j + 1..];
        assert v[i..] == [v[i]] + v[i + 1..];
      }
    }
  }

  /** A value without metacharacters, read as a glob, matches itself and nothing else. */
  lemma LiteralIsGlob(v: seq<char>, s: seq<char>)
    requires !HasMeta(v)
    ensures Matches(Tokens(v), s) <==> v == s
  {
    LiteralFrom(v, 0, s, 0, 0);
    assert s[0..] == s && v[0..] == v && Tokens(v)[0..] == Tokens(v);
    MatchFromIsMatches(Tokens(v), s);
  }

  /** Filtering never looks at a payload. */
  lemma PayloadIsNotRead(q: Query, e: Event, f: Event)
    requires e.tag == f.tag && e.at == f.at
    ensures Selects(q, e) <==> Selects(q, f)
  {
    forall t | t in q.terms ensures Fits(t.field, t.value, e) <==> Fits(t.field, t.value, f) {}
  }

  lemma SelectsMore(terms: seq<Term>, raw: string, t: Term, e: Event)
    ensures Selects(Query(terms + [t], raw), e) <==> Selects(Query(terms, raw), e) && Fits(t.field, t.value, e)
  {
    if Selects(Query(terms + [t], raw), e) {
      forall u | u in terms ensures Fits(u.field, u.value, e) {
        assert u in terms + [t];
      }
      assert t in terms + [t];
    }
  }

  /** Asking further for success and asking further for failure divide what a query selects, as far as
      it has returned: an event with no return answers neither. */
  lemma OutcomeTermsSplit(terms: seq<Term>, raw: string, e: Event)
    ensures var ok, bad := Term(Outcome, "true", None), Term(Outcome, "false", None);
            && (Selects(Query(terms, raw), e) && e.at.hasRet <==>
                  Selects(Query(terms + [ok], raw), e) || Selects(Query(terms + [bad], raw), e))
            && !(Selects(Query(terms + [ok], raw), e) && Selects(Query(terms + [bad], raw), e))
  {
    SelectsMore(terms, raw, Term(Outcome, "true", None), e);
    SelectsMore(terms, raw, Term(Outcome, "false", None), e);
  }

  // ---------------------------------------------------------------- what words are accepted

  /** Of prefixed words: ok: takes true and false, kind: the eight kinds, and the other four fields any
      value that is not empty, as long as it is no bad glob. An unknown field is refused. */
  lemma GoodPrefixedWords(name: string, field: Field, x: string)
    requires FieldNamed(name) == Some(field) && forall i :: 0 <= i < |name| ==> name[i] != ':'
    ensures field == Outcome ==> (GoodWord(name + (":" + x)) <==> x == "true" || x == "false")
    ensures field == KindIs ==>
              (GoodWord(name + (":" + x)) <==>
                 x in {"new", "ret", "prog", "start", "auth", "key", "presence", "other"})
    ensures field != Outcome && field != KindIs ==> (GoodWord(name + (":" + x)) <==> x != "" && GoodGlob(x))
  {
    PrefixedWord(name, x);
  }

  lemma UnknownFieldsAreRefused(name: string, x: string)
    requires forall i :: 0 <= i < |name| ==> name[i] != ':'
    requires name !in {"minion", "jid", "fun", "ok", "ns", "kind"}
    ensures !GoodWord(name + (":" + x))
  {
    PrefixedWord(name, x);
  }

  /** A bad glob holds a metacharacter and is longer than 512 runes or leaves a bracket open. */
  lemma BadGlobs(x: string)
    ensures GoodGlob(x) <==>
              (forall i :: 0 <= i < |x| ==> x[i] != '*' && x[i] != '?' && x[i] != '[')
              || (|x| <= 512 && Lit('[') !in Tokens(x))
  {}

  // ---------------------------------------------------------------- what words select

  /** What a word asks of an event. */
  ghost predicate WordFits(word: string, e: Event) {
    FieldOf(word).Some? && Fits(FieldOf(word).value, ValueOf(word), e)
  }

  lemma {:induction false} ColonIsFirst(f: string, i: nat, at: nat)
    requires i <= at < |f| && f[at] == ':' && forall k :: i <= k < at ==> f[k] != ':'
    ensures Colon(f, i) == at
    decreases at - i
  {
    if i < at {
      ColonIsFirst(f, i + 1, at);
    }
  }

  /** The first ":" of a word ends the name of its field; what follows is the value, ":" and all. */
  lemma PrefixedWord(name: string, x: string)
    requires forall i :: 0 <= i < |name| ==> name[i] != ':'
    ensures FieldOf(name + (":" + x)) == FieldNamed(name) && ValueOf(name + (":" + x)) == x
  {
    var f := name + (":" + x);
    assert f[|name|] == ':' && forall k :: 0 <= k < |name| ==> f[k] == name[k];
    ColonIsFirst(f, 0, |name|);
    assert f[..|name|] == name && f[|name| + 1..] == x;
  }

  lemma NamesOfFields()
    ensures FieldNamed("minion") == Some(Minion) && FieldNamed("jid") == Some(Jid) && FieldNamed("fun") == Some(Fun)
    ensures FieldNamed("ns") == Some(Namespace) && FieldNamed("kind") == Some(KindIs)
    ensures FieldNamed("ok") == Some(Outcome)
  {}

  /** A prefixed word without metacharacters selects the events whose field is that very text. */
  lemma FieldWordsSelect(x: string, e: Event)
    requires !HasMeta(x)
    ensures WordFits("minion" + (":" + x), e) <==> e.at.minion == x
    ensures WordFits("jid" + (":" + x), e) <==> e.at.jid == x
    ensures WordFits("fun" + (":" + x), e) <==> e.at.fun == x
    ensures WordFits("ns" + (":" + x), e) <==> e.at.namespace == x
  {
    NamesOfFields();
    FieldWord("minion", Minion, x, e, e.at.minion);
    FieldWord("jid", Jid, x, e, e.at.jid);
    FieldWord("fun", Fun, x, e, e.at.fun);
    FieldWord("ns", Namespace, x, e, e.at.namespace);
  }

  lemma FieldWord(name: string, field: Field, x: string, e: Event, text: string)
    requires !HasMeta(x) && FieldNamed(name) == Some(field) && (forall i :: 0 <= i < |name| ==> name[i] != ':')
    requires field != KindIs && field != Outcome && Subject(field, e) == text
    ensures WordFits(name + (":" + x), e) <==> text == x
  {
    PrefixedWord(name, x);
    LiteralIsGlob(x, text);
  }

  /** A bare word without metacharacters selects the events with that tag. */
  lemma BareWordSelects(x: string, e: Event)
    requires !HasMeta(x) && forall i :: 0 <= i < |x| ==> x[i] != ':'
    ensures WordFits(x, e) <==> e.tag == x
  {
    assert Colon(x, 0) == |x|;
    LiteralIsGlob(x, e.tag);
  }

  lemma NamesOfKinds()
    ensures KindName(KindNew) == "new" && KindName(KindRet) == "ret" && KindName(KindProg) == "prog"
    ensures KindName(KindStart) == "start" && KindName(KindAuth) == "auth" && KindName(KindKey) == "key"
    ensures KindName(KindPresence) == "presence" && KindName(KindOther) == "other"
  {}

  /** A kind word selects the events of the kind it names. */
  lemma KindWordSelects(kind: Kind, e: Event)
    ensures WordFits("kind" + (":" + KindName(kind)), e) <==> e.at.kind == kind
  {
    NamesOfFields();
    PrefixedWord("kind", KindName(kind));
    KindNamesDiffer(kind, e.at.kind);
  }

  lemma KindNamesDiffer(k: Kind, l: Kind)
    ensures KindName(k) == KindName(l) ==> k == l
  {
    var a, b := KindName(k), KindName(l);
    if a == b {
      assert |a| == |b| && a[0] == b[0];
      assert |a| > 1 ==> a[1] == b[1];
      assert |a| > 2 ==> a[2] == b[2];
    }
  }

  /** An outcome word selects the returns that succeeded, or those that did not. */
  lemma OutcomeWordsSelect(e: Event)
    ensures WordFits("ok" + (":" + "true"), e) <==> e.at.hasRet && e.at.retCode == 0 && e.at.success
    ensures WordFits("ok" + (":" + "false"), e) <==> e.at.hasRet && !(e.at.retCode == 0 && e.at.success)
  {
    NamesOfFields();
    PrefixedWord("ok", "true");
    PrefixedWord("ok", "false");
  }
}
