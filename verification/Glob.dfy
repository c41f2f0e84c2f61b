/** The glob engine of `internal/filter/glob.go`: Python's fnmatch, matched by a scan
    that remembers only the last star. */
module Glob {
  import opened Basics

  // ---------------------------------------------------------------- pattern syntax

  /** One element of a pattern. `Lit('[')` arises only from an unterminated bracket. */
  datatype Token = Star | Any | Class(negated: bool, body: seq<char>) | Lit(c: char)

  /** One member of a bracket body. */
  datatype Item = Single(c: char) | Range(lo: char, hi: char)

  predicate InItem(it: Item, c: char) {
    match it
    case Single(x) => x == c
    case Range(lo, hi) => lo <= c <= hi
  }

  /** The members of a bracket body from index `i` on: a "-" is a range only with a rune on each side. */
  function Items(body: seq<char>, i: nat): seq<Item>
    decreases |body| - i
  {
    if i >= |body| then []
    else if i + 2 < |body| && body[i + 1] == '-' then [Range(body[i], body[i + 2])] + Items(body, i + 3)
    else [Single(body[i])] + Items(body, i + 1)
  }

  predicate InItems(items: seq<Item>, c: char) {
    if items == [] then false else InItem(items[0], c) || InItems(items[1..], c)
  }

  predicate Has(body: seq<char>, c: char) {
    InItems(Items(body, 0), c)
  }

  /** The least index at or after `i` holding "]", or -1. */
  function FindClose(p: seq<char>, i: nat): (r: int)
    ensures r == -1 || i <= r < |p|
    decreases |p| - i
  {
    if i >= |p| then -1 else if p[i] == ']' then i else FindClose(p, i + 1)
  }

  lemma {:induction false} FindCloseIsLeast(p: seq<char>, i: nat)
    ensures var r := FindClose(p, i);
            && (r >= 0 ==> p[r] == ']')
            && forall k :: i <= k < (if r >= 0 then r else |p|) ==> p[k] != ']'
    decreases |p| - i
  {
    if i < |p| && p[i] != ']' {
      FindCloseIsLeast(p, i + 1);
    }
  }

  /** A class takes exactly the runes that some member of it covers. */
  lemma {:induction false} SomeItemCovers(items: seq<Item>, c: char)
    ensures InItems(items, c) <==> exists i :: 0 <= i < |items| && InItem(items[i], c)
  {
    if items != [] {
      var rest := items[1..];
      SomeItemCovers(rest, c);
      if InItems(rest, c) {
        var i :| 0 <= i < |rest| && InItem(rest[i], c);
        assert items[i + 1] == rest[i];
      }
      forall i | 0 < i < |items| && InItem(items[i], c)
        ensures InItem(rest[i - 1], c)
      {}
    }
  }

  /** Where the search for the closing bracket starts: past a "!" and then past a literal "]". */
  function BodyStart(p: seq<char>, pi: nat): nat {
    var i := pi + 1;
    var j := if i < |p| && p[i] == '!' then i + 1 else i;
    if j < |p| && p[j] == ']' then j + 1 else j
  }

  /** Index of the "]" closing the bracket opened at `pi`, or -1. */
  function CloseOf(p: seq<char>, pi: nat): int {
    FindClose(p, BodyStart(p, pi))
  }

  function TokenAt(p: seq<char>, i: nat): Token
    requires i < |p|
  {
    if p[i] == '*' then Star
    else if p[i] == '?' then Any
    else if p[i] == '[' && CloseOf(p, i) >= 0 then
      var negated := p[i + 1] == '!';
      Class(negated, p[if negated then i + 2 else i + 1 .. CloseOf(p, i)])
    else Lit(p[i])
  }

  function NextAt(p: seq<char>, i: nat): nat
    requires i < |p|
    ensures i < NextAt(p, i) <= |p|
  {
    if p[i] == '[' && CloseOf(p, i) >= 0 then CloseOf(p, i) + 1 else i + 1
  }

  /** The tokens of the pattern from index `i` on. */
  function TokensFrom(p: seq<char>, i: nat): seq<Token>
    decreases |p| - i
  {
    if i >= |p| then [] else [TokenAt(p, i)] + TokensFrom(p, NextAt(p, i))
  }

  /** The pattern as a sequence of tokens. */
  function Tokens(p: seq<char>): seq<Token> {
    TokensFrom(p, 0)
  }

  /** Token `t` is the one that begins at `starts[t]`, and the next one begins just past it. */
  ghost predicate Entry(p: seq<char>, ts: seq<Token>, starts: seq<nat>, t: nat)
    requires t < |ts| < |starts|
  {
    starts[t] < |p| && ts[t] == TokenAt(p, starts[t]) && starts[t + 1] == NextAt(p, starts[t])
  }

  /** `starts` says where in the pattern each of the tokens `ts` begins, and ends with the pattern's length. */
  ghost predicate Table(p: seq<char>, ts: seq<Token>, starts: seq<nat>) {
    && |starts| == |ts| + 1 && starts[|ts|] == |p|
    && forall t :: 0 <= t < |ts| ==> Entry(p, ts, starts, t)
  }

  lemma {:induction false} TableFrom(p: seq<char>, i: nat) returns (starts: seq<nat>)
    requires i <= |p|
    ensures Table(p, TokensFrom(p, i), starts) && starts[0] == i
    decreases |p| - i
  {
    if i == |p| {
      starts := [i];
    } else {
      var rest := TableFrom(p, NextAt(p, i));
      starts := [i] + rest;
      var ts, later := TokensFrom(p, i), TokensFrom(p, NextAt(p, i));
      forall t | 0 <= t < |ts|
        ensures Entry(p, ts, starts, t)
      {
        if t > 0 {
          assert Entry(p, later, rest, t - 1);
        }
      }
    }
  }

  lemma TableAt(p: seq<char>, ts: seq<Token>, starts: seq<nat>, t: nat)
    requires Table(p, ts, starts) && t <= |ts|
    ensures t < |ts| <==> starts[t] < |p|
    ensures t < |ts| ==> ts[t] == TokenAt(p, starts[t]) && starts[t + 1] == NextAt(p, starts[t])
    ensures t < |ts| ==> Width(starts, t) == NextAt(p, starts[t]) - starts[t]
  {
    if t < |ts| {
      assert Entry(p, ts, starts, t);
    }
  }

  /** How many runes of the pattern token `t` occupies; nothing past the last token. */
  function Width(starts: seq<nat>, t: nat): nat {
    if t + 1 < |starts| && starts[t] <= starts[t + 1] then starts[t + 1] - starts[t] else 0
  }

  // ---------------------------------------------------------------- declarative meaning

  predicate Accepts(t: Token, c: char) {
    match t
    case Star => false
    case Any => true
    case Lit(x) => x == c
    case Class(negated, body) => Has(body, c) != negated
  }

  /** Token `t` may take the runes `lo..hi` of `s`: a star any run, every other token one rune it accepts. */
  predicate Takes(t: Token, s: seq<char>, lo: int, hi: int) {
    0 <= lo <= hi <= |s| && (t.Star? || (hi == lo + 1 && Accepts(t, s[lo])))
  }

  /** `cuts` divides `s[i..]` among the tokens from `t` on. */
  ghost predicate Divides(ts: seq<Token>, t: nat, s: seq<char>, i: nat, cuts: seq<int>) {
    t <= |ts| && |cuts| == |ts| - t + 1 && cuts[0] == i && cuts[|ts| - t] == |s|
    && forall q :: 0 <= q < |ts| - t ==> Takes(ts[t + q], s, cuts[q], cuts[q + 1])
  }

  /** The meaning of a glob: some division of the subject gives every token a run it may take. */
  ghost predicate Matches(ts: seq<Token>, s: seq<char>) {
    exists cuts :: Divides(ts, 0, s, 0, cuts)
  }

  /** The same relation by recursion on the tokens. */
  ghost predicate MatchFrom(ts: seq<Token>, t: nat, s: seq<char>, i: nat)
    requires t <= |ts|
    decreases |ts| - t, 0
  {
    if t == |ts| then i == |s|
    else if ts[t].Star? then MatchSomewhere(ts, t + 1, s, i)
    else i < |s| && Accepts(ts[t], s[i]) && MatchFrom(ts, t + 1, s, i + 1)
  }

  /** The tokens from `t` on match what is left of `s` at `i` or at some later point. */
  ghost predicate MatchSomewhere(ts: seq<Token>, t: nat, s: seq<char>, i: nat)
    requires t <= |ts|
    decreases |ts| - t, 1
  {
    exists k :: i <= k <= |s| && MatchFrom(ts, t, s, k)
  }

  lemma {:induction false} CutsOf(ts: seq<Token>, t: nat, s: seq<char>, i: nat) returns (cuts: seq<int>)
    requires t <= |ts| && MatchFrom(ts, t, s, i)
    ensures Divides(ts, t, s, i, cuts)
    decreases |ts| - t
  {
    if t == |ts| {
      cuts := [i];
    } else {
      var k: nat := i + 1;
      if ts[t].Star? {
        var u := t + 1;
        assert MatchSomewhere(ts, u, s, i);
        k :| i <= k <= |s| && MatchFrom(ts, u, s, k);
      }
      var rest := CutsOf(ts, t + 1, s, k);
      cuts := [i] + rest;
      forall q | 0 <= q < |ts| - t
        ensures Takes(ts[t + q], s, cuts[q], cuts[q + 1])
      {
        if q > 0 {
          assert Takes(ts[t + 1 + (q - 1)], s, rest[q - 1], rest[q]);
        }
      }
    }
  }

  lemma {:induction false} DividesMatchFrom(ts: seq<Token>, t: nat, s: seq<char>, i: nat, cuts: seq<int>)
    requires Divides(ts, t, s, i, cuts)
    ensures MatchFrom(ts, t, s, i)
    decreases |ts| - t
  {
    if t < |ts| {
      var rest := cuts[1..];
      assert Takes(ts[t + 0], s, cuts[0], cuts[1]);
      forall q | 0 <= q < |ts| - (t + 1)
        ensures Takes(ts[t + 1 + q], s, rest[q], rest[q + 1])
      {
        assert Takes(ts[t + (q + 1)], s, cuts[q + 1], cuts[q + 2]);
      }
      DividesMatchFrom(ts, t + 1, s, cuts[1], rest);
    }
  }

  /** The recursive relation is the declarative one. */
  lemma MatchFromIsMatches(ts: seq<Token>, s: seq<char>)
    ensures MatchFrom(ts, 0, s, 0) <==> Matches(ts, s)
  {
    if MatchFrom(ts, 0, s, 0) {
      var cuts := CutsOf(ts, 0, s, 0);
    }
    if Matches(ts, s) {
      var cuts :| Divides(ts, 0, s, 0, cuts);
      DividesMatchFrom(ts, 0, s, 0, cuts);
    }
  }

  // ---------------------------------------------------------------- the scanning code

  /** The closing bracket of the class opened at `p[pi]`; `steps` counts the loop. */
  method ClassEnd(p: seq<char>, pi: nat) returns (end: int, ghost steps: nat)
    requires pi < |p|
    ensures end == CloseOf(p, pi)
    ensures steps <= (if end >= 0 then end else |p|) - pi
  {
    var i := pi + 1;
    if i < |p| && p[i] == '!' {
      i := i + 1;
    }
    if i < |p| && p[i] == ']' {
      i := i + 1;
    }
    steps := 0;
    while i < |p| && p[i] != ']'
      invariant BodyStart(p, pi) <= i <= |p|
      invariant FindClose(p, i) == CloseOf(p, pi)
      invariant steps == i - BodyStart(p, pi)
    {
      i := i + 1;
      steps := steps + 1;
    }
    end := if i >= |p| then -1 else i;
  }

  /** Whether `c` is a member of the bracket body. */
  method ClassHas(body: seq<char>, c: char) returns (r: bool, ghost steps: nat)
    ensures r <==> Has(body, c)
    ensures steps <= |body|
  {
    var i := 0;
    steps := 0;
    while i < |body|
      invariant 0 <= i <= |body|
      invariant InItems(Items(body, i), c) <==> Has(body, c)
      invariant steps <= i
    {
      steps := steps + 1;
      if i + 2 < |body| && body[i + 1] == '-' {
        if body[i] <= c <= body[i + 2] {
          return true, steps;
        }
        i := i + 3;
      } else {
        if body[i] == c {
          return true, steps;
        }
        i := i + 1;
      }
    }
    r := false;
  }

  /** A turn was cheap when it cost at most two passes over a token with every bracket closed. */
  ghost predicate Cheap(p: seq<char>, pi: nat, steps: nat) {
    && (pi >= |p| ==> steps == 0)
    && (pi < |p| && TokenAt(p, pi) != Lit('[') ==> steps <= 2 * (NextAt(p, pi) - pi))
  }

  /** A bracket expression against one rune; an unterminated one is a literal. */
  method MatchClass(p: seq<char>, pi: nat, c: char) returns (next: nat, ok: bool, ghost steps: nat)
    requires pi < |p| && p[pi] == '['
    ensures next == NextAt(p, pi) && ok == Accepts(TokenAt(p, pi), c)
    ensures Cheap(p, pi, steps)
  {
    var end;
    end, steps := ClassEnd(p, pi);
    if end < 0 {
      return pi + 1, p[pi] == c, steps;
    }
    var i := pi + 1;
    var negated := i < end && p[i] == '!';
    if negated {
      i := i + 1;
    }
    ghost var more;
    var has;
    has, more := ClassHas(p[i..end], c);
    steps := steps + more;
    return end + 1, has != negated, steps;
  }

  /** The pattern element at `pi` against one rune; a star never matches here. */
  method MatchOne(p: seq<char>, pi: nat, c: char) returns (next: nat, ok: bool, ghost steps: nat)
    ensures ok <==> pi < |p| && Accepts(TokenAt(p, pi), c)
    ensures ok ==> next == NextAt(p, pi)
    ensures Cheap(p, pi, steps)
  {
    steps := 0;
    if pi >= |p| {
      return pi, false, 0;
    }
    if p[pi] == '*' {
      return pi, false, 0;
    } else if p[pi] == '?' {
      return pi + 1, true, 0;
    } else if p[pi] == '[' {
      next, ok, steps := MatchClass(p, pi, c);
    } else {
      return pi + 1, p[pi] == c, 0;
    }
  }

  /** A pattern is well formed when no bracket expression is left open. */
  predicate WellFormed(p: seq<char>) {
    Lit('[') !in Tokens(p)
  }

  /** The parse-time check: accepts exactly the patterns in which every bracket closes. */
  method ValidateGlob(p: seq<char>) returns (ok: bool)
    ensures ok <==> WellFormed(p)
  {
    var i := 0;
    ghost var t: nat, ts := 0, Tokens(p);
    ghost var starts := TableFrom(p, 0);
    while i < |p|
      invariant t <= |ts| && i == starts[t] <= |p|
      invariant forall q :: 0 <= q < t ==> ts[q] != Lit('[')
    {
      assert Entry(p, ts, starts, t);
      if p[i] == '[' {
        var end;
        ghost var steps;
        end, steps := ClassEnd(p, i);
        if end < 0 {
          return false;
        }
        i := end;
      }
      i := i + 1;
      t := t + 1;
    }
    TableAt(p, ts, starts, t);
    ok := true;
  }

  // ---------------------------------------------------------------- the matcher

  /** Each entry of `reach` weighed by the width of its token. */
  function Weigh(reach: seq<nat>, w: seq<nat>): nat
    requires |reach| == |w|
  {
    if w == [] then 0
    else Weigh(reach[..|w| - 1], w[..|w| - 1]) + reach[|w| - 1] * w[|w| - 1]
  }

  lemma {:induction false} WeighRaise(reach: seq<nat>, w: seq<nat>, t: nat, x: nat)
    requires |reach| == |w| && t < |w| && reach[t] < x
    ensures Weigh(reach[t := x], w) >= Weigh(reach, w) + w[t]
  {
    var n := |w| - 1;
    var raised := reach[t := x];
    if t == n {
      assert raised[..n] == reach[..n];
      TimesMono(w[n], reach[n] + 1, x);
      TimesAdd(reach[n], 1, w[n]);
    } else {
      assert raised[..n] == reach[..n][t := x];
      WeighRaise(reach[..n], w[..n], t, x);
    }
  }

  lemma {:induction false} WeighBound(reach: seq<nat>, w: seq<nat>, n: nat)
    requires |reach| == |w| && forall t :: 0 <= t < |reach| ==> reach[t] <= n
    ensures Weigh(reach, w) <= Sum(w) * n
  {
    if w != [] {
      var m := |w| - 1;
      WeighBound(reach[..m], w[..m], n);
      TimesMono(w[m], reach[m], n);
      TimesAdd(Sum(w[..m]), w[m], n);
    }
  }

  function Widths(starts: seq<nat>): (w: seq<nat>) {
    seq(|starts|, t requires 0 <= t < |starts| => Width(starts, t))
  }

  lemma {:induction false} WidthsSum(p: seq<char>, ts: seq<Token>, starts: seq<nat>, t: nat)
    requires Table(p, ts, starts) && starts[0] == 0 && t <= |ts|
    ensures Sum(Widths(starts)[..t]) == starts[t] && t <= starts[t]
  {
    if t > 0 {
      WidthsSum(p, ts, starts, t - 1);
      assert Entry(p, ts, starts, t - 1);
      assert Widths(starts)[..t][..t - 1] == Widths(starts)[..t - 1];
    }
  }

  lemma {:induction false} SumOfOnes(w: seq<nat>)
    requires forall t :: 0 <= t < |w| ==> w[t] == 1
    ensures Sum(w) == |w|
  {
    if w != [] {
      SumOfOnes(w[..|w| - 1]);
    }
  }

  /** The tokens `t..t+n` accept the runes `i..i+n`, one each; so none of them is a star. */
  ghost predicate Run(ts: seq<Token>, t: nat, s: seq<char>, i: nat, n: nat) {
    t + n <= |ts| && i + n <= |s|
    && forall q :: t <= q < t + n ==> Accepts(ts[q], s[q - t + i])
  }

  ghost predicate StarFree(ts: seq<Token>, t: nat, n: nat) {
    t + n <= |ts| && forall q :: t <= q < t + n ==> !ts[q].Star?
  }

  lemma {:induction false} MatchFromInRange(ts: seq<Token>, t: nat, s: seq<char>, i: nat)
    requires t <= |ts| && MatchFrom(ts, t, s, i)
    ensures i <= |s|
  {
    if t < |ts| && ts[t].Star? {
      var k := Somewhere(ts, t + 1, s, i);
    }
  }

  lemma Somewhere(ts: seq<Token>, t: nat, s: seq<char>, i: nat) returns (k: nat)
    requires t <= |ts| && MatchSomewhere(ts, t, s, i)
    ensures i <= k <= |s| && MatchFrom(ts, t, s, k)
  {
    k :| i <= k <= |s| && MatchFrom(ts, t, s, k);
  }

  /** A star-free run of tokens takes exactly as many runes as it has tokens. */
  lemma {:induction false} RunIsRigid(ts: seq<Token>, t: nat, s: seq<char>, i: nat, n: nat)
    requires StarFree(ts, t, n)
    ensures Run(ts, t, s, i, n) ==> (MatchFrom(ts, t, s, i) <==> MatchFrom(ts, t + n, s, i + n))
    ensures MatchFrom(ts, t, s, i) ==> i + n <= |s| && MatchFrom(ts, t + n, s, i + n)
    decreases n
  {
    if n > 0 {
      RunIsRigid(ts, t + 1, s, i + 1, n - 1);
      if Run(ts, t, s, i, n) {
        assert Run(ts, t + 1, s, i + 1, n - 1);
        assert Accepts(ts[t], s[t - t + i]);
      }
    } else if MatchFrom(ts, t, s, i) {
      MatchFromInRange(ts, t, s, i);
    }
  }

  /** What the loop knows about the answer: with no star behind it the current position decides;
      otherwise the last star decides by absorbing at least what it has absorbed so far. */
  ghost predicate Remembered(ts: seq<Token>, s: seq<char>, ti: nat, si: nat, starT: int, starS: nat) {
    && -1 <= starT < ti <= |ts|
    && (starT >= 0 ==> ti - (starT + 1) == si - starS && Run(ts, starT + 1, s, starS, ti - (starT + 1)))
    && (MatchFrom(ts, 0, s, 0) <==>
          if starT < 0 then MatchFrom(ts, ti, s, si) else MatchSomewhere(ts, starT + 1, s, starS))
  }

  lemma NextRune(ts: seq<Token>, s: seq<char>, ti: nat, si: nat, starT: int, starS: nat)
    requires Remembered(ts, s, ti, si, starT, starS)
    requires ti < |ts| && si < |s| && Accepts(ts[ti], s[si])
    ensures Remembered(ts, s, ti + 1, si + 1, starT, starS)
  {}

  /** Forgetting every star but the last is sound: reaching a new star, the earlier one can only
      hand over a later starting point, which the new star could absorb itself. */
  lemma NewStar(ts: seq<Token>, s: seq<char>, ti: nat, si: nat, starT: int, starS: nat)
    requires Remembered(ts, s, ti, si, starT, starS)
    requires ti < |ts| && ts[ti].Star? && si <= |s|
    ensures Remembered(ts, s, ti + 1, si, ti, si)
  {
    if starT >= 0 {
      var from, n := starT + 1, ti - (starT + 1);
      RunIsRigid(ts, from, s, starS, n);
      if MatchSomewhere(ts, from, s, starS) {
        var k := Somewhere(ts, from, s, starS);
        RunIsRigid(ts, from, s, k, n);
        var j := Somewhere(ts, ti + 1, s, k + n);
        assert MatchSomewhere(ts, ti + 1, s, si);
      }
      if MatchSomewhere(ts, ti + 1, s, si) {
        assert MatchFrom(ts, from, s, starS);
      }
    }
  }

  /** When the current attempt fails the last star must absorb one more rune. */
  lemma Backtrack(ts: seq<Token>, s: seq<char>, ti: nat, si: nat, starT: int, starS: nat)
    requires Remembered(ts, s, ti, si, starT, starS)
    requires starT >= 0 && si < |s|
    requires ti < |ts| ==> !ts[ti].Star? && !Accepts(ts[ti], s[si])
    ensures Remembered(ts, s, starT + 1, starS + 1, starT, starS + 1)
  {
    var from, n := starT + 1, ti - (starT + 1);
    RunIsRigid(ts, from, s, starS, n);
    assert !MatchFrom(ts, from, s, starS);
    if MatchSomewhere(ts, from, s, starS) {
      var k := Somewhere(ts, from, s, starS);
      assert MatchSomewhere(ts, from, s, starS + 1);
    }
    if MatchSomewhere(ts, from, s, starS + 1) {
      var k := Somewhere(ts, from, s, starS + 1);
      assert MatchSomewhere(ts, from, s, starS);
    }
  }

  /** At the end of the subject the current position decides, star or no star. */
  lemma AtEnd(ts: seq<Token>, s: seq<char>, ti: nat, starT: int, starS: nat)
    requires Remembered(ts, s, ti, |s|, starT, starS)
    ensures MatchFrom(ts, 0, s, 0) <==> MatchFrom(ts, ti, s, |s|)
  {
    if starT >= 0 {
      var from, n := starT + 1, ti - (starT + 1);
      RunIsRigid(ts, from, s, starS, n);
      if MatchSomewhere(ts, from, s, starS) {
        var k := Somewhere(ts, from, s, starS);
        RunIsRigid(ts, from, s, k, n);
      }
    }
  }

  lemma TrailingStar(ts: seq<Token>, s: seq<char>, ti: nat)
    requires ti < |ts|
    ensures MatchFrom(ts, ti, s, |s|) <==> ts[ti].Star? && MatchFrom(ts, ti + 1, s, |s|)
  {
    if ts[ti].Star? && MatchFrom(ts, ti, s, |s|) {
      var k := Somewhere(ts, ti + 1, s, |s|);
    }
    if ts[ti].Star? && MatchFrom(ts, ti + 1, s, |s|) {
      assert MatchSomewhere(ts, ti + 1, s, |s|);
    }
  }

  // ---------------------------------------------------------------- the scan as a machine over tokens

  /** Where the scan stands: the current token and rune, the last star (or -1) and where it stopped absorbing. */
  datatype State = State(ti: nat, si: nat, starT: int, starS: nat)

  const INITIAL := State(0, 0, -1, 0)

  predicate InRange(ts: seq<Token>, s: seq<char>, st: State) {
    -1 <= st.starT < st.ti <= |ts| && st.starS <= st.si <= |s|
  }

  /** One turn of the loop, or None where it gives up. */
  function Turn(ts: seq<Token>, s: seq<char>, st: State): (r: Option<State>)
    requires InRange(ts, s, st) && st.si < |s|
    ensures r.Some? ==> InRange(ts, s, r.value)
  {
    if st.ti < |ts| && Accepts(ts[st.ti], s[st.si]) then Some(st.(ti := st.ti + 1, si := st.si + 1))
    else if st.ti < |ts| && ts[st.ti].Star? then Some(State(st.ti + 1, st.si, st.ti, st.si))
    else if st.starT >= 0 then Some(State(st.starT + 1, st.starS + 1, st.starT, st.starS + 1))
    else None
  }

  /** The state in which the subject is used up, or None if the scan gives up before. */
  function Scan(ts: seq<Token>, s: seq<char>, st: State): Option<State>
    requires InRange(ts, s, st)
    decreases |ts| - st.starT, |s| - st.starS, |ts| - st.ti
  {
    if st.si == |s| then Some(st)
    else
      var next := Turn(ts, s, st);
      if next.None? then None else Scan(ts, s, next.value)
  }

  /** The (token, rune) pairs the scan examines, one per turn. */
  function Trace(ts: seq<Token>, s: seq<char>, st: State): seq<(nat, nat)>
    requires InRange(ts, s, st)
    decreases |ts| - st.starT, |s| - st.starS, |ts| - st.ti
  {
    if st.si == |s| then []
    else
      var next := Turn(ts, s, st);
      [(st.ti, st.si)] + if next.None? then [] else Trace(ts, s, next.value)
  }

  /** How many turns the scan takes, and what they cost when visiting token `t` costs `w[t]`. */
  function Turns(ts: seq<Token>, s: seq<char>, st: State): nat
    requires InRange(ts, s, st)
    decreases |ts| - st.starT, |s| - st.starS, |ts| - st.ti
  {
    if st.si == |s| then 0
    else
      var next := Turn(ts, s, st);
      1 + if next.None? then 0 else Turns(ts, s, next.value)
  }

  function Work(ts: seq<Token>, s: seq<char>, st: State, w: seq<nat>): nat
    requires InRange(ts, s, st) && |w| == |ts| + 1
    decreases |ts| - st.starT, |s| - st.starS, |ts| - st.ti
  {
    if st.si == |s| then 0
    else
      var next := Turn(ts, s, st);
      w[st.ti] + if next.None? then 0 else Work(ts, s, next.value, w)
  }

  predicate AllStars(ts: seq<Token>, t: nat) {
    forall q :: t <= q < |ts| ==> ts[q].Star?
  }

  lemma {:induction false} AllStarsMatch(ts: seq<Token>, t: nat, s: seq<char>)
    requires t <= |ts|
    ensures MatchFrom(ts, t, s, |s|) <==> AllStars(ts, t)
    decreases |ts| - t
  {
    if t < |ts| {
      TrailingStar(ts, s, t);
      AllStarsMatch(ts, t + 1, s);
    }
  }

  /** From any state the scan remembers enough: it ends in a full match exactly when there is one. */
  lemma {:induction false} ScanDecides(ts: seq<Token>, s: seq<char>, st: State)
    requires InRange(ts, s, st) && Remembered(ts, s, st.ti, st.si, st.starT, st.starS)
    ensures var end := Scan(ts, s, st);
            MatchFrom(ts, 0, s, 0) <==> end.Some? && AllStars(ts, end.value.ti)
    decreases |ts| - st.starT, |s| - st.starS, |ts| - st.ti
  {
    var ti, si, starT, starS := st.ti, st.si, st.starT, st.starS;
    if si == |s| {
      AtEnd(ts, s, ti, starT, starS);
      AllStarsMatch(ts, ti, s);
    } else {
      if ti < |ts| && Accepts(ts[ti], s[si]) {
        NextRune(ts, s, ti, si, starT, starS);
      } else if ti < |ts| && ts[ti].Star? {
        NewStar(ts, s, ti, si, starT, starS);
      } else if starT >= 0 {
        Backtrack(ts, s, ti, si, starT, starS);
      }
      var next := Turn(ts, s, st);
      if next.Some? {
        ScanDecides(ts, s, next.value);
      }
    }
  }

  /** Soundness and completeness of remembering only the last star, for every pattern and subject. */
  lemma GreedyIsComplete(ts: seq<Token>, s: seq<char>)
    ensures var end := Scan(ts, s, INITIAL);
            Matches(ts, s) <==> end.Some? && AllStars(ts, end.value.ti)
  {
    MatchFromIsMatches(ts, s);
    ScanDecides(ts, s, INITIAL);
  }

  // ---------------------------------------------------------------- the cost of the scan

  /** `reach[t]` is one more than the last subject index at which token `t` was tried: from the
      current token on it lies behind the current diagonal, and past a star not yet reached
      nothing was tried at all. */
  ghost predicate Fresh(ts: seq<Token>, n: nat, reach: seq<nat>, st: State) {
    var State(ti, si, starT, starS) := st;
    && |reach| == |ts| + 1 && -1 <= starT < ti <= |ts| && si <= n
    && (starT >= 0 ==> ti - (starT + 1) == si - starS)
    && (forall t :: 0 <= t < |reach| ==> reach[t] <= n)
    && (forall t :: ti <= t < |reach| ==> reach[t] <= si + t - ti)
    && (starT >= 0 ==> forall t :: starT < t < ti ==> reach[t] <= starS + t - starT)
    && (forall q, t :: 0 <= q < |ts| && starT < q < t < |reach| && ts[q].Star? ==> reach[t] == 0)
    && (forall q :: starT < q < ti ==> !ts[q].Star?)
  }

  /** Every turn tries its token further along the subject than ever before. */
  lemma FreshTurn(ts: seq<Token>, s: seq<char>, reach: seq<nat>, st: State)
    requires InRange(ts, s, st) && Fresh(ts, |s|, reach, st) && st.si < |s|
    ensures reach[st.ti] <= st.si
    ensures var next := Turn(ts, s, st); next.Some? ==> Fresh(ts, |s|, reach[st.ti := st.si + 1], next.value)
  {}

  /** How far each token has been tried once the scan is over. */
  ghost function FinalReach(ts: seq<Token>, s: seq<char>, reach: seq<nat>, st: State): seq<nat>
    requires InRange(ts, s, st) && |reach| == |ts| + 1
    decreases |ts| - st.starT, |s| - st.starS, |ts| - st.ti
  {
    if st.si == |s| then reach
    else
      var next := Turn(ts, s, st);
      var reach' := reach[st.ti := st.si + 1];
      if next.None? then reach' else FinalReach(ts, s, reach', next.value)
  }

  /** No pair is ever examined twice: from any state the rest of the trace stays beyond `reach`. */
  lemma {:induction false} TraceAdvances(ts: seq<Token>, s: seq<char>, reach: seq<nat>, st: State)
    requires InRange(ts, s, st) && Fresh(ts, |s|, reach, st)
    ensures Distinct(Trace(ts, s, st))
    ensures forall v :: v in Trace(ts, s, st) ==> v.0 < |reach| && reach[v.0] <= v.1
    decreases |ts| - st.starT, |s| - st.starS, |ts| - st.ti
  {
    if st.si < |s| {
      FreshTurn(ts, s, reach, st);
      var next := Turn(ts, s, st);
      if next.Some? {
        TraceAdvances(ts, s, reach[st.ti := st.si + 1], next.value);
      }
    }
  }

  /** What the trace costs is covered by how far each token is finally tried, never past the subject. */
  lemma {:induction false} TraceIsCovered(ts: seq<Token>, s: seq<char>, reach: seq<nat>, st: State, w: seq<nat>)
    requires InRange(ts, s, st) && Fresh(ts, |s|, reach, st) && |w| == |reach|
    ensures var last := FinalReach(ts, s, reach, st);
            && |last| == |reach| && (forall t :: 0 <= t < |last| ==> last[t] <= |s|)
            && Weigh(reach, w) + Work(ts, s, st, w) <= Weigh(last, w)
    decreases |ts| - st.starT, |s| - st.starS, |ts| - st.ti
  {
    if st.si < |s| {
      FreshTurn(ts, s, reach, st);
      WeighRaise(reach, w, st.ti, st.si + 1);
      var next := Turn(ts, s, st);
      if next.Some? {
        TraceIsCovered(ts, s, reach[st.ti := st.si + 1], next.value, w);
      }
    }
  }

  /** The whole scan examines no pair twice, so it takes at most one turn more than there are
      pattern runes for each rune of the subject. */
  lemma ScanTurns(p: seq<char>, ts: seq<Token>, starts: seq<nat>, s: seq<char>)
    requires Table(p, ts, starts) && starts[0] == 0
    ensures Distinct(Trace(ts, s, INITIAL))
    ensures |Trace(ts, s, INITIAL)| == Turns(ts, s, INITIAL) <= (|p| + 1) * |s|
  {
    var reach: seq<nat> := seq(|ts| + 1, _ => 0);
    var ones: seq<nat> := seq(|ts| + 1, _ => 1);
    TraceAdvances(ts, s, reach, INITIAL);
    TurnsAreVisits(ts, s, INITIAL, ones);
    TraceIsCovered(ts, s, reach, INITIAL, ones);
    WeighBound(FinalReach(ts, s, reach, INITIAL), ones, |s|);
    SumOfOnes(ones);
    WidthsSum(p, ts, starts, |ts|);
    TimesMono(|s|, Sum(ones), |p| + 1);
  }

  /** Charging each visit the width of its token, the scan costs one pass over the pattern per rune. */
  lemma ScanWork(p: seq<char>, ts: seq<Token>, starts: seq<nat>, s: seq<char>)
    requires Table(p, ts, starts) && starts[0] == 0
    ensures Work(ts, s, INITIAL, Widths(starts)) <= |p| * |s|
  {
    var reach: seq<nat> := seq(|ts| + 1, _ => 0);
    var w := Widths(starts);
    TraceIsCovered(ts, s, reach, INITIAL, w);
    WeighBound(FinalReach(ts, s, reach, INITIAL), w, |s|);
    WidthsSum(p, ts, starts, |ts|);
    assert Sum(w) == |p| by { assert w[..|w| - 1] == w[..|ts|]; }
  }

  lemma {:induction false} TurnsAreVisits(ts: seq<Token>, s: seq<char>, st: State, ones: seq<nat>)
    requires InRange(ts, s, st) && |ones| == |ts| + 1 && forall t :: 0 <= t < |ones| ==> ones[t] == 1
    ensures |Trace(ts, s, st)| == Turns(ts, s, st) == Work(ts, s, st, ones)
    decreases |ts| - st.starT, |s| - st.starS, |ts| - st.ti
  {
    if st.si < |s| {
      var next := Turn(ts, s, st);
      if next.Some? {
        TurnsAreVisits(ts, s, next.value, ones);
      }
    }
  }

  // ---------------------------------------------------------------- fnmatch itself

  /** The code's variables stand for a machine state: pattern indices are where tokens begin. */
  ghost predicate Represents(starts: seq<nat>, st: State, pi: int, si: int, starP: int, starS: int) {
    match st
    case State(ti, mi, starT, mS) =>
      && -1 <= starT < ti < |starts|
      && pi == starts[ti] && si == mi && starS == mS
      && starP + 1 == starts[starT + 1] && (starP >= 0 <==> starT >= 0)
  }

  /** The machine takes the branch the code takes, to a state the code's new variables stand for. */
  lemma Follow(p: seq<char>, ts: seq<Token>, starts: seq<nat>, s: seq<char>, st: State,
               pi: nat, si: nat, starP: int, starS: nat)
    requires Table(p, ts, starts) && InRange(ts, s, st) && Represents(starts, st, pi, si, starP, starS)
    requires si < |s|
    ensures pi <= |p| && st.ti <= |ts| && (pi < |p| <==> st.ti < |ts|)
    ensures var next := Turn(ts, s, st);
            if pi < |p| && Accepts(TokenAt(p, pi), s[si]) then
              next.Some? && Represents(starts, next.value, NextAt(p, pi), si + 1, starP, starS)
            else if pi < |p| && p[pi] == '*' then
              next.Some? && Represents(starts, next.value, pi + 1, si, pi, si)
            else if starP >= 0 then
              next.Some? && Represents(starts, next.value, starP + 1, starS + 1, starP, starS + 1)
            else next.None?
  {
    TableAt(p, ts, starts, st.ti);
  }

  ghost predicate Trailing(p: seq<char>, pi: nat) {
    forall k :: pi <= k < |p| ==> p[k] == '*'
  }

  lemma {:induction false} AllStarsTrailing(p: seq<char>, ts: seq<Token>, starts: seq<nat>, t: nat)
    requires Table(p, ts, starts) && t <= |ts|
    ensures AllStars(ts, t) <==> Trailing(p, starts[t])
    decreases |ts| - t
  {
    TableAt(p, ts, starts, t);
    if t < |ts| {
      AllStarsTrailing(p, ts, starts, t + 1);
    }
  }

  /** `fnmatch`. `turns` counts the iterations of the main loop, `work` the iterations of the
      bracket-scanning loops it starts, and `starts` says where the tokens begin. ScanTurns and
      ScanWork bound them by the lengths of pattern and subject. */
  method Fnmatch(p: seq<char>, s: seq<char>)
      returns (r: bool, ghost turns: nat, ghost work: nat, ghost starts: seq<nat>)
    ensures r <==> Matches(Tokens(p), s)
    ensures Table(p, Tokens(p), starts) && starts[0] == 0
    ensures turns == Turns(Tokens(p), s, INITIAL)
    ensures WellFormed(p) ==> work <= 2 * Work(Tokens(p), s, INITIAL, Widths(starts))
  {
    ghost var ts, st := Tokens(p), INITIAL;
    starts := TableFrom(p, 0);
    var pi, si := 0, 0;
    var starP, starS := -1, 0;
    turns, work := 0, 0;
    GreedyIsComplete(ts, s);

    while si < |s|
      invariant starP < pi <= |p| && 0 <= starS <= si <= |s|
      invariant InRange(ts, s, st) && Represents(starts, st, pi, si, starP, starS)
      invariant Scan(ts, s, st) == Scan(ts, s, INITIAL)
      invariant turns + Turns(ts, s, st) == Turns(ts, s, INITIAL)
      invariant WellFormed(p) ==>
                  work + 2 * Work(ts, s, st, Widths(starts)) <= 2 * Work(ts, s, INITIAL, Widths(starts))
      decreases |p| - starP, |s| - starS, |p| - pi
    {
      var c := s[si];
      var next, ok;
      ghost var steps;
      next, ok, steps := MatchOne(p, pi, c);

      Follow(p, ts, starts, s, st, pi, si, starP, starS);
      TableAt(p, ts, starts, st.ti);
      turns, work := turns + 1, work + steps;

      if ok {
        pi, si := next, si + 1;
      } else if pi < |p| && p[pi] == '*' {
        starP, starS := pi, si;
        pi := pi + 1;
      } else if starP >= 0 {
        starS := starS + 1;
        pi, si := starP + 1, starS;
      } else {
        return false, turns, work, starts;
      }
      st := Turn(ts, s, st).value;
    }

    AllStarsTrailing(p, ts, starts, st.ti);
    while pi < |p| && p[pi] == '*'
      invariant pi <= |p|
      invariant AllStars(ts, st.ti) <==> Trailing(p, pi)
    {
      pi := pi + 1;
    }
    r := pi == |p|;
  }
}
