/** What a glob says, element by element: how a pattern divides into tokens, what a bracket holds, and
    how the meaning of a pattern is made of the meanings of its tokens. */
module GlobSyntax {
  import opened Glob

  // ---------------------------------------------------------------- what a bracket holds

  lemma {:induction false} ItemsOfRest(front: seq<char>, rest: seq<char>, i: nat)
    ensures Items(front + rest, |front| + i) == Items(rest, i)
    decreases |rest| - i
  {
    if i < |rest| {
      var body := front + rest;
      assert body[|front| + i] == rest[i];
      if i + 2 < |rest| && rest[i + 1] == '-' {
        ItemsOfRest(front, rest, i + 3);
      } else {
        ItemsOfRest(front, rest, i + 1);
      }
    }
  }

  /** A rune, a dash and a rune hold the runes from the one to the other; the rest is held besides. */
  lemma RangeFirst(lo: char, hi: char, rest: seq<char>, c: char)
    ensures Has([lo, '-', hi] + rest, c) <==> lo <= c <= hi || Has(rest, c)
  {
    var front := [lo, '-', hi];
    ItemsOfRest(front, rest, 0);
    var items := Items(front + rest, 0);
    assert items == [Range(lo, hi)] + Items(rest, 0);
    assert items[1..] == Items(rest, 0);
  }

  /** Any other first rune holds itself; the rest is held besides. */
  lemma SingleFirst(x: char, rest: seq<char>, c: char)
    requires |rest| < 2 || rest[0] != '-'
    ensures Has([x] + rest, c) <==> c == x || Has(rest, c)
  {
    var body := [x] + rest;
    ItemsOfRest([x], rest, 0);
    assert |rest| >= 1 ==> body[1] == rest[0];
    var items := Items(body, 0);
    assert items == [Single(x)] + Items(rest, 0);
    assert items[1..] == Items(rest, 0);
  }

  /** `[lo-hi]` holds the runes from `lo` to `hi`. */
  lemma RangeHolds(lo: char, hi: char, c: char)
    ensures Has([lo, '-', hi], c) <==> lo <= c <= hi
  {
    assert [lo, '-', hi] == [lo, '-', hi] + [];
    RangeFirst(lo, hi, [], c);
  }

  /** A dash at the end is itself. */
  lemma DashAtTheEnd(x: char, c: char)
    ensures Has([x, '-'], c) <==> c == x || c == '-'
  {
    assert [x, '-'] == [x] + ['-'] && ['-'] == ['-'] + [];
    SingleFirst('-', [], c);
    SingleFirst(x, ['-'], c);
  }

  /** Without a dash, a body holds its own runes. */
  lemma {:induction false} MembersHold(body: seq<char>, c: char)
    requires '-' !in body
    ensures Has(body, c) <==> c in body
  {
    if body != [] {
      var x, rest := body[0], body[1..];
      assert body == [x] + rest;
      assert |rest| >= 1 ==> rest[0] in body;
      MembersHold(rest, c);
      SingleFirst(x, rest, c);
    }
  }

  // ---------------------------------------------------------------- how a pattern divides

  lemma {:induction false} CloseInRest(front: seq<char>, p: seq<char>, i: nat)
    ensures FindClose(front + p, |front| + i) == if FindClose(p, i) < 0 then -1 else |front| + FindClose(p, i)
    decreases |p| - i
  {
    if i < |p| {
      assert (front + p)[|front| + i] == p[i];
      CloseInRest(front, p, i + 1);
    }
  }

  lemma ClosesAlike(front: seq<char>, p: seq<char>, i: nat)
    requires i < |p|
    ensures CloseOf(front + p, |front| + i) == if CloseOf(p, i) < 0 then -1 else |front| + CloseOf(p, i)
  {
    var q := front + p;
    assert forall k :: 0 <= k < |p| ==> q[|front| + k] == p[k];
    assert BodyStart(q, |front| + i) == |front| + BodyStart(p, i);
    CloseInRest(front, p, BodyStart(p, i));
  }

  lemma TokenAlike(front: seq<char>, p: seq<char>, i: nat)
    requires i < |p|
    ensures TokenAt(front + p, |front| + i) == TokenAt(p, i)
    ensures NextAt(front + p, |front| + i) == |front| + NextAt(p, i)
  {
    var q := front + p;
    ClosesAlike(front, p, i);
    assert forall k :: 0 <= k < |p| ==> q[|front| + k] == p[k];
    if p[i] == '[' && CloseOf(p, i) >= 0 {
      var from := if p[i + 1] == '!' then i + 2 else i + 1;
      assert q[|front| + from..|front| + CloseOf(p, i)] == p[from..CloseOf(p, i)];
    }
  }

  /** The tokens of a part of a pattern do not depend on what stands before it. */
  lemma {:induction false} TokensOfRest(front: seq<char>, p: seq<char>, i: nat)
    ensures TokensFrom(front + p, |front| + i) == TokensFrom(p, i)
    decreases |p| - i
  {
    if i < |p| {
      TokenAlike(front, p, i);
      TokensOfRest(front, p, NextAt(p, i));
    }
  }

  /** The first element of a pattern gives one token, and the rest gives the others. */
  lemma FirstToken(front: seq<char>, rest: seq<char>)
    requires front != [] && NextAt(front + rest, 0) == |front|
    ensures Tokens(front + rest) == [TokenAt(front + rest, 0)] + Tokens(rest)
  {
    TokensOfRest(front, rest, 0);
  }

  lemma StarToken(rest: seq<char>)
    ensures Tokens("*" + rest) == [Star] + Tokens(rest)
  {
    FirstToken("*", rest);
  }

  lemma AnyToken(rest: seq<char>)
    ensures Tokens("?" + rest) == [Any] + Tokens(rest)
  {
    FirstToken("?", rest);
  }

  lemma LiteralToken(x: char, rest: seq<char>)
    requires x != '*' && x != '?' && x != '['
    ensures Tokens([x] + rest) == [Lit(x)] + Tokens(rest)
  {
    FirstToken([x], rest);
  }

  lemma {:induction false} CloseIsFirst(p: seq<char>, i: nat, end: nat)
    requires i <= end < |p| && p[end] == ']' && forall k :: i <= k < end ==> p[k] != ']'
    ensures FindClose(p, i) == end
    decreases end - i
  {
    if i < end {
      CloseIsFirst(p, i + 1, end);
    }
  }

  lemma {:induction false} NoClose(p: seq<char>, i: nat)
    requires forall k :: i <= k < |p| ==> p[k] != ']'
    ensures FindClose(p, i) == -1
    decreases |p| - i
  {
    if i < |p| {
      NoClose(p, i + 1);
    }
  }

  /** A bracket's body: it is not empty, and holds no "]" but perhaps as its first rune. */
  ghost predicate BracketBody(body: seq<char>) {
    body != [] && ']' !in body[1..]
  }

  /** A bracket is one token holding its body, which may begin with "]". */
  lemma ClassToken(body: seq<char>, rest: seq<char>)
    requires BracketBody(body) && body[0] != '!'
    ensures Tokens("[" + body + "]" + rest) == [Class(false, body)] + Tokens(rest)
  {
    var front := "[" + body + "]";
    var p, end := front + rest, |body| + 1;
    assert p[0] == '[' && p[end] == ']' && p[1] == body[0];
    assert forall k :: 1 <= k < end ==> p[k] == body[k - 1];
    forall k | 2 <= k < end
      ensures p[k] != ']'
    {
      assert body[1..][k - 2] == p[k];
    }
    CloseIsFirst(p, BodyStart(p, 0), end);
    assert p[1..end] == body;
    FirstToken(front, rest);
  }

  /** With "!" after the bracket it is negated. */
  lemma NegatedToken(body: seq<char>, rest: seq<char>)
    requires BracketBody(body)
    ensures Tokens("[!" + body + "]" + rest) == [Class(true, body)] + Tokens(rest)
  {
    var front := "[!" + body + "]";
    var p, end := front + rest, |body| + 2;
    assert p[0] == '[' && p[1] == '!' && p[end] == ']' && p[2] == body[0];
    assert forall k :: 2 <= k < end ==> p[k] == body[k - 2];
    forall k | 3 <= k < end
      ensures p[k] != ']'
    {
      assert body[1..][k - 3] == p[k];
    }
    CloseIsFirst(p, BodyStart(p, 0), end);
    assert p[2..end] == body;
    FirstToken(front, rest);
  }

  /** A bracket that never closes is a literal. */
  lemma UnterminatedToken(rest: seq<char>)
    requires var body := if rest != [] && rest[0] == '!' then rest[1..] else rest; body == [] || ']' !in body[1..]
    ensures Tokens("[" + rest) == [Lit('[')] + Tokens(rest)
  {
    var p := "[" + rest;
    assert forall k :: 0 <= k < |rest| ==> p[k + 1] == rest[k];
    var body := if rest != [] && rest[0] == '!' then rest[1..] else rest;
    var skip := |p| - |body|;
    assert forall k :: 0 <= k < |body| ==> p[skip + k] == body[k];
    forall k | BodyStart(p, 0) <= k < |p|
      ensures p[k] != ']'
    {
      if k > skip {
        assert body[1..][k - skip - 1] == p[k];
      }
    }
    NoClose(p, BodyStart(p, 0));
    FirstToken("[", rest);
  }

  // ---------------------------------------------------------------- how meanings compose

  /** What `s` has from `i` on is a match of the tokens of `a` from `t` on and then one of `b`. */
  ghost predicate Parted(a: seq<Token>, t: nat, b: seq<Token>, s: seq<char>, i: nat)
    requires t <= |a|
  {
    exists k: nat :: i <= k <= |s| && MatchFrom(a, t, s[..k], i) && MatchFrom(b, 0, s, k)
  }

  lemma {:induction false} FromAppend(a: seq<Token>, b: seq<Token>, t: nat, s: seq<char>, i: nat)
    requires t <= |a| && i <= |s|
    ensures MatchFrom(a + b, t, s, i) <==> Parted(a, t, b, s, i)
    decreases |a| - t
  {
    if t == |a| {
      BackFrom(a, b, s, i);
    } else if a[t].Star? {
      var u := t + 1;
      forall j: nat | i <= j <= |s|
        ensures MatchFrom(a + b, u, s, j) <==> Parted(a, u, b, s, j)
      {
        FromAppend(a, b, u, s, j);
      }
      StarAppend(a, b, t, u, s, i);
    } else if i < |s| {
      FromAppend(a, b, t + 1, s, i + 1);
      OneAppend(a, b, t, s, i);
    }
  }

  lemma OneAppend(a: seq<Token>, b: seq<Token>, t: nat, s: seq<char>, i: nat)
    requires t < |a| && i < |s| && !a[t].Star?
    requires MatchFrom(a + b, t + 1, s, i + 1) <==> Parted(a, t + 1, b, s, i + 1)
    ensures MatchFrom(a + b, t, s, i) <==> Parted(a, t, b, s, i)
  {
    assert (a + b)[t] == a[t];
    if MatchFrom(a + b, t, s, i) {
      var k: nat :| i + 1 <= k <= |s| && MatchFrom(a, t + 1, s[..k], i + 1) && MatchFrom(b, 0, s, k);
      assert s[..k][i] == s[i];
      assert MatchFrom(a, t, s[..k], i);
    }
    if Parted(a, t, b, s, i) {
      var k: nat :| i <= k <= |s| && MatchFrom(a, t, s[..k], i) && MatchFrom(b, 0, s, k);
      assert s[..k][i] == s[i];
      assert Parted(a, t + 1, b, s, i + 1);
    }
  }

  lemma {:induction false} SameFrom(a: seq<Token>, b: seq<Token>, t: nat, s: seq<char>, i: nat)
    requires t <= |b|
    ensures MatchFrom(a + b, |a| + t, s, i) <==> MatchFrom(b, t, s, i)
    decreases |b| - t
  {
    if t < |b| {
      var u := t + 1;
      assert (a + b)[|a| + t] == b[t] && |a| + t + 1 == |a| + u;
      if b[t].Star? {
        forall j: nat | i <= j <= |s|
          ensures MatchFrom(a + b, |a| + u, s, j) <==> MatchFrom(b, u, s, j)
        {
          SameFrom(a, b, u, s, j);
        }
        if MatchSomewhere(a + b, |a| + u, s, i) {
          var k := Somewhere(a + b, |a| + u, s, i);
          assert MatchFrom(b, u, s, k);
        }
        if MatchSomewhere(b, u, s, i) {
          var k := Somewhere(b, u, s, i);
          assert MatchFrom(a + b, |a| + u, s, k);
        }
      } else {
        SameFrom(a, b, u, s, i + 1);
      }
    }
  }

  lemma BackFrom(a: seq<Token>, b: seq<Token>, s: seq<char>, i: nat)
    requires i <= |s|
    ensures MatchFrom(a + b, |a|, s, i) <==> Parted(a, |a|, b, s, i)
  {
    SameFrom(a, b, 0, s, i);
    if MatchFrom(b, 0, s, i) {
      assert MatchFrom(a, |a|, s[..i], i);
    }
  }

  lemma StarAppend(a: seq<Token>, b: seq<Token>, t: nat, u: nat, s: seq<char>, i: nat)
    requires t < |a| && u == t + 1 && i <= |s| && a[t].Star?
    requires forall j: nat :: i <= j <= |s| ==> (MatchFrom(a + b, u, s, j) <==> Parted(a, u, b, s, j))
    ensures MatchFrom(a + b, t, s, i) <==> Parted(a, t, b, s, i)
  {
    assert (a + b)[t] == a[t];
    if MatchFrom(a + b, t, s, i) {
      var j := Somewhere(a + b, u, s, i);
      var k: nat :| j <= k <= |s| && MatchFrom(a, u, s[..k], j) && MatchFrom(b, 0, s, k);
      assert MatchSomewhere(a, u, s[..k], i);
      assert MatchFrom(a, t, s[..k], i);
    }
    if Parted(a, t, b, s, i) {
      var k: nat :| i <= k <= |s| && MatchFrom(a, t, s[..k], i) && MatchFrom(b, 0, s, k);
      var j := Somewhere(a, u, s[..k], i);
      assert Parted(a, u, b, s, j);
      assert MatchFrom(a + b, u, s, j);
      assert MatchSomewhere(a + b, u, s, i);
    }
  }

  lemma {:induction false} FromSuffix(ts: seq<Token>, t: nat, s: seq<char>, k: nat, i: nat)
    requires t <= |ts| && k + i <= |s|
    ensures MatchFrom(ts, t, s, k + i) <==> MatchFrom(ts, t, s[k..], i)
    decreases |ts| - t
  {
    if t < |ts| {
      var u := t + 1;
      if ts[t].Star? {
        forall j | i <= j <= |s[k..]|
          ensures MatchFrom(ts, u, s, k + j) <==> MatchFrom(ts, u, s[k..], j)
        {
          FromSuffix(ts, u, s, k, j);
        }
        SomewhereSuffix(ts, u, s, k, i);
      } else if k + i < |s| {
        assert s[k + i] == s[k..][i];
        FromSuffix(ts, u, s, k, i + 1);
        assert k + (i + 1) == k + i + 1;
      }
    }
  }

  lemma SomewhereSuffix(ts: seq<Token>, u: nat, s: seq<char>, k: nat, i: nat)
    requires u <= |ts| && k + i <= |s|
    requires forall j :: i <= j <= |s[k..]| ==> (MatchFrom(ts, u, s, k + j) <==> MatchFrom(ts, u, s[k..], j))
    ensures MatchSomewhere(ts, u, s, k + i) <==> MatchSomewhere(ts, u, s[k..], i)
  {
    if MatchSomewhere(ts, u, s, k + i) {
      var m := Somewhere(ts, u, s, k + i);
      assert MatchFrom(ts, u, s, k + (m - k));
      assert MatchFrom(ts, u, s[k..], m - k);
    }
    if MatchSomewhere(ts, u, s[k..], i) {
      var j := Somewhere(ts, u, s[k..], i);
      assert MatchFrom(ts, u, s, k + j);
    }
  }

  /** A pattern made of two parts matches exactly the subjects made of a match of each. */
  lemma MatchesCompose(a: seq<Token>, b: seq<Token>, s: seq<char>)
    ensures Matches(a + b, s) <==> exists k :: 0 <= k <= |s| && Matches(a, s[..k]) && Matches(b, s[k..])
  {
    MatchFromIsMatches(a + b, s);
    FromAppend(a, b, 0, s, 0);
    forall k | 0 <= k <= |s|
      ensures Matches(a, s[..k]) <==> MatchFrom(a, 0, s[..k], 0)
      ensures Matches(b, s[k..]) <==> MatchFrom(b, 0, s, k)
    {
      MatchFromIsMatches(a, s[..k]);
      MatchFromIsMatches(b, s[k..]);
      FromSuffix(b, 0, s, k, 0);
    }
  }

  lemma EmptyMatches(s: seq<char>)
    ensures Matches([], s) <==> s == []
  {
    MatchFromIsMatches([], s);
  }

  /** A star matches anything, and "?" any one rune. */
  lemma WildcardsMatch(s: seq<char>)
    ensures Matches([Star], s)
    ensures Matches([Any], s) <==> |s| == 1
  {
    MatchFromIsMatches([Star], s);
    MatchFromIsMatches([Any], s);
    assert MatchFrom([Star], 1, s, |s|);
    assert MatchSomewhere([Star], 1, s, 0);
  }

  /** A bracket matches one rune that its body holds, or when negated one that it does not. */
  lemma BracketMatches(negated: bool, body: seq<char>, s: seq<char>)
    ensures Matches([Class(negated, body)], s) <==> |s| == 1 && (Has(body, s[0]) <==> !negated)
  {
    MatchFromIsMatches([Class(negated, body)], s);
  }

  /** `[lo-hi]` and `[!lo-hi]`, as they are typed, match one rune from `lo` to `hi`, or one that is not. */
  lemma RangePattern(lo: char, hi: char, s: seq<char>)
    requires hi != ']' && lo != '!'
    ensures Matches(Tokens("[" + [lo, '-', hi] + "]"), s) <==> |s| == 1 && lo <= s[0] <= hi
    ensures Matches(Tokens("[!" + [lo, '-', hi] + "]"), s) <==> |s| == 1 && !(lo <= s[0] <= hi)
  {
    var body := [lo, '-', hi];
    assert body[1..] == ['-', hi];
    ClassToken(body, []);
    NegatedToken(body, []);
    assert "[" + body + "]" + [] == "[" + body + "]" && "[!" + body + "]" + [] == "[!" + body + "]";
    assert [Class(false, body)] + Tokens([]) == [Class(false, body)];
    assert [Class(true, body)] + Tokens([]) == [Class(true, body)];
    BracketMatches(false, body, s);
    BracketMatches(true, body, s);
    if |s| == 1 {
      RangeHolds(lo, hi, s[0]);
    }
  }
}
