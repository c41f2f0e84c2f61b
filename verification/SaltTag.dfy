/** Tag decoding of `internal/salttag/salttag.go`: a tag is split at its slashes, its JID and minion
    segments are recorded and starred out, and the rest is joined again as the category. */
module SaltTags {
  import opened Events

  const MAX_SEGMENTS: nat := 64
  const JID_DIGITS: nat := 20
  const STAR := "*"
  const CUSTOM := "custom"
  const JOB_SPACES := {"job", "run", "wheel"}
  const MINION_SPACES := {"minion", "syndic"}
  const NAMESPACES := {
    "auth", "job", "key", "minion", "syndic", "run", "wheel", "cloud", "fileserver", "queue", "presence"}

  datatype Info = Info(namespace: string, category: string, jid: string, minion: string, kind: Kind)

  // ---------------------------------------------------------------- splitting and joining

  /** The index of the first slash at or after `i`, or the length. */
  function Slash(s: string, i: nat): (r: nat)
    requires i <= |s|
    ensures i <= r <= |s| && (r < |s| ==> s[r] == '/')
    ensures forall k :: i <= k < r ==> s[k] != '/'
    decreases |s| - i
  {
    if i == |s| || s[i] == '/' then i else Slash(s, i + 1)
  }

  /** At most `n` segments; what is past the cap stays in the last one, unsplit. */
  function SplitN(s: string, n: nat): (segs: seq<string>)
    requires n > 0
    ensures 0 < |segs| <= n
    decreases n
  {
    var i := Slash(s, 0);
    if n == 1 || i == |s| then [s] else [s[..i]] + SplitN(s[i + 1..], n - 1)
  }

  function Join(segs: seq<string>): string
    requires segs != []
  {
    if |segs| == 1 then segs[0] else segs[0] + "/" + Join(segs[1..])
  }

  predicate Plain(s: string) {
    '/' !in s
  }

  /** Segments that a split into at most `n` can give: only the `n`th may hold a slash. */
  ghost predicate Segments(segs: seq<string>, n: nat) {
    0 < |segs| <= n && forall i :: 0 <= i < |segs| && i < n - 1 ==> Plain(segs[i])
  }

  lemma {:induction false} SplitGivesSegments(s: string, n: nat)
    requires n > 0
    ensures Segments(SplitN(s, n), n) && Join(SplitN(s, n)) == s
    decreases n
  {
    var i := Slash(s, 0);
    if n > 1 && i < |s| {
      SplitGivesSegments(s[i + 1..], n - 1);
      var rest := SplitN(s[i + 1..], n - 1);
      assert SplitN(s, n)[1..] == rest;
      assert s == s[..i] + "/" + s[i + 1..];
      forall k | 0 <= k < |SplitN(s, n)| && k < n - 1
        ensures Plain(SplitN(s, n)[k])
      {
        if k > 0 {
          assert Plain(rest[k - 1]);
        }
      }
    }
  }

  lemma {:induction false} JoinSplits(segs: seq<string>, n: nat)
    requires Segments(segs, n)
    ensures SplitN(Join(segs), n) == segs
    decreases n
  {
    if |segs| == 1 {
      assert n > 1 ==> Plain(segs[0]);
    } else {
      var rest := segs[1..];
      assert Plain(segs[0]);
      SlashAfter(segs[0], Join(rest));
      forall k | 0 <= k < |rest| && k < n - 2
        ensures Plain(rest[k])
      {
        assert Plain(segs[k + 1]);
      }
      JoinSplits(rest, n - 1);
    }
  }

  lemma SlashAfter(first: string, rest: string)
    requires Plain(first)
    ensures var s := first + "/" + rest;
            var i := Slash(s, 0);
            i == |first| && s[..i] == first && i < |s| && s[i + 1..] == rest
  {
    var s := first + "/" + rest;
    assert s[|first|] == '/';
    assert forall k :: 0 <= k < |first| ==> s[k] == first[k];
  }

  // ---------------------------------------------------------------- what a tag says

  predicate Digits(s: string) {
    s != "" && forall i :: 0 <= i < |s| ==> '0' <= s[i] <= '9'
  }

  /** Twenty digits, or twenty digits, an underscore and more digits. */
  predicate IsJid(s: string) {
    && |s| >= JID_DIGITS && Digits(s[..JID_DIGITS])
    && (|s| > JID_DIGITS ==> s[JID_DIGITS] == '_' && Digits(s[JID_DIGITS + 1..]))
  }

  /** salt/{job,run,wheel}/<jid>/... */
  predicate JobTag(segs: seq<string>) {
    |segs| > 2 && segs[0] == "salt" && segs[1] in JOB_SPACES && IsJid(segs[2])
  }

  /** salt/{job,run,wheel}/<jid>/{ret,prog}/... */
  predicate ReturnTag(segs: seq<string>) {
    JobTag(segs) && |segs| > 3 && (segs[3] == "ret" || segs[3] == "prog")
  }

  /** salt/{minion,syndic}/<id>/... */
  predicate MinionTag(segs: seq<string>) {
    |segs| > 2 && segs[0] == "salt" && segs[1] in MINION_SPACES
  }

  /** minion/refresh/<id> */
  predicate RefreshTag(segs: seq<string>) {
    |segs| == 3 && segs[0] == "minion" && segs[1] == "refresh"
  }

  /** The whole tag is a JID. */
  predicate BareJid(segs: seq<string>) {
    |segs| == 1 && IsJid(segs[0])
  }

  /** The segments that name a job or a minion, and those that trail a minion. */
  predicate Starred(segs: seq<string>, i: nat) {
    || (i == 2 && (JobTag(segs) || MinionTag(segs) || RefreshTag(segs)))
    || (i >= 4 && ReturnTag(segs))
  }

  /** The segments with those starred out; of a bare JID nothing is left. */
  function Normal(segs: seq<string>): (r: seq<string>)
    ensures |r| == |segs|
  {
    if BareJid(segs) then [""]
    else seq(|segs|, i requires 0 <= i < |segs| => if Starred(segs, i) then STAR else segs[i])
  }

  predicate Canonical(segs: seq<string>) {
    |segs| > 1 && segs[0] == "salt" && segs[1] in NAMESPACES
  }

  function KindOf(segs: seq<string>): Kind {
    if !Canonical(segs) then KindOther
    else if segs[1] == "auth" then KindAuth
    else if segs[1] == "key" then KindKey
    else if segs[1] == "presence" then KindPresence
    else if MinionTag(segs) && |segs| > 3 && segs[3] == "start" then KindStart
    else if JobTag(segs) && |segs| > 3 then
      if segs[3] == "new" then KindNew
      else if segs[3] == "ret" then KindRet
      else if segs[3] == "prog" then KindProg
      else KindOther
    else KindOther
  }

  /** All that is read off the segments of a tag. */
  function Described(segs: seq<string>): Info
    requires segs != []
  {
    Info(
      if Canonical(segs) then segs[1] else CUSTOM,
      Join(Normal(segs)),
      if JobTag(segs) then segs[2] else if BareJid(segs) then segs[0] else "",
      if MinionTag(segs) || RefreshTag(segs) then segs[2]
      else if ReturnTag(segs) && |segs| > 4 then segs[4] else "",
      KindOf(segs))
  }

  function Category(tag: string): string {
    Join(Normal(SplitN(tag, MAX_SEGMENTS)))
  }

  // ---------------------------------------------------------------- the parser

  method AllDigits(s: string) returns (r: bool)
    ensures r <==> Digits(s)
  {
    if s == "" {
      return false;
    }
    for i := 0 to |s|
      invariant forall k :: 0 <= k < i ==> '0' <= s[k] <= '9'
    {
      if s[i] < '0' || s[i] > '9' {
        return false;
      }
    }
    return true;
  }

  method CheckJid(s: string) returns (r: bool)
    ensures r <==> IsJid(s)
  {
    if |s| < JID_DIGITS {
      return false;
    }
    var head := AllDigits(s[..JID_DIGITS]);
    if !head {
      return false;
    }
    if |s| == JID_DIGITS {
      return true;
    }
    var suffix := s[JID_DIGITS..];
    var tail := AllDigits(suffix[1..]);
    assert suffix[1..] == s[JID_DIGITS + 1..];
    return suffix[0] == '_' && |suffix| > 1 && tail;
  }

  /** Decodes a tag. */
  method Parse(tag: string) returns (info: Info)
    ensures info == Described(SplitN(tag, MAX_SEGMENTS))
    ensures info.kind.KindNew? || info.kind.KindRet? || info.kind.KindProg? ==> IsJid(info.jid)
    ensures info.jid != "" ==> IsJid(info.jid) && info.jid in SplitN(tag, MAX_SEGMENTS)
  {
    var segs := SplitN(tag, MAX_SEGMENTS);
    var norm := new string[|segs|](i requires 0 <= i < |segs| => segs[i]);
    assert norm[..] == segs;
    info := Info(CUSTOM, "", "", "", KindOther);
    if |segs| >= 2 && segs[0] == "salt" {
      info := ParsePrefixed(segs, norm, info);
    } else {
      info := ParseUnprefixed(segs, norm, info);
    }
    info := info.(category := Join(norm[..]));
    JobKindsHaveJids(segs);
    JidsAreWellFormed(tag);
  }

  /** What a parse leaves but for the category. */
  ghost predicate Parsed(segs: seq<string>, norm: seq<string>, info: Info)
    requires segs != []
  {
    norm == Normal(segs) && info == Described(segs).(category := "")
  }

  method ParsePrefixed(segs: seq<string>, norm: array<string>, given: Info) returns (info: Info)
    requires |segs| >= 2 && segs[0] == "salt" && norm[..] == segs
    requires given == Info(CUSTOM, "", "", "", KindOther)
    modifies norm
    ensures Parsed(segs, norm[..], info)
  {
    info := given;
    if segs[1] !in NAMESPACES {
      return;
    }
    info := info.(namespace := segs[1]);
    if segs[1] in JOB_SPACES {
      info := ParseJobShaped(segs, norm, info);
    } else if segs[1] in MINION_SPACES {
      info := ParseMinionShaped(segs, norm, info);
    } else if segs[1] == "auth" {
      info := info.(kind := KindAuth);
    } else if segs[1] == "key" {
      info := info.(kind := KindKey);
    } else if segs[1] == "presence" {
      info := info.(kind := KindPresence);
    }
  }

  method ParseUnprefixed(segs: seq<string>, norm: array<string>, given: Info) returns (info: Info)
    requires segs != [] && (|segs| == 1 || segs[0] != "salt") && norm[..] == segs
    requires given == Info(CUSTOM, "", "", "", KindOther)
    modifies norm
    ensures Parsed(segs, norm[..], info)
  {
    info := given;
    var bare := false;
    if |segs| == 1 {
      bare := CheckJid(segs[0]);
    }
    if bare {
      info := info.(jid := segs[0]);
      norm[0] := "";
    } else if |segs| == 3 && segs[0] == "minion" && segs[1] == "refresh" {
      info := info.(minion := segs[2]);
      norm[2] := STAR;
    }
  }

  method ParseJobShaped(segs: seq<string>, norm: array<string>, given: Info) returns (info: Info)
    requires |segs| >= 2 && segs[0] == "salt" && segs[1] in JOB_SPACES && norm[..] == segs
    requires given == Info(segs[1], "", "", "", KindOther)
    modifies norm
    ensures Parsed(segs, norm[..], info)
  {
    info := given;
    if |segs| <= 2 {
      return;
    }
    var jid := CheckJid(segs[2]);
    if !jid {
      return;
    }
    info := info.(jid := segs[2]);
    norm[2] := STAR;
    if |segs| <= 3 {
      return;
    }
    if segs[3] == "new" {
      info := info.(kind := KindNew);
    } else if segs[3] == "ret" {
      info := info.(kind := KindRet);
      info := TakeMinion(segs, norm, info, 4);
    } else if segs[3] == "prog" {
      info := info.(kind := KindProg);
      info := TakeMinion(segs, norm, info, 4);
    }
  }

  /** Records the minion at `idx` and stars it out with everything after it. */
  method TakeMinion(segs: seq<string>, norm: array<string>, given: Info, idx: nat) returns (info: Info)
    requires norm.Length == |segs|
    modifies norm
    ensures info == if idx < |segs| then given.(minion := segs[idx]) else given
    ensures forall i :: 0 <= i < norm.Length ==> norm[i] == if i < idx then old(norm[i]) else STAR
  {
    info := given;
    if |segs| <= idx {
      return;
    }
    info := info.(minion := segs[idx]);
    for i := idx to norm.Length
      invariant forall k :: 0 <= k < norm.Length ==> norm[k] == if idx <= k < i then STAR else old(norm[k])
    {
      norm[i] := STAR;
    }
  }

  method ParseMinionShaped(segs: seq<string>, norm: array<string>, given: Info) returns (info: Info)
    requires |segs| >= 2 && segs[0] == "salt" && segs[1] in MINION_SPACES && norm[..] == segs
    requires given == Info(segs[1], "", "", "", KindOther)
    modifies norm
    ensures Parsed(segs, norm[..], info)
  {
    info := given;
    if |segs| <= 2 {
      return;
    }
    info := info.(minion := segs[2]);
    norm[2] := STAR;
    if |segs| > 3 && segs[3] == "start" {
      info := info.(kind := KindStart);
    }
  }

  // ---------------------------------------------------------------- laws

  /** Starring a segment cannot add a slash, so the category splits into the starred segments. */
  lemma CategorySplits(tag: string)
    ensures SplitN(Category(tag), MAX_SEGMENTS) == Normal(SplitN(tag, MAX_SEGMENTS))
  {
    var segs := SplitN(tag, MAX_SEGMENTS);
    SplitGivesSegments(tag, MAX_SEGMENTS);
    forall i | 0 <= i < |segs| && i < MAX_SEGMENTS - 1
      ensures Plain(Normal(segs)[i])
    {
      assert Plain(segs[i]);
    }
    JoinSplits(Normal(segs), MAX_SEGMENTS);
  }

  lemma NormalIsStable(segs: seq<string>)
    ensures Normal(Normal(segs)) == Normal(segs)
  {
    var r := Normal(segs);
    assert !BareJid(r);
    forall i | 0 <= i < |r| && Starred(r, i)
      ensures r[i] == STAR
    {
      assert i == 2 && !JobTag(r);
    }
  }

  /** The category of a category is itself. */
  lemma CategoryIsIdempotent(tag: string)
    ensures Category(Category(tag)) == Category(tag)
  {
    CategorySplits(tag);
    NormalIsStable(SplitN(tag, MAX_SEGMENTS));
  }

  /** Two tags share a category exactly when their starred segments are the same. */
  lemma CategoriesSeparate(tag: string, other: string)
    ensures Category(tag) == Category(other)
      <==> Normal(SplitN(tag, MAX_SEGMENTS)) == Normal(SplitN(other, MAX_SEGMENTS))
  {
    CategorySplits(tag);
    CategorySplits(other);
  }

  /** A tag is its own category exactly when no segment is starred that was not a star, and it is
      not a bare JID. */
  lemma UnrecognisedIsItself(tag: string)
    ensures var segs := SplitN(tag, MAX_SEGMENTS);
            Category(tag) == tag <==>
              !BareJid(segs) && forall i :: 0 <= i < |segs| && Starred(segs, i) ==> segs[i] == STAR
  {
    var segs := SplitN(tag, MAX_SEGMENTS);
    SplitGivesSegments(tag, MAX_SEGMENTS);
    CategorySplits(tag);
    if Category(tag) == tag {
      assert Normal(segs) == segs;
      forall i | 0 <= i < |segs| && Starred(segs, i)
        ensures segs[i] == STAR
      {
        assert Normal(segs)[i] == segs[i];
      }
    }
    if !BareJid(segs) && forall i :: 0 <= i < |segs| && Starred(segs, i) ==> segs[i] == STAR {
      assert Normal(segs) == segs;
    }
  }

  /** The same job tag but for the JID, and for a return the minion and what trails it. */
  ghost predicate SameButForNames(segs: seq<string>, other: seq<string>) {
    && |segs| == |other| && |segs| > 2 && segs[0] == other[0] == "salt" && segs[1] == other[1] && segs[1] in JOB_SPACES
    && IsJid(segs[2]) && IsJid(other[2])
    && forall i :: 3 <= i < |segs| && !(i >= 4 && (segs[3] == "ret" || segs[3] == "prog")) ==> segs[i] == other[i]
  }

  /** Job tags that differ only in the names share a category, so categories do not grow with jobs
      or minions. */
  lemma NamesDoNotCount(tag: string, other: string)
    requires SameButForNames(SplitN(tag, MAX_SEGMENTS), SplitN(other, MAX_SEGMENTS))
    ensures Category(tag) == Category(other)
  {
    var a, b := SplitN(tag, MAX_SEGMENTS), SplitN(other, MAX_SEGMENTS);
    assert ReturnTag(a) == ReturnTag(b);
    assert Normal(a) == Normal(b);
  }

  /** A tag is a job's new, ret or prog only with a well-formed JID, and that JID is reported. */
  lemma JobKindsHaveJids(segs: seq<string>)
    requires segs != []
    ensures var info := Described(segs);
            && (info.kind.KindNew? <==> JobTag(segs) && |segs| > 3 && segs[3] == "new")
            && (info.kind.KindRet? <==> JobTag(segs) && |segs| > 3 && segs[3] == "ret")
            && (info.kind.KindProg? <==> JobTag(segs) && |segs| > 3 && segs[3] == "prog")
            && (info.kind.KindNew? || info.kind.KindRet? || info.kind.KindProg? ==>
                  IsJid(info.jid) && info.jid == segs[2])
  {}

  /** Any JID reported is well formed, and the tag held it. */
  lemma JidsAreWellFormed(tag: string)
    ensures var info := Described(SplitN(tag, MAX_SEGMENTS));
            info.jid == "" || (IsJid(info.jid) && info.jid in SplitN(tag, MAX_SEGMENTS))
  {}

  /** Only a bare JID and the empty tag leave no category. */
  lemma EmptyCategory(tag: string)
    ensures Category(tag) == "" <==> tag == "" || IsJid(tag)
  {
    var segs := SplitN(tag, MAX_SEGMENTS);
    SplitGivesSegments(tag, MAX_SEGMENTS);
    JidsHaveNoSlash(tag);
    if |segs| > 1 {
      assert |Join(Normal(segs))| >= 1;
    }
  }

  lemma JidChar(tag: string, i: nat)
    requires IsJid(tag) && i < |tag|
    ensures tag[i] != '/'
  {
    if i < JID_DIGITS {
      assert tag[..JID_DIGITS][i] == tag[i];
    } else if i > JID_DIGITS {
      assert tag[JID_DIGITS + 1..][i - JID_DIGITS - 1] == tag[i];
    }
  }

  lemma JidsHaveNoSlash(tag: string)
    ensures IsJid(tag) ==> SplitN(tag, MAX_SEGMENTS) == [tag]
  {
    if IsJid(tag) {
      forall i | 0 <= i < |tag|
        ensures tag[i] != '/'
      {
        JidChar(tag, i);
      }
      assert Slash(tag, 0) == |tag|;
    }
  }
}
