/** The shapes of tag that the master fires, written out, and what `internal/salttag/salttag.go` reads
    off each. */
module TagShapes {
  import opened Events
  import opened SaltTags

  /** Segments without slashes, joined, split into themselves. */
  lemma PlainSegmentsSplit(segs: seq<string>)
    requires 0 < |segs| < 64 && forall i :: 0 <= i < |segs| ==> Plain(segs[i])
    ensures SplitN(Join(segs), MAX_SEGMENTS) == segs
  {
    JoinSplits(segs, MAX_SEGMENTS);
  }

  lemma JidIsPlain(jid: string)
    requires IsJid(jid)
    ensures Plain(jid)
  {
    forall i | 0 <= i < |jid|
      ensures jid[i] != '/'
    {
      JidChar(jid, i);
    }
  }

  /** What is read off a tag of these segments. */
  ghost predicate Reads(segs: seq<string>, namespace: string, category: seq<string>, jid: string, minion: string,
      kind: Kind)
    requires segs != [] && category != []
  {
    var info := Described(SplitN(Join(segs), MAX_SEGMENTS));
    && info.namespace == namespace && info.category == Join(category)
    && info.jid == jid && info.minion == minion && info.kind == kind
  }

  lemma ReadsAre(segs: seq<string>, namespace: string, category: seq<string>, jid: string, minion: string, kind: Kind)
    requires 0 < |segs| < 64 && (forall i :: 0 <= i < |segs| ==> Plain(segs[i])) && category != []
    requires Normal(segs) == category && Described(segs).namespace == namespace
    requires Described(segs).jid == jid && Described(segs).minion == minion && KindOf(segs) == kind
    ensures Reads(segs, namespace, category, jid, minion, kind)
  {
    PlainSegmentsSplit(segs);
  }

  /** salt/<space>/<jid>/new */
  lemma NewJobTag(space: string, jid: string)
    requires space in JOB_SPACES && IsJid(jid)
    ensures Reads(["salt", space, jid, "new"], space, ["salt", space, "*", "new"], jid, "", KindNew)
  {
    var segs := ["salt", space, jid, "new"];
    JidIsPlain(jid);
    assert JobTag(segs) && !ReturnTag(segs) && !MinionTag(segs) && !BareJid(segs) && !RefreshTag(segs);
    assert Normal(segs) == ["salt", space, "*", "new"];
    ReadsAre(segs, space, ["salt", space, "*", "new"], jid, "", KindNew);
  }

  /** salt/<space>/<jid>/{ret,prog}/<minion>, and a run number after it */
  lemma ReturnTags(space: string, jid: string, verb: string, minion: string, number: string)
    requires space in JOB_SPACES && IsJid(jid) && (verb == "ret" || verb == "prog") && Plain(minion) && Plain(number)
    ensures var kind := if verb == "ret" then KindRet else KindProg;
            && Reads(["salt", space, jid, verb, minion], space, ["salt", space, "*", verb, "*"], jid, minion, kind)
            && Reads(["salt", space, jid, verb, minion, number], space, ["salt", space, "*", verb, "*", "*"],
                     jid, minion, kind)
  {
    var kind := if verb == "ret" then KindRet else KindProg;
    JidIsPlain(jid);
    var segs, more := ["salt", space, jid, verb, minion], ["salt", space, jid, verb, minion, number];
    assert ReturnTag(segs) && !MinionTag(segs) && !BareJid(segs) && !RefreshTag(segs);
    assert ReturnTag(more) && !MinionTag(more) && !BareJid(more) && !RefreshTag(more);
    assert Normal(segs) == ["salt", space, "*", verb, "*"];
    assert Normal(more) == ["salt", space, "*", verb, "*", "*"];
    ReadsAre(segs, space, ["salt", space, "*", verb, "*"], jid, minion, kind);
    ReadsAre(more, space, ["salt", space, "*", verb, "*", "*"], jid, minion, kind);
  }

  /** salt/{minion,syndic}/<id>/start, and with any other verb */
  lemma MinionTags(space: string, id: string, verb: string)
    requires space in MINION_SPACES && Plain(id) && Plain(verb)
    ensures Reads(["salt", space, id, verb], space, ["salt", space, "*", verb], "", id,
                  if verb == "start" then KindStart else KindOther)
  {
    var segs := ["salt", space, id, verb];
    assert MinionTag(segs) && !JobTag(segs) && !BareJid(segs) && !RefreshTag(segs);
    assert Normal(segs) == ["salt", space, "*", verb];
    ReadsAre(segs, space, ["salt", space, "*", verb], "", id, if verb == "start" then KindStart else KindOther);
  }

  /** salt/auth */
  lemma AuthTag()
    ensures Reads(["salt", "auth"], "auth", ["salt", "auth"], "", "", KindAuth)
  {
    Unstarred(["salt", "auth"]);
    ReadsAre(["salt", "auth"], "auth", ["salt", "auth"], "", "", KindAuth);
  }

  /** salt/key */
  lemma KeyTag()
    ensures Reads(["salt", "key"], "key", ["salt", "key"], "", "", KindKey)
  {
    Unstarred(["salt", "key"]);
    ReadsAre(["salt", "key"], "key", ["salt", "key"], "", "", KindKey);
  }

  /** salt/presence/<what> */
  lemma PresenceTag(what: string)
    requires Plain(what)
    ensures Reads(["salt", "presence", what], "presence", ["salt", "presence", what], "", "", KindPresence)
  {
    Unstarred(["salt", "presence", what]);
    ReadsAre(["salt", "presence", what], "presence", ["salt", "presence", what], "", "", KindPresence);
  }

  lemma Unstarred(segs: seq<string>)
    requires !JobTag(segs) && !MinionTag(segs) && !RefreshTag(segs) && !BareJid(segs)
    ensures Normal(segs) == segs
  {}

  /** minion/refresh/<id>, which is no salt/ tag */
  lemma RefreshTags(id: string)
    requires Plain(id)
    ensures Reads(["minion", "refresh", id], "custom", ["minion", "refresh", "*"], "", id, KindOther)
  {
    var segs := ["minion", "refresh", id];
    assert RefreshTag(segs) && !JobTag(segs) && !MinionTag(segs) && !BareJid(segs);
    assert Normal(segs) == ["minion", "refresh", "*"];
    ReadsAre(segs, "custom", ["minion", "refresh", "*"], "", id, KindOther);
  }

  /** A bare JID, and a tag of one other segment */
  lemma SingleTags(text: string)
    requires Plain(text)
    ensures IsJid(text) ==> Reads([text], "custom", [""], text, "", KindOther)
    ensures !IsJid(text) ==> Reads([text], "custom", [text], "", "", KindOther)
  {
    if IsJid(text) {
      assert BareJid([text]);
      ReadsAre([text], "custom", [""], text, "", KindOther);
    } else {
      Unstarred([text]);
      ReadsAre([text], "custom", [text], "", "", KindOther);
    }
  }

  const DIGITS := "0123456789"

  ghost predicate AllDigits(s: string) {
    forall i :: 0 <= i < |s| ==> s[i] in DIGITS
  }

  lemma DigitsAreDigits(s: string)
    ensures Digits(s) <==> s != "" && AllDigits(s)
  {
    forall i | 0 <= i < |s|
      ensures '0' <= s[i] <= '9' <==> s[i] in DIGITS
    {
      DigitIsDigit(s[i]);
    }
  }

  lemma DigitIsDigit(c: char)
    ensures '0' <= c <= '9' <==> c in DIGITS
  {
    if '0' <= c <= '9' {
      assert DIGITS[c as int - '0' as int] == c;
    }
  }

  /** A JID is twenty digits, or twenty digits, an underscore and one or more digits; nothing else is. */
  lemma JidIs(s: string)
    ensures IsJid(s) <==>
              |s| >= 20 && AllDigits(s[..20]) && (|s| == 20 || (|s| > 21 && s[20] == '_' && AllDigits(s[21..])))
  {
    if |s| >= 20 {
      DigitsAreDigits(s[..20]);
    }
    if |s| > 20 {
      DigitsAreDigits(s[21..]);
    }
  }
}
