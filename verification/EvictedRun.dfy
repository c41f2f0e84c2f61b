/** A run of the job index that forgets a recent eviction: what the memory of `internal/stats/jobs.go`
    does with a job that is evicted, comes back, and is evicted again. */
module EvictedRun {
  import opened Basics
  import opened Events
  import opened Jobs
  import opened Evicted
  import opened IndexSpec
  import opened IndexLaws
  import SaltTags

  /** An index for one job, with no ceiling on bytes; its memory has room for 64 evictions. */
  const ONE_JOB := Limits(1, 0)

  /** The event of a job's publication, with no target list that could be read. */
  function Publication(jid: string): Event {
    Event(Tag(jid), Indexed(1_700_000_000_000_000_000, "job", "salt/job/*/new", jid, "", "", KindNew, 0, false, false),
          None, false, false)
  }

  function Tag(jid: string): string {
    "salt/job/" + jid + "/new"
  }

  function Segments(jid: string): seq<string> {
    ["salt", "job", jid, "new"]
  }

  lemma JoinFour(a: string, b: string, c: string, d: string)
    ensures SaltTags.Join([a, b, c, d]) == a + "/" + (b + "/" + (c + "/" + d))
  {
    assert [a, b, c, d][1..] == [b, c, d] && [b, c, d][1..] == [c, d] && [c, d][1..] == [d];
    assert SaltTags.Join([d]) == d;
    assert SaltTags.Join([c, d]) == c + "/" + d;
    assert SaltTags.Join([b, c, d]) == b + "/" + (c + "/" + d);
  }

  lemma TagSplits(jid: string)
    requires SaltTags.Plain(jid)
    ensures SaltTags.SplitN(Tag(jid), SaltTags.MAX_SEGMENTS) == Segments(jid)
  {
    var segs := Segments(jid);
    forall i | 0 <= i < |segs|
      ensures SaltTags.Plain(segs[i])
    {
      assert segs[i] == "salt" || segs[i] == "job" || segs[i] == jid || segs[i] == "new";
    }
    JoinFour("salt", "job", jid, "new");
    assert Tag(jid) == "salt" + "/" + ("job" + "/" + (jid + "/" + "new"));
    SaltTags.JoinSplits(segs, SaltTags.MAX_SEGMENTS);
  }

  /** The tag of a publication says what the event's fields say. */
  lemma TagIsANewJob(jid: string)
    requires SaltTags.IsJid(jid)
    ensures var segs := SaltTags.SplitN(Tag(jid), SaltTags.MAX_SEGMENTS);
            && SaltTags.JobTag(segs) && segs[2] == jid && SaltTags.KindOf(segs) == KindNew
            && SaltTags.Described(segs).namespace == "job" && SaltTags.Described(segs).jid == jid
  {
    SaltTags.JidsHaveNoSlash(jid);
    SaltTags.SplitGivesSegments(jid, SaltTags.MAX_SEGMENTS);
    var alone := SaltTags.SplitN(jid, SaltTags.MAX_SEGMENTS);
    assert SaltTags.Plain(alone[0]);
    TagSplits(jid);
    var segs := Segments(jid);
    assert segs[1] in SaltTags.JOB_SPACES && segs[1] in SaltTags.NAMESPACES;
    assert SaltTags.JobTag(segs);
  }

  function Published(jids: seq<string>): seq<IndexOp> {
    if jids == [] then [] else Published(jids[..|jids| - 1]) + [See(Publication(jids[|jids| - 1]), None, false)]
  }

  lemma PublishNext(jids: seq<string>, jid: string)
    ensures Run(ONE_JOB, Published(jids + [jid]))
              == Act(ONE_JOB, Run(ONE_JOB, Published(jids)), See(Publication(jid), None, false))
  {
    assert (jids + [jid])[..|jids|] == jids;
    RunMore(ONE_JOB, Published(jids), See(Publication(jid), None, false));
  }

  /** One job, never returned and never complete, is all there is. */
  ghost predicate Alone(ix: Index, jid: string) {
    && Sound(ix) && |ix.entries| == 1 && ix.pinned == "" && ix.bytes == 0
    && ix.entries[0].bytes == 0
    && var v := ix.entries[0].job; v.jid == jid && v.state == Unseen && v.expected == {} && v.answers == map[]
  }

  lemma NextJob(ix: Index, was: string, jid: string)
    requires Alone(ix, was) && jid != "" && was != "" && jid != was
    ensures var r := Act(ONE_JOB, ix, See(Publication(jid), None, false));
            Alone(r, jid) && r.log == ix.log + [was]
  {
    var e := Publication(jid);
    var t := Touch(ix, jid);
    TouchIsSound(ix, jid);
    FindIs(ix.entries, jid);
    FindIs(t.entries, jid);
    assert Find(ix.entries, jid) == 1;
    assert t.entries == ix.entries + [Entry(EmptyJob(jid), 0)];
    assert Find(t.entries, jid) == 1;
    var job := Updated(EmptyJob(jid), e, None, false);
    assert Weight(job) == 0;
    var r := Recorded(ix, jid, e, None, false);
    RecordedIsSound(ix, jid, e, None, false);
    assert r.entries == [ix.entries[0], Entry(job, 0)];
    assert Oldest(r.entries, "", 0, 2) == -1;
    assert Oldest(r.entries, "", 0, 1) == -1;
    assert Victim(r.entries, "") == 0;
    DropIsSound(r, 0);
    var d := Drop(r, 0);
    assert d.entries == [Entry(job, 0)];
    assert OverCapacity(ONE_JOB, r) && !OverCapacity(ONE_JOB, d);
    assert Evict(ONE_JOB, d) == d && Evict(ONE_JOB, r) == d;
  }

  lemma FirstJob(jid: string)
    requires jid != ""
    ensures var r := Act(ONE_JOB, NO_JOBS, See(Publication(jid), None, false)); Alone(r, jid) && r.log == []
  {
    var e := Publication(jid);
    TouchIsSound(NO_JOBS, jid);
    var job := Updated(EmptyJob(jid), e, None, false);
    assert Weight(job) == 0;
    RecordedIsSound(NO_JOBS, jid, e, None, false);
    assert Recorded(NO_JOBS, jid, e, None, false).entries == [Entry(job, 0)];
  }

  /** The last job published is alone, and all before it were evicted in turn. */
  ghost predicate InTurn(jids: seq<string>, ix: Index) {
    jids != [] && Alone(ix, jids[|jids| - 1]) && ix.log == jids[..|jids| - 1]
  }

  lemma OneMoreInTurn(jids: seq<string>, ix: Index, jid: string)
    requires InTurn(jids, ix) && jid != "" && jids[|jids| - 1] != "" && jid != jids[|jids| - 1]
    ensures InTurn(jids + [jid], Act(ONE_JOB, ix, See(Publication(jid), None, false)))
  {
    NextJob(ix, jids[|jids| - 1], jid);
    assert jids == jids[..|jids| - 1] + [jids[|jids| - 1]];
  }

  /** Publishing one job after another evicts each in turn. */
  lemma {:induction false} EachIsEvicted(jids: seq<string>)
    requires jids != [] && (forall i :: 0 <= i < |jids| ==> jids[i] != "")
    requires forall i :: 0 <= i < |jids| - 1 ==> jids[i] != jids[i + 1]
    ensures InTurn(jids, Run(ONE_JOB, Published(jids)))
  {
    var n := |jids| - 1;
    var front := jids[..n];
    PublishNext(front, jids[n]);
    assert jids == front + [jids[n]];
    if front == [] {
      FirstJob(jids[0]);
    } else {
      EachIsEvicted(front);
      OneMoreInTurn(front, Run(ONE_JOB, Published(front)), jids[n]);
    }
  }

  const DIGITS := "0123456789"

  /** A hundred JIDs of one second. */
  function Name(n: nat): (s: string)
    requires n < 100
    ensures |s| == 20 && s[18] == DIGITS[n / 10] && s[19] == DIGITS[n % 10]
  {
    "202311142213200000" + [DIGITS[n / 10], DIGITS[n % 10]]
  }

  lemma NamesDiffer(i: nat, j: nat)
    requires i < 100 && j < 100 && i != j
    ensures Name(i) != Name(j)
  {
    assert Name(i)[18] == DIGITS[i / 10] && Name(j)[18] == DIGITS[j / 10];
    assert Name(i)[19] == DIGITS[i % 10] && Name(j)[19] == DIGITS[j % 10];
    DigitsDiffer(i / 10, j / 10);
    DigitsDiffer(i % 10, j % 10);
  }

  lemma DigitsDiffer(a: nat, b: nat)
    requires a < 10 && b < 10
    ensures DIGITS[a] == DIGITS[b] ==> a == b
  {
    assert forall k :: 0 <= k < 10 ==> DIGITS[k] as int == 48 + k;
  }

  lemma NamesAreJids(n: nat)
    requires n < 100
    ensures SaltTags.IsJid(Name(n))
  {
    assert forall k :: 0 <= k < 10 ==> '0' <= DIGITS[k] <= '9';
    assert Name(n)[..20] == Name(n);
    assert forall k :: 0 <= k < 18 ==> '0' <= "202311142213200000"[k] <= '9';
  }

  function Names(n: nat): seq<string>
    requires n <= 100
  {
    seq(n, i requires 0 <= i < n => Name(i))
  }

  /** Sixty-four jobs, the first of them again, and two more. */
  function Roster(): (jids: seq<string>)
    ensures |jids| == 67
  {
    Names(64) + [Name(0)] + [Name(64)] + [Name(65)]
  }

  /** Which name comes when. */
  function Nth(i: nat): (n: nat)
    requires i < 67
    ensures n < 66 && (i < 66 ==> n != (if i + 1 < 64 then i + 1 else if i + 1 == 64 then 0 else i))
  {
    if i < 64 then i else if i == 64 then 0 else i - 1
  }

  lemma RosterAt(i: nat)
    requires i < 67
    ensures Roster()[i] == Name(Nth(i)) && SaltTags.IsJid(Roster()[i])
    ensures i < 66 ==> Roster()[i + 1] == Name(Nth(i + 1)) && Roster()[i] != Roster()[i + 1]
  {
    NamesAreJids(Nth(i));
    if i < 66 {
      NamesDiffer(Nth(i), Nth(i + 1));
    }
  }

  /** The sixty-four come and go, the first comes back and goes again, and one more goes: the index says
      of the first that it was never seen, though it is the last eviction but one. */
  lemma ARecentEvictionIsUnseen()
    ensures forall i :: 0 <= i < |Roster()| ==> SaltTags.IsJid(Roster()[i])
    ensures var ix := Run(ONE_JOB, Published(Roster()));
            Name(0) in Last(ix.log, 2) && LookUp(ONE_JOB, ix, Name(0)) == LookupUnseen
  {
    forall i | 0 <= i < 67
      ensures SaltTags.IsJid(Roster()[i]) && (i < 66 ==> Roster()[i] != Roster()[i + 1])
    {
      RosterAt(i);
    }
    EachIsEvicted(Roster());
    var ix, first := Run(ONE_JOB, Published(Roster())), Names(64);
    assert ix.log == first + [first[0]] + [Name(64)];
    FirstIsForgotten(first);
    NamesDiffer(65, 0);
    FindIs(ix.entries, Name(0));
  }

  lemma FirstIsForgotten(first: seq<string>)
    requires first == Names(64)
    ensures var log := first + [first[0]] + [Name(64)];
            Name(0) in Last(log, 2) && Name(0) !in Memory(log, 64)
  {
    forall i, j | 0 <= i < j < |first|
      ensures first[i] != first[j]
    {
      NamesDiffer(i, j);
    }
    forall i | 0 <= i < |first|
      ensures first[i] != Name(64)
    {
      NamesDiffer(i, 64);
    }
    ARepeatIsForgotten(first, Name(64));
  }
}
