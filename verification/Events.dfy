/** The event that ingest hands around, of `internal/model/event.go`. */
module Events {
  import opened Basics

  newtype Byte = x: int | 0 <= x < 256

  datatype Kind = KindOther | KindNew | KindRet | KindProg | KindStart | KindAuth | KindKey | KindPresence

  /** The fields extracted eagerly at ingest; everything but the payload is one of them. */
  datatype Indexed = Indexed(
    arrival: nat, namespace: string, category: string, jid: string, minion: string, fun: string,
    kind: Kind, retCode: int, success: bool, hasRet: bool)

  /** One message off the bus. A payload may be present and empty, which is not the same as gone. */
  datatype Event = Event(tag: string, at: Indexed, payload: Option<seq<Byte>>, shed: bool, masterTrimmed: bool)

  const PER_EVENT_OVERHEAD: nat := 256

  function PayloadSize(e: Event): nat {
    if e.payload.Some? then |e.payload.value| else 0
  }

  /** The bytes a rune takes in UTF-8. */
  function Width(c: char): nat {
    var n := c as int;
    if n < 0x80 then 1 else if n < 0x800 then 2 else if n < 0x1_0000 then 3 else 4
  }

  function Bytes(s: string): nat {
    if s == "" then 0 else Bytes(s[..|s| - 1]) + Width(s[|s| - 1])
  }

  /** The event's cost against the cache budget. */
  function Size(e: Event): nat {
    Bytes(e.tag) + PayloadSize(e) + PER_EVENT_OVERHEAD
  }

  lemma {:induction false} AsciiBytes(s: string)
    requires forall i :: 0 <= i < |s| ==> s[i] as int < 128
    ensures Bytes(s) == |s|
  {
    if s != "" {
      AsciiBytes(s[..|s| - 1]);
    }
  }

  /** An event with an ASCII tag costs the tag, the payload and 256 bytes. */
  lemma SizeIs(e: Event)
    requires forall i :: 0 <= i < |e.tag| ==> e.tag[i] as int < 128
    ensures Size(e) == |e.tag| + (if e.payload.Some? then |e.payload.value| else 0) + 256
  {
    AsciiBytes(e.tag);
  }
}
