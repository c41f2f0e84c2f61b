/** The wire format of `internal/saltipc/frame.go`: length-prefixed frames, each holding an encoded
    body that is split into tag and payload. The stream is finitely many bytes and then its end. */
module Frames {
  import opened Basics
  import opened Events

  const MAX_FRAME: nat := 0x400_0000
  const NEWLINE: Byte := 10
  const TAGEND := [NEWLINE, NEWLINE]

  datatype Frame = Frame(tag: seq<Byte>, payload: seq<Byte>)

  datatype Error = EndOfStream | TooLarge | ShortBody | BadBody | NoDelimiter

  datatype Outcome = Read(frame: Frame) | Failed(error: Error)

  /** What the message library makes of a buffer: the body it encodes, if it encodes one. */
  type Library = seq<Byte> -> Option<seq<Byte>>

  // ---------------------------------------------------------------- tag and payload

  predicate TagendAt(body: seq<Byte>, i: nat) {
    i + 2 <= |body| && body[i] == NEWLINE && body[i + 1] == NEWLINE
  }

  /** The least index at or after `i` of two newlines, or -1. */
  function FindTagend(body: seq<Byte>, i: nat): (r: int)
    requires i <= |body|
    ensures r == -1 || (i <= r && TagendAt(body, r))
    ensures forall k :: i <= k < (if r == -1 then |body| else r) ==> !TagendAt(body, k)
    decreases |body| - i
  {
    if TagendAt(body, i) then i
    else if i + 2 >= |body| then -1
    else FindTagend(body, i + 1)
  }

  /** Splits at the first delimiter only. */
  function Split(body: seq<Byte>): Outcome {
    var i := FindTagend(body, 0);
    if i < 0 then Failed(NoDelimiter) else Read(Frame(body[..i], body[i + 2..]))
  }

  /** No delimiter in the tag, and none that its last byte begins. */
  predicate CleanTag(tag: seq<Byte>) {
    FindTagend(tag, 0) == -1 && (tag != [] ==> tag[|tag| - 1] != NEWLINE)
  }

  /** The split undoes the join for exactly the clean tags, whatever the payload. */
  lemma SplitInvertsJoin(tag: seq<Byte>, payload: seq<Byte>)
    ensures Split(tag + TAGEND + payload) == Read(Frame(tag, payload)) <==> CleanTag(tag)
  {
    var body := tag + TAGEND + payload;
    var n := |tag|;
    assert TagendAt(body, n);
    assert forall k :: 0 <= k < n ==> body[k] == tag[k];
    var i := FindTagend(body, 0);
    if i == n {
      assert body[..n] == tag && body[n + 2..] == payload;
      assert n > 0 ==> !TagendAt(body, n - 1);
      assert forall k :: 0 <= k < n ==> !TagendAt(body, k);
      assert forall k :: 0 <= k < n && TagendAt(tag, k) ==> TagendAt(body, k);
    } else {
      assert TagendAt(body, i) && i < n;
      if i < n - 1 {
        assert TagendAt(tag, i);
      } else {
        assert tag[n - 1] == NEWLINE;
      }
    }
  }

  /** Whatever splits was joined from a clean tag. */
  lemma JoinInvertsSplit(body: seq<Byte>)
    requires Split(body).Read?
    ensures var f := Split(body).frame; CleanTag(f.tag) && body == f.tag + TAGEND + f.payload
  {
    var i := FindTagend(body, 0);
    var tag := body[..i];
    assert forall k :: 0 <= k < i && TagendAt(tag, k) ==> TagendAt(body, k);
    assert i > 0 ==> !TagendAt(body, i - 1);
    assert body == tag + TAGEND + body[i + 2..];
  }

  function DecodeFrame(lib: Library, buf: seq<Byte>): Outcome {
    match lib(buf)
    case None => Failed(BadBody)
    case Some(body) => Split(body)
  }

  // ---------------------------------------------------------------- one frame off the stream

  /** Four bytes, most significant first. */
  function BigEndian(h: seq<Byte>): nat
    requires |h| == 4
  {
    ((h[0] as nat * 0x100 + h[1] as nat) * 0x100 + h[2] as nat) * 0x100 + h[3] as nat
  }

  /** The last `k` bytes of a number, most significant first. */
  function LowBytes(n: nat, k: nat): (h: seq<Byte>)
    ensures |h| == k
  {
    if k == 0 then [] else LowBytes(n / 0x100, k - 1) + [(n % 0x100) as Byte]
  }

  function Prefix(n: nat): seq<Byte> {
    LowBytes(n, 4)
  }

  lemma PrefixIsRead(n: nat)
    requires n < 0x1_0000_0000
    ensures BigEndian(Prefix(n)) == n
  {
    var a, b, c := n / 0x100, n / 0x100 / 0x100, n / 0x100 / 0x100 / 0x100;
    assert LowBytes(c, 1) == LowBytes(c / 0x100, 0) + [c as Byte] == [c as Byte];
    assert LowBytes(b, 2) == [c as Byte, (b % 0x100) as Byte];
    assert LowBytes(a, 3) == [c as Byte, (b % 0x100) as Byte, (a % 0x100) as Byte];
  }

  /** The first byte weighs most. */
  lemma FirstByteWeighsMost(a: Byte, b: Byte, c: Byte, d: Byte)
    ensures BigEndian([a, b, c, d]) == a as nat * 0x100_0000 + b as nat * 0x1_0000 + c as nat * 0x100 + d as nat
  {}

  /** One frame as it is written. */
  function Framed(buf: seq<Byte>): seq<Byte>
    requires Legal(buf)
  {
    Prefix(|buf|) + buf
  }

  predicate Legal(buf: seq<Byte>) {
    0 < |buf| <= MAX_FRAME
  }

  /** What reading one frame off `bytes` gives, and how many bytes it consumes. */
  function ReadOne(lib: Library, bytes: seq<Byte>): (r: (Outcome, nat))
    ensures r.1 <= |bytes|
    ensures r.0 != Failed(EndOfStream) && r.0 != Failed(TooLarge) ==> r.1 > 0
  {
    if |bytes| < 4 then (Failed(EndOfStream), |bytes|)
    else
      var length := BigEndian(bytes[..4]);
      if length == 0 || length > MAX_FRAME then (Failed(TooLarge), 4)
      else if |bytes| == 4 then (Failed(EndOfStream), 4)
      else if |bytes| < 4 + length then (Failed(ShortBody), |bytes|)
      else (DecodeFrame(lib, bytes[4..4 + length]), 4 + length)
  }

  predicate Fatal(o: Outcome) {
    o == Failed(EndOfStream) || o == Failed(TooLarge)
  }

  /** What is handed on of a stream until it ends or loses its framing. */
  function Handed(lib: Library, bytes: seq<Byte>): seq<Outcome>
    decreases |bytes|
  {
    var (o, n) := ReadOne(lib, bytes);
    if Fatal(o) then [] else [o] + Handed(lib, bytes[n..])
  }

  datatype ReadError = Nothing | Partial

  /** The buffered reader over one connection. */
  class FrameReader {
    const lib: Library
    const stream: seq<Byte>
    var pos: nat

    ghost predicate Valid()
      reads this
    {
      pos <= |stream|
    }

    constructor (lib: Library, stream: seq<Byte>)
      ensures Valid() && this.lib == lib && this.stream == stream && pos == 0
    {
      this.lib := lib;
      this.stream := stream;
      pos := 0;
    }

    /** Reads exactly `n` bytes; a stream too short for that is used up. */
    method ReadFull(n: nat) returns (buf: seq<Byte>, err: Option<ReadError>)
      requires Valid() && n > 0
      modifies this
      ensures Valid()
      ensures err == None <==> old(pos) + n <= |stream|
      ensures err == None ==> pos == old(pos) + n && buf == stream[old(pos)..pos]
      ensures err != None ==> pos == |stream| && err == Some(if old(pos) == |stream| then Nothing else Partial)
    {
      var left := |stream| - pos;
      if left >= n {
        buf, err := stream[pos..pos + n], None;
        pos := pos + n;
      } else {
        buf, err := stream[pos..], Some(if left == 0 then Nothing else Partial);
        pos := |stream|;
      }
    }

    /** Reads one frame. A failure that is not fatal has consumed exactly that frame, or all
        there was. */
    method Next() returns (r: Outcome)
      requires Valid()
      modifies this
      ensures Valid()
      ensures (r, pos - old(pos)) == ReadOne(lib, stream[old(pos)..])
    {
      ghost var rest := stream[pos..];
      ghost var start := pos;
      var hdr, err := ReadFull(4);
      if err != None {
        return Failed(EndOfStream);
      }
      assert hdr == rest[..4];
      var length := BigEndian(hdr);
      if length == 0 || length > MAX_FRAME {
        return Failed(TooLarge);
      }
      var buf;
      buf, err := ReadFull(length);
      if err != None {
        return if err.value == Nothing then Failed(EndOfStream) else Failed(ShortBody);
      }
      assert buf == rest[4..4 + length];
      r := DecodeFrame(lib, buf);
    }

    /** Reads until the stream ends or loses its framing; everything else is handed on, a frame as
        an event and a failure as one decode error. */
    method Consume() returns (handed: seq<Outcome>)
      requires Valid()
      modifies this
      ensures Valid() && handed == Handed(lib, stream[old(pos)..])
    {
      handed := [];
      while true
        invariant Valid()
        invariant handed + Handed(lib, stream[pos..]) == Handed(lib, stream[old(pos)..])
        decreases |stream| - pos
      {
        ghost var rest, start := stream[pos..], pos;
        var r := Next();
        assert rest[pos - start..] == stream[pos..];
        if r == Failed(EndOfStream) || r == Failed(TooLarge) {
          return;
        }
        HandedMore(lib, rest, r, handed);
        handed := handed + [r];
      }
    }
  }

  lemma HandedMore(lib: Library, bytes: seq<Byte>, o: Outcome, before: seq<Outcome>)
    requires !Fatal(o) && ReadOne(lib, bytes).0 == o
    ensures before + Handed(lib, bytes) == (before + [o]) + Handed(lib, bytes[ReadOne(lib, bytes).1..])
  {}

  // ---------------------------------------------------------------- whole streams

  /** Frames written one after another. */
  function Written(bufs: seq<seq<Byte>>): seq<Byte>
    requires forall b :: b in bufs ==> Legal(b)
  {
    if bufs == [] then [] else Framed(bufs[0]) + Written(bufs[1..])
  }

  /** Each frame decoded on its own. */
  function Decoded(lib: Library, bufs: seq<seq<Byte>>): seq<Outcome> {
    if bufs == [] then [] else [DecodeFrame(lib, bufs[0])] + Decoded(lib, bufs[1..])
  }

  lemma ReadFramed(lib: Library, buf: seq<Byte>, tail: seq<Byte>)
    requires Legal(buf)
    ensures ReadOne(lib, Framed(buf) + tail) == (DecodeFrame(lib, buf), 4 + |buf|)
    ensures !Fatal(DecodeFrame(lib, buf))
  {
    var bytes := Framed(buf) + tail;
    PrefixIsRead(|buf|);
    assert bytes[..4] == Prefix(|buf|);
    assert bytes[4..4 + |buf|] == buf;
  }

  lemma HandedFramed(lib: Library, buf: seq<Byte>, rest: seq<Byte>)
    requires Legal(buf)
    ensures Handed(lib, Framed(buf) + rest) == [DecodeFrame(lib, buf)] + Handed(lib, rest)
  {
    ReadFramed(lib, buf, rest);
    assert (Framed(buf) + rest)[4 + |buf|..] == rest;
  }

  /** A frame whose body the library reads as a clean tag, the delimiter and a payload is handed on as
      just that; one it cannot read, or that has no delimiter, as a failure. Either way the stream goes on. */
  lemma FrameIsHandedOn(lib: Library, buf: seq<Byte>, tag: seq<Byte>, payload: seq<Byte>, rest: seq<Byte>)
    requires Legal(buf)
    ensures lib(buf) == Some(tag + TAGEND + payload) && CleanTag(tag) ==>
              Handed(lib, Framed(buf) + rest) == [Read(Frame(tag, payload))] + Handed(lib, rest)
    ensures lib(buf) == None ==> Handed(lib, Framed(buf) + rest) == [Failed(BadBody)] + Handed(lib, rest)
    ensures (lib(buf).Some? && forall i :: 0 <= i < |lib(buf).value| ==> !TagendAt(lib(buf).value, i)) ==>
              Handed(lib, Framed(buf) + rest) == [Failed(NoDelimiter)] + Handed(lib, rest)
  {
    HandedFramed(lib, buf, rest);
    SplitInvertsJoin(tag, payload);
  }

  /** Frames of legal length come out one by one, in order, each decoded as if it were alone: a
      body that fails costs only itself. Then comes whatever follows them. */
  lemma {:induction false} FramesComeBack(lib: Library, bufs: seq<seq<Byte>>, tail: seq<Byte>)
    requires forall b :: b in bufs ==> Legal(b)
    ensures Handed(lib, Written(bufs) + tail) == Decoded(lib, bufs) + Handed(lib, tail)
  {
    if bufs == [] {
      assert Written(bufs) + tail == tail;
      assert Decoded(lib, bufs) + Handed(lib, tail) == Handed(lib, tail);
    } else {
      var buf, more := bufs[0], bufs[1..];
      FramesComeBack(lib, more, tail);
      HandedFramed(lib, buf, Written(more) + tail);
      Associates(Framed(buf), Written(more), tail);
      Associates([DecodeFrame(lib, buf)], Decoded(lib, more), Handed(lib, tail));
    }
  }

  /** What is left when no further frame can be read off. */
  predicate Tail(bytes: seq<Byte>) {
    |bytes| < 4 ||
    (var length := BigEndian(bytes[..4]); length == 0 || length > |bytes| - 4 || length > MAX_FRAME)
  }

  function Leftover(bytes: seq<Byte>): seq<Outcome> {
    if |bytes| > 4 && 0 < BigEndian(bytes[..4]) <= MAX_FRAME then [Failed(ShortBody)] else []
  }

  /** A tail hands on nothing, except that a body cut short is one decode error. */
  lemma TailIsOneErrorAtMost(lib: Library, bytes: seq<Byte>)
    requires Tail(bytes)
    ensures Handed(lib, bytes) == Leftover(bytes)
  {
    var (o, n) := ReadOne(lib, bytes);
    if !Fatal(o) {
      assert bytes[n..] == [];
      assert Handed(lib, []) == [];
    }
  }

  /** Every stream is frames of legal length and then a tail. */
  lemma {:induction false} StreamIsFrames(bytes: seq<Byte>) returns (bufs: seq<seq<Byte>>, tail: seq<Byte>)
    ensures (forall b :: b in bufs ==> Legal(b)) && bytes == Written(bufs) + tail && Tail(tail)
    decreases |bytes|
  {
    if Tail(bytes) {
      bufs, tail := [], bytes;
    } else {
      var n := BigEndian(bytes[..4]);
      var rest;
      rest, tail := StreamIsFrames(bytes[4 + n..]);
      var buf := bytes[4..4 + n];
      PrefixOfRead(bytes[..4]);
      bufs := [buf] + rest;
      assert bytes == Framed(buf) + bytes[4 + n..];
    }
  }

  lemma PrefixOfRead(h: seq<Byte>)
    requires |h| == 4
    ensures Prefix(BigEndian(h)) == h
  {
    var a := h[0] as nat;
    var b := a * 0x100 + h[1] as nat;
    var c := b * 0x100 + h[2] as nat;
    LowBytesMore(c, h[3], 3);
    LowBytesMore(b, h[2], 2);
    LowBytesMore(a, h[1], 1);
    LowBytesMore(0, h[0], 0);
  }

  lemma LowBytesMore(n: nat, d: Byte, k: nat)
    ensures LowBytes(n * 0x100 + d as nat, k + 1) == LowBytes(n, k) + [d]
  {}
}
