/** The controller's message framing, controller/core/protocol.py: a 10-byte header, then a payload,
    read from a byte stream that arrives in arbitrary pieces. */
module Framing {
  import opened Words
  import opened Wrappers

  const HEADER_LENGTH := 10

  datatype Header = Header(kind: u32, length: u32)

  /** What a handler sees: the type and the payload, which the serialiser restores without loss. */
  datatype Message = Message(kind: u32, payload: seq<byte>)

  // ----- headers -----

  /** Two required fixed32 fields: a tag and four little-endian bytes each. */
  function PackHeader(h: Header): (s: seq<byte>)
    ensures |s| == HEADER_LENGTH
  {
    [0x0d] + ToLE(h.kind, 4) + [0x15] + ToLE(h.length, 4)
  }

  /** ParseFromString on ten bytes; None leaves the header uninitialised. Both fields are there only
      if they fill the bytes, in either order. */
  function ParseHeader(s: seq<byte>): Option<Header>
    requires |s| == HEADER_LENGTH
  {
    FromLEBound(s[1..5]);
    FromLEBound(s[6..10]);
    Pow2Facts();
    if s[0] == 0x0d && s[5] == 0x15 then Some(Header(FromLE(s[1..5]), FromLE(s[6..10])))
    else if s[0] == 0x15 && s[5] == 0x0d then Some(Header(FromLE(s[6..10]), FromLE(s[1..5])))
    else None
  }

  lemma {:induction false} ParsePack(h: Header)
    ensures ParseHeader(PackHeader(h)) == Some(h)
  {
    hide ToLE, FromLE;
    var s := PackHeader(h);
    assert s[1..5] == ToLE(h.kind, 4) && s[6..10] == ToLE(h.length, 4);
    LE4(h.kind);
    LE4(h.length);
  }

  /** Ten bytes are a header exactly if they are its two fields, in one order or the other. */
  lemma {:induction false} ParsesExactly(s: seq<byte>, h: Header)
    requires |s| == HEADER_LENGTH
    ensures ParseHeader(s) == Some(h) <==>
      s == [Tag(1)] + ToLE(h.kind, 4) + [Tag(2)] + ToLE(h.length, 4) || s == [Tag(2)] + ToLE(h.length, 4) + [Tag(1)] + ToLE(h.kind, 4)
    ensures PackHeader(h) == [Tag(1)] + ToLE(h.kind, 4) + [Tag(2)] + ToLE(h.length, 4)
  {
    hide ToLE, FromLE;
    assert s == [s[0]] + s[1..5] + [s[5]] + s[6..10];
    ToFromLE(s[1..5]);
    ToFromLE(s[6..10]);
    LE4(h.kind);
    LE4(h.length);
    FieldsOf([Tag(1)] + ToLE(h.kind, 4) + [Tag(2)] + ToLE(h.length, 4), ToLE(h.kind, 4), ToLE(h.length, 4));
    FieldsOf([Tag(2)] + ToLE(h.length, 4) + [Tag(1)] + ToLE(h.kind, 4), ToLE(h.length, 4), ToLE(h.kind, 4));
  }

  /** The tag of a field of wire type 5, four bytes. */
  function Tag(field: nat): byte
    requires field < 16
  {
    8 * field + 5
  }

  lemma {:induction false} FieldsOf(s: seq<byte>, a: seq<byte>, b: seq<byte>)
    requires |a| == 4 && |b| == 4 && |s| == HEADER_LENGTH && s == [s[0]] + a + [s[5]] + b
    ensures s[1..5] == a && s[6..10] == b
  {
  }

  // ----- sending -----

  predicate Sendable(m: Message) { |m.payload| < 0x1_0000_0000 }

  /** What the length field can say. */
  lemma {:induction false} SendableExactly(m: Message)
    ensures Sendable(m) <==> FromLE(ToLE(|m.payload|, 4)) == |m.payload|
  {
    hide ToLE, FromLE;
    FromLEBound(ToLE(|m.payload|, 4));
    Pow2Facts();
    if Sendable(m) { LE4(|m.payload|); }
  }

  /** send. */
  function Frame(m: Message): seq<byte>
    requires Sendable(m)
  {
    PackHeader(Header(m.kind, |m.payload|)) + m.payload
  }

  function Stream(ms: seq<Message>): seq<byte>
    requires forall i :: 0 <= i < |ms| ==> Sendable(ms[i])
  {
    if ms == [] then [] else Frame(ms[0]) + Stream(ms[1..])
  }

  // ----- receiving -----

  /** What a connection remembers between two calls. */
  datatype Pending = Pending(header: Option<Header>, buffer: seq<byte>)

  datatype Read = Read(messages: seq<Message>, rest: Pending)

  /** Either a whole header or a whole payload can be consumed. */
  predicate Ready(p: Pending) {
    if p.header.None? then |p.buffer| >= HEADER_LENGTH else |p.buffer| >= p.header.value.length
  }

  /** Everything that can be read from the pending bytes. */
  function Drain(p: Pending): Read
    decreases |p.buffer|, if p.header.Some? then 1 else 0
  {
    if !Ready(p) then Read([], p)
    else match p.header
      case None => Drain(Pending(ParseHeader(p.buffer[..HEADER_LENGTH]), p.buffer[HEADER_LENGTH..]))
      case Some(h) =>
        var r := Drain(Pending(None, p.buffer[h.length..]));
        Read([Message(h.kind, p.buffer[..h.length])] + r.messages, r.rest)
  }

  /** More bytes behind what was pending. */
  function More(p: Pending, data: seq<byte>): Pending { p.(buffer := p.buffer + data) }

  /** Reading what is there and then the rest is reading it all at once. */
  lemma {:induction false} DrainMore(p: Pending, data: seq<byte>)
    ensures var first := Drain(p);
      var second := Drain(More(first.rest, data));
      Drain(More(p, data)) == Read(first.messages + second.messages, second.rest)
    decreases |p.buffer|, if p.header.Some? then 1 else 0
  {
    hide ParseHeader;
    if Ready(p) {
      match p.header
      case None =>
        var q := Pending(ParseHeader(p.buffer[..HEADER_LENGTH]), p.buffer[HEADER_LENGTH..]);
        DrainMore(q, data);
        assert (p.buffer + data)[..HEADER_LENGTH] == p.buffer[..HEADER_LENGTH];
        assert (p.buffer + data)[HEADER_LENGTH..] == p.buffer[HEADER_LENGTH..] + data;
      case Some(h) =>
        var q := Pending(None, p.buffer[h.length..]);
        DrainMore(q, data);
        assert (p.buffer + data)[..h.length] == p.buffer[..h.length];
        assert (p.buffer + data)[h.length..] == p.buffer[h.length..] + data;
        var m := [Message(h.kind, p.buffer[..h.length])];
        assert m + (Drain(q).messages + Drain(More(Drain(q).rest, data)).messages)
            == m + Drain(q).messages + Drain(More(Drain(q).rest, data)).messages;
    }
  }

  /** One dataReceived call per chunk. */
  function Receive(p: Pending, chunks: seq<seq<byte>>): Read
    decreases |chunks|
  {
    if chunks == [] then Read([], p) else
    var first := Drain(More(p, chunks[0]));
    var r := Receive(first.rest, chunks[1..]);
    Read(first.messages + r.messages, r.rest)
  }

  function Concat(chunks: seq<seq<byte>>): seq<byte> {
    if chunks == [] then [] else chunks[0] + Concat(chunks[1..])
  }

  const START := Pending(None, [])

  /** However the stream is cut into chunks, the same messages are handled and the same bytes stay
      pending as if it had arrived in one piece. */
  lemma {:induction false} ChunkingInvariant(p: Pending, chunks: seq<seq<byte>>)
    requires !Ready(p)
    ensures Receive(p, chunks) == Drain(More(p, Concat(chunks)))
    decreases |chunks|
  {
    if chunks == [] {
      assert p.buffer + [] == p.buffer;
    } else {
      var first := Drain(More(p, chunks[0]));
      Drained(More(p, chunks[0]));
      ChunkingInvariant(first.rest, chunks[1..]);
      DrainMore(More(p, chunks[0]), Concat(chunks[1..]));
      assert p.buffer + (chunks[0] + Concat(chunks[1..])) == p.buffer + chunks[0] + Concat(chunks[1..]);
    }
  }

  lemma {:induction false} Drained(p: Pending)
    ensures !Ready(Drain(p).rest)
    decreases |p.buffer|, if p.header.Some? then 1 else 0
  {
    hide ParseHeader;
    if Ready(p) {
      match p.header
      case None => Drained(Pending(ParseHeader(p.buffer[..HEADER_LENGTH]), p.buffer[HEADER_LENGTH..]));
      case Some(h) => Drained(Pending(None, p.buffer[h.length..]));
    }
  }

  // ----- what was sent is what is handled -----

  /** The bytes not yet turned into a message. */
  function Unconsumed(p: Pending): seq<byte> {
    (if p.header.Some? then PackHeader(p.header.value) else []) + p.buffer
  }

  lemma {:induction false} DrainFrame(m: Message, tail: seq<byte>)
    requires Sendable(m)
    ensures var r := Drain(Pending(None, tail));
      Drain(Pending(None, Frame(m) + tail)) == Read([m] + r.messages, r.rest)
  {
    hide ParseHeader, PackHeader;
    var h := Header(m.kind, |m.payload|);
    var b := Frame(m) + tail;
    ParsePack(h);
    assert b[..HEADER_LENGTH] == PackHeader(h);
    assert b[HEADER_LENGTH..] == m.payload + tail;
    assert (m.payload + tail)[..h.length] == m.payload && (m.payload + tail)[h.length..] == tail;
    assert Drain(Pending(None, b)) == Drain(Pending(Some(h), m.payload + tail));
  }

  lemma {:induction false} DrainStream(ms: seq<Message>, tail: seq<byte>)
    requires forall i :: 0 <= i < |ms| ==> Sendable(ms[i])
    ensures var r := Drain(Pending(None, tail));
      Drain(Pending(None, Stream(ms) + tail)) == Read(ms + r.messages, r.rest)
    decreases |ms|
  {
    hide Frame, Drain;
    if ms == [] {
      assert [] + tail == tail;
    } else {
      DrainStream(ms[1..], tail);
      DrainFrame(ms[0], Stream(ms[1..]) + tail);
      assert Frame(ms[0]) + Stream(ms[1..]) + tail == Frame(ms[0]) + (Stream(ms[1..]) + tail);
      var r := Drain(Pending(None, tail));
      assert [ms[0]] + (ms[1..] + r.messages) == ms + r.messages;
    }
  }

  /** A frame that is not complete yet yields nothing and stays pending to the byte. */
  lemma {:induction false} DrainPart(m: Message, tail: seq<byte>)
    requires Sendable(m) && tail < Frame(m)
    ensures var r := Drain(Pending(None, tail)); r.messages == [] && Unconsumed(r.rest) == tail
  {
    hide ParseHeader, PackHeader;
    if |tail| >= HEADER_LENGTH {
      var h := Header(m.kind, |m.payload|);
      ParsePack(h);
      assert tail[..HEADER_LENGTH] == Frame(m)[..HEADER_LENGTH] == PackHeader(h);
      assert tail == tail[..HEADER_LENGTH] + tail[HEADER_LENGTH..];
    }
  }

  /** For any messages written by send, the last of them perhaps not fully arrived, and any split of
      the bytes into calls: the handlers see exactly the complete messages, in order and with empty
      payloads, and what is pending is exactly the unconsumed rest. */
  lemma {:induction false} SentIsHandled(ms: seq<Message>, next: Message, tail: seq<byte>, chunks: seq<seq<byte>>)
    requires (forall i :: 0 <= i < |ms| ==> Sendable(ms[i])) && Sendable(next) && tail < Frame(next)
    requires Concat(chunks) == Stream(ms) + tail
    ensures var r := Receive(START, chunks); r.messages == ms && Unconsumed(r.rest) == tail
  {
    hide Drain, Frame, Stream, Receive, Unconsumed;
    ChunkingInvariant(START, chunks);
    assert [] + Concat(chunks) == Concat(chunks);
    DrainStream(ms, tail);
    DrainPart(next, tail);
    assert ms + [] == ms;
  }

  // ----- the connection object -----

  /** eBPFProtocol. `handled` is what the handlers were given, in order. */
  class Connection {
    var buffer: seq<byte>
    var header: Option<Header>
    var handled: seq<Message>

    constructor ()
      ensures buffer == [] && header == None && handled == []
    {
      buffer, header, handled := [], None, [];
    }

    /** dataReceived: append, then read packets while a header or a payload is complete. */
    method DataReceived(data: seq<byte>)
      modifies this
      ensures var r := Drain(Pending(old(header), old(buffer) + data));
        handled == old(handled) + r.messages && Pending(header, buffer) == r.rest
    {
      hide ParseHeader;
      buffer := buffer + data;
      ghost var all := Drain(Pending(header, buffer)).messages;
      while (header.None? && |buffer| >= HEADER_LENGTH) || (header.Some? && |buffer| >= header.value.length)
        invariant handled + Drain(Pending(header, buffer)).messages == old(handled) + all
        invariant Drain(Pending(header, buffer)).rest == Drain(Pending(old(header), old(buffer) + data)).rest
        decreases |buffer|, if header.Some? then 1 else 0
      {
        ReadPacket();
      }
    }

    /** The body of the reading loop. */
    method ReadPacket()
      requires Ready(Pending(header, buffer))
      modifies this
      ensures handled + Drain(Pending(header, buffer)).messages == old(handled + Drain(Pending(header, buffer)).messages)
      ensures Drain(Pending(header, buffer)).rest == old(Drain(Pending(header, buffer)).rest)
      ensures |buffer| < old(|buffer|) || (|buffer| == old(|buffer|) && header.None? && old(header).Some?)
    {
      hide ParseHeader;
      if header.None? && |buffer| >= HEADER_LENGTH {
        header := ParseHeader(buffer[..HEADER_LENGTH]);
        buffer := buffer[HEADER_LENGTH..];
      }
      if header.Some? && |buffer| >= header.value.length {
        var payload := buffer[..header.value.length];
        buffer := buffer[header.value.length..];
        handled := handled + [Message(header.value.kind, payload)];
        header := None;
      }
    }
  }

  /** A new connection to which the stream of some messages arrives in the given pieces. */
  method Deliver(ms: seq<Message>, chunks: seq<seq<byte>>) returns (c: Connection)
    requires (forall i :: 0 <= i < |ms| ==> Sendable(ms[i])) && Concat(chunks) == Stream(ms)
    ensures c.handled == ms && c.buffer == [] && c.header == None
  {
    hide Drain, Stream, Ready;
    c := new Connection();
    assert Stream(ms) + [] == Stream(ms);
    SentIsHandled(ms, Message(0, []), [], chunks);
    for i := 0 to |chunks|
      invariant fresh(c)
      invariant var r := Receive(Pending(c.header, c.buffer), chunks[i..]);
        c.handled + r.messages == ms && Unconsumed(r.rest) == []
    {
      assert chunks[i..][1..] == chunks[i + 1..];
      c.DataReceived(chunks[i]);
    }
    assert chunks[|chunks|..] == [];
  }
}
