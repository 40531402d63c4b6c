/** A sent frame read octet by octet (sections 4.1, 6.1, 6.2 and 6.4 of RFC 9113), without the code that wrote it. */
module FrameOctets {
  import opened Prelude
  import opened FrameHeader
  import opened StreamSending

  function PayloadOf(x: Sent): Bytes {
    match x
    case SentHeaders(headerBlock, _, _) => headerBlock
    case SentData(data, _) => data
    case SentRst(code) => RstPayload(code)
  }

  function HeaderOf(streamId: nat, x: Sent): Header {
    match x
    case SentHeaders(headerBlock, endStream, endHeaders) =>
      Header(|headerBlock|, HEADERS, HeadersFlags(endStream, endHeaders), streamId)
    case SentData(data, endStream) => Header(|data|, DATA, DataFlags(endStream), streamId)
    case SentRst(code) => Header(|RstPayload(code)|, RST_STREAM, 0, streamId)
  }

  datatype Received = Received(streamId: nat, frame: Sent)

  /**
    * A DATA, HEADERS or RST_STREAM frame read from its octets: length, type, flags (bit 0 ends the
    * stream, bit 2 the header block), stream identifier without its reserved bit, payload.
    */
  function ReadFrame(b: Bytes): Option<Received> {
    if |b| < 9 || Read24(b[0], b[1], b[2]) != |b| - 9 then None
    else
      var streamId, payload := Read32(b[5] % 128, b[6], b[7], b[8]), b[9..];
      if b[3] == 0 then Some(Received(streamId, SentData(payload, b[4] % 2 == 1)))
      else if b[3] == 1 then Some(Received(streamId, SentHeaders(payload, b[4] % 2 == 1, b[4] / 4 % 2 == 1)))
      else if b[3] == 3 && |payload| == 4 then
        Some(Received(streamId, SentRst(Read32(payload[0], payload[1], payload[2], payload[3]))))
      else None
  }

  predicate CodeFits(x: Sent) {
    x.SentRst? ==> x.errorCode < 0x1_0000_0000
  }

  /** The four octets of an error code stand for it iff it has 32 bits. */
  lemma CodeOctets(code: nat)
    ensures var p := Octets(code, 4);
      Read32(p[0], p[1], p[2], p[3]) == code <==> code < 0x1_0000_0000
  {
    var q := NumberOfOctets(code, 4);
    NumberOfFour(Octets(code, 4));
    Pow256Values();
    hide Octets, Number, Pow256;
    assert code == q * 0x1_0000_0000 + Number(Octets(code, 4));
  }

  /** The reserved bit of a stream identifier is clear. */
  lemma TopBitClear(a: byte, b: byte, c: byte, d: byte)
    requires Read32(a, b, c, d) < 0x8000_0000
    ensures a % 128 == a
  {
  }

  /** The nine octets say what a header says. */
  ghost predicate Says(b: Bytes, h: Header)
    requires |b| >= 9
  {
    && Read24(b[0], b[1], b[2]) == h.length && b[3] == h.kind && b[4] == h.flags
    && Read32(b[5] % 128, b[6], b[7], b[8]) == h.streamId
  }

  lemma HeaderOctets(h: Header)
    requires h.length < 0x100_0000 && h.streamId < 0x8000_0000
    ensures Says(Serialize(h), h)
  {
    hide Octets, Number, Read24, Read32;
    LengthOctets(h.length);
    StreamIdOctets(h.streamId);
    var l, i := Octets(h.length, 3), Octets(h.streamId, 4);
    NumberOfThree(l);
    NumberOfFour(i);
    TopBitClear(i[0], i[1], i[2], i[3]);
    assert Serialize(h) == l + [h.kind, h.flags] + i;
  }

  lemma SaysWithPayload(front: Bytes, h: Header, payload: Bytes)
    requires |front| == 9 && Says(front, h)
    ensures Says(front + payload, h) && (front + payload)[9..] == payload
  {
    hide Read24, Read32;
  }

  /** A frame with a payload that fits is read as what was sent iff its error code fits. */
  lemma ReadsAsSentIff(streamId: nat, x: Sent)
    requires streamId < 0x8000_0000 && |PayloadOf(x)| < 0x100_0000
    ensures ReadFrame(Wire(streamId, x)) == Some(Received(streamId, x)) <==> CodeFits(x)
  {
    hide Serialize, Octets, Read24, Read32;
    var h := HeaderOf(streamId, x);
    HeaderOctets(h);
    SaysWithPayload(Serialize(h), h, PayloadOf(x));
    assert Wire(streamId, x) == Serialize(h) + PayloadOf(x);
    hide Wire;
    if x.SentRst? {
      CodeOctets(x.errorCode);
    }
  }

  /** Whatever is read has the payload that follows the header. */
  lemma ReadPayload(b: Bytes, x: Received)
    requires ReadFrame(b) == Some(x)
    ensures |b| == 9 + |PayloadOf(x.frame)|
  {
  }
}
