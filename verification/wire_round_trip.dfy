/** The send side against the receive side: when the bytes a stream queues are read back as the frames it sent. */
module WireRoundTrip {
  import opened Prelude
  import opened FrameHeader
  import opened FrameReader
  import opened StreamSending
  import opened FrameOctets
  import opened Http2Streams

  /** The reader gets the frames that were sent, on their stream, one for one and with nothing left over. */
  ghost predicate ReadsBack(s: Stream<FrameView>, streamId: nat, sent: seq<Sent>) {
    && s.rest == [] && s.error == None && |s.frames| == |sent|
    && forall i :: 0 <= i < |sent| ==> ReadFrame(s.frames[i].bytes) == Some(Received(streamId, sent[i]))
  }

  /** The length field holds 24 bits, and the reader has its own limit; an error code has 32 bits. */
  predicate Readable(x: Sent, maxFrame: nat) {
    PayloadFits(x, maxFrame) && CodeFits(x)
  }

  predicate PayloadFits(x: Sent, maxFrame: nat) {
    |PayloadOf(x)| < 0x100_0000 && |PayloadOf(x)| <= maxFrame
  }

  // ----- a whole queue -----

  lemma {:induction false} SentBytesFront(streamId: nat, sent: seq<Sent>)
    requires sent != []
    ensures SentBytes(streamId, sent) == Wire(streamId, sent[0]) + SentBytes(streamId, sent[1..])
  {
    hide Wire;
    var n := |sent| - 1;
    if n == 0 {
      assert sent[..0] == [] && sent[1..] == [];
      assert [] + Wire(streamId, sent[0]) == Wire(streamId, sent[0]) + [];
    } else {
      SentBytesFront(streamId, sent[..n]);
      assert sent[..n][1..] == sent[1..][..n - 1];
      Assoc(Wire(streamId, sent[0]), SentBytes(streamId, sent[1..][..n - 1]), Wire(streamId, sent[n]));
    }
  }

  /** What the front of the buffer says when it begins with a sent frame. */
  lemma FrontOfSent(streamId: nat, x: Sent, rest: Bytes)
    requires streamId < 0x8000_0000
    ensures var bytes := Wire(streamId, x) + rest;
      && |bytes| >= HEADER_LENGTH && |Wire(streamId, x)| == HEADER_LENGTH + |PayloadOf(x)|
      && Deserialize(bytes) == HeaderOf(streamId, x).(length := |PayloadOf(x)| % 0x100_0000)
  {
    var h := HeaderOf(streamId, x);
    HeaderOnTheWire(h);
    hide Serialize, Deserialize;
    assert Wire(streamId, x) == Serialize(h) + PayloadOf(x);
    var bytes := Wire(streamId, x) + rest;
    assert bytes[..HEADER_LENGTH] == Serialize(h);
    DeserializePrefix(Serialize(h), bytes);
  }

  lemma InspectSent(streamId: nat, x: Sent, rest: Bytes, maxFrame: nat)
    requires streamId < 0x8000_0000
    ensures var s := Inspect(Wire(streamId, x) + rest, maxFrame);
      && (PayloadFits(x, maxFrame) ==> s.complete && s.total == |Wire(streamId, x)|)
      && (s.complete && !PayloadFits(x, maxFrame) ==> s.total < |Wire(streamId, x)|)
  {
    FrontOfSent(streamId, x, rest);
    hide Wire, Deserialize, PayloadOf, HeaderOf, Inspect;
    InspectByLength(Wire(streamId, x) + rest, |PayloadOf(x)|, maxFrame);
  }

  lemma InspectByLength(bytes: Bytes, n: nat, maxFrame: nat)
    requires |bytes| >= HEADER_LENGTH && Deserialize(bytes).length == n % 0x100_0000
    ensures var s := Inspect(bytes, maxFrame);
      && (n < 0x100_0000 && n <= maxFrame && HEADER_LENGTH + n <= |bytes| ==>
            s.complete && s.total == HEADER_LENGTH + n)
      && (s.complete && !(n < 0x100_0000 && n <= maxFrame) ==> s.total < HEADER_LENGTH + n)
  {
    hide Deserialize;
  }

  lemma FittingIsRead(streamId: nat, x: Sent, rest: Bytes, maxFrame: nat)
    requires streamId < 0x8000_0000 && PayloadFits(x, maxFrame)
    ensures var s, more := ParseStream(MakeView, Wire(streamId, x) + rest, maxFrame),
                           ParseStream(MakeView, rest, maxFrame);
      |s.frames| == |more.frames| + 1 && s == Prepend([s.frames[0]], more) && s.frames[0].bytes == Wire(streamId, x)
  {
    InspectSent(streamId, x, rest, maxFrame);
    var wire := Wire(streamId, x);
    hide Wire, PayloadFits, ParseStream, MakeView, Inspect, WholeFrame;
    FrontAndRest(wire, rest);
    FirstView(wire + rest, maxFrame);
  }

  lemma FrontAndRest(front: Bytes, rest: Bytes)
    ensures (front + rest)[..|front|] == front && (front + rest)[|front|..] == rest
  {
  }

  /** A payload that does not fit is not read, or only a part of it. */
  lemma UnfitIsLost(streamId: nat, x: Sent, rest: Bytes, maxFrame: nat)
    requires streamId < 0x8000_0000 && !PayloadFits(x, maxFrame)
    ensures var s := ParseStream(MakeView, Wire(streamId, x) + rest, maxFrame);
      s.frames == [] || |s.frames[0].bytes| < HEADER_LENGTH + |PayloadOf(x)|
  {
    InspectSent(streamId, x, rest, maxFrame);
    FrontOfSent(streamId, x, rest);
    hide Wire, PayloadFits, PayloadOf, ParseStream, MakeView, Inspect, WholeFrame;
    var bytes := Wire(streamId, x) + rest;
    if Inspect(bytes, maxFrame).complete {
      FirstView(bytes, maxFrame);
    } else {
      NothingRead(bytes, maxFrame);
    }
  }

  lemma NothingRead(bytes: Bytes, maxFrame: nat)
    requires !Inspect(bytes, maxFrame).complete
    ensures ParseStream(MakeView, bytes, maxFrame).frames == []
  {
    hide Inspect;
  }

  /**
    * A reader of everything a stream has queued, who takes flags, numbers and payloads from the
    * octets, gets the frames that were sent iff every payload fits the length field and the reader's
    * limit and every error code 32 bits.
    */
  lemma {:induction false} SentIsReadBackIff(streamId: nat, sent: seq<Sent>, maxFrame: nat)
    requires streamId < 0x8000_0000
    ensures ReadsBack(ParseStream(MakeView, SentBytes(streamId, sent), maxFrame), streamId, sent) <==>
      forall i :: 0 <= i < |sent| ==> Readable(sent[i], maxFrame)
  {
    if sent != [] {
      var x, rest := sent[0], sent[1..];
      SentBytesFront(streamId, sent);
      SentIsReadBackIff(streamId, rest, maxFrame);
      hide ParseStream, Wire, ReadFrame, CodeFits;
      var tail := SentBytes(streamId, rest);
      var s := ParseStream(MakeView, Wire(streamId, x) + tail, maxFrame);
      AllReadable(sent, maxFrame);
      if PayloadFits(x, maxFrame) {
        FittingIsRead(streamId, x, tail, maxFrame);
        ReadsAsSentIff(streamId, x);
        ReadsBackOneMore(s.frames[0], ParseStream(MakeView, tail, maxFrame), streamId, sent);
      } else {
        UnfitIsLost(streamId, x, tail, maxFrame);
        if ReadsBack(s, streamId, sent) {
          ReadPayload(s.frames[0].bytes, Received(streamId, x));
        }
      }
    }
  }

  lemma ReadsBackOneMore(v: FrameView, more: Stream<FrameView>, streamId: nat, sent: seq<Sent>)
    requires sent != []
    ensures ReadsBack(Prepend([v], more), streamId, sent) <==>
      ReadFrame(v.bytes) == Some(Received(streamId, sent[0])) && ReadsBack(more, streamId, sent[1..])
  {
    hide ReadFrame;
    var s := Prepend([v], more);
    assert forall i :: 0 < i < |s.frames| ==> s.frames[i] == more.frames[i - 1];
    if ReadsBack(s, streamId, sent) {
      assert forall i :: 0 <= i < |more.frames| ==> more.frames[i] == s.frames[i + 1];
    }
  }

  lemma AllReadable(sent: seq<Sent>, maxFrame: nat)
    requires sent != []
    ensures var rest := sent[1..];
      (forall i :: 0 <= i < |sent| ==> Readable(sent[i], maxFrame)) <==>
      Readable(sent[0], maxFrame) && (forall i :: 0 <= i < |rest| ==> Readable(rest[i], maxFrame))
  {
    hide Readable;
    assert forall i :: 0 < i < |sent| ==> sent[i] == sent[1..][i - 1];
  }

  /** The same for a stream object: its queue holds the bytes of what it sent. */
  lemma QueueIsReadBackIff(stream: Http2Stream, maxFrame: nat)
    requires stream.Valid() && stream.streamId < 0x8000_0000
    ensures ReadsBack(ParseStream(MakeView, WireBytes(stream.outgoing), maxFrame), stream.streamId, stream.sent) <==>
      forall i :: 0 <= i < |stream.sent| ==> Readable(stream.sent[i], maxFrame)
  {
    QueueHoldsSent(stream.streamId, stream.outgoing, stream.sent);
    SentIsReadBackIff(stream.streamId, stream.sent, maxFrame);
  }
}
