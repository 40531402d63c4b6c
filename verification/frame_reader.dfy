/**
  * Extracting frames from the ring buffer. The result depends on the buffered bytes alone: not on
  * where the buffer wraps, nor on how the network cut the stream, nor on batch sizes.
  */
module FrameReader {
  import opened Prelude
  import opened FrameHeader
  import opened IoVec
  import opened RingBuffers

  datatype ErrorCode = NoError | ProtocolError | FrameSizeError | OtherError(code: nat)

  /** The frame parser is a function of one frame's bytes; nothing else is assumed of it. */
  type Parser<!F> = Bytes -> Result<F, ErrorCode>

  datatype Status = Status(header: Option<Header>, total: nat, complete: bool, error: Option<ErrorCode>)

  const TOO_SHORT := Status(None, 0, false, None)

  /** What the front of the buffer holds. */
  function Inspect(bytes: Bytes, maxFrame: nat): (s: Status)
    ensures s.complete ==> HEADER_LENGTH <= s.total <= |bytes| && s.error.None? && s.header == Some(Deserialize(bytes))
  {
    if |bytes| < HEADER_LENGTH then TOO_SHORT
    else
      var h := Deserialize(bytes);
      if h.length > maxFrame then Status(Some(h), 0, false, Some(FrameSizeError))
      else Status(Some(h), HEADER_LENGTH + h.length, |bytes| >= HEADER_LENGTH + h.length, None)
  }

  // ----- parsing as values -----

  /** A batch: at most `limit` frames, and what stays in the buffer. */
  datatype Batch<F> = Batch(result: Result<seq<F>, ErrorCode>, rest: Bytes)

  function ParseBatch<F>(parse: Parser<F>, bytes: Bytes, maxFrame: nat, limit: nat): Batch<F>
    decreases |bytes|
  {
    var s := Inspect(bytes, maxFrame);
    if limit == 0 then Batch(Ok([]), bytes)
    else if s.error.Some? then Batch(Err(s.error.value), bytes)
    else if !s.complete then Batch(Ok([]), bytes)
    else match parse(bytes[..s.total])
      case Err(e) => Batch(Err(e), bytes)
      case Ok(f) =>
        var more := ParseBatch(parse, bytes[s.total..], maxFrame, limit - 1);
        match more.result
        case Err(e) => Batch(Err(e), more.rest)
        case Ok(fs) => Batch(Ok([f] + fs), more.rest)
  }

  /** The contiguous stream parsed once: all frames up to an incomplete one or the first error. */
  datatype Stream<F> = Stream(frames: seq<F>, rest: Bytes, error: Option<ErrorCode>)

  function ParseStream<F>(parse: Parser<F>, bytes: Bytes, maxFrame: nat): Stream<F>
    decreases |bytes|
  {
    var s := Inspect(bytes, maxFrame);
    if s.error.Some? then Stream([], bytes, s.error)
    else if !s.complete then Stream([], bytes, None)
    else match parse(bytes[..s.total])
      case Err(e) => Stream([], bytes, Some(e))
      case Ok(f) => Prepend([f], ParseStream(parse, bytes[s.total..], maxFrame))
  }

  /**
    * Where a stream stops, read off the octets that are left: in the middle of a header or a frame
    * without error, at an announced length beyond the limit with FRAME_SIZE_ERROR, or at a whole frame
    * with the parser's own error.
    */
  lemma {:induction false} StreamStopsIff<F>(parse: Parser<F>, bytes: Bytes, maxFrame: nat)
    ensures var s := ParseStream(parse, bytes, maxFrame); var left := s.rest;
      if |left| < 9 then s.error == None
      else
        var announced := Read24(left[0], left[1], left[2]);
        if announced > maxFrame then s.error == Some(FrameSizeError)
        else if |left| < 9 + announced then s.error == None
        else parse(left[..9 + announced]).Err? && s.error == Some(parse(left[..9 + announced]).error)
    decreases |bytes|
  {
    hide Deserialize, Read24;
    var s := Inspect(bytes, maxFrame);
    if |bytes| >= HEADER_LENGTH {
      AnnouncedLength(bytes);
    }
    if s.complete && parse(bytes[..s.total]).Ok? {
      StreamStopsIff(parse, bytes[s.total..], maxFrame);
    }
  }

  lemma AnnouncedLength(bytes: Bytes)
    requires |bytes| >= HEADER_LENGTH
    ensures Deserialize(bytes).length == Read24(bytes[0], bytes[1], bytes[2])
  {
    NumberOfThree(bytes[..3]);
    hide Number;
  }

  function Prepend<F>(frames: seq<F>, s: Stream<F>): Stream<F> {
    Stream(frames + s.frames, s.rest, s.error)
  }

  lemma PrependTwice<F>(a: seq<F>, b: seq<F>, s: Stream<F>)
    ensures Prepend(a, Prepend(b, s)) == Prepend(a + b, s)
  {
    Assoc(a, b, s.frames);
  }

  lemma PrependNothing<F>(s: Stream<F>)
    ensures Prepend([], s) == s
  {
    assert [] + s.frames == s.frames;
  }

  lemma InspectIsStable(a: Bytes, b: Bytes, maxFrame: nat)
    ensures var s := Inspect(a, maxFrame);
      s.complete || s.error.Some? ==> Inspect(a + b, maxFrame) == s
    ensures var s := Inspect(a, maxFrame);
      s.complete ==> (a + b)[..s.total] == a[..s.total] && (a + b)[s.total..] == a[s.total..] + b
  {
    hide Deserialize;
    if |a| >= HEADER_LENGTH {
      DeserializePrefix(a, a + b);
    }
  }

  /** Bytes that arrive later only continue the stream. */
  lemma {:induction false} MoreBytesContinue<F>(parse: Parser<F>, a: Bytes, b: Bytes, maxFrame: nat)
    ensures var first := ParseStream(parse, a, maxFrame);
      ParseStream(parse, a + b, maxFrame) ==
        if first.error.Some? then Stream(first.frames, first.rest + b, first.error)
        else Prepend(first.frames, ParseStream(parse, first.rest + b, maxFrame))
    decreases |a|
  {
    var s := Inspect(a, maxFrame);
    InspectIsStable(a, b, maxFrame);
    hide Inspect;
    PrependNothing(ParseStream(parse, a + b, maxFrame));
    if s.complete && parse(a[..s.total]).Ok? {
      var f, tail := parse(a[..s.total]).value, a[s.total..];
      MoreBytesContinue(parse, tail, b, maxFrame);
      var first := ParseStream(parse, tail, maxFrame);
      if first.error.None? {
        PrependTwice([f], first.frames, ParseStream(parse, first.rest + b, maxFrame));
      }
    }
  }

  /** A batch takes the next frames of the stream; it fails only with the stream's own error. */
  lemma {:induction false} BatchIsAPiece<F>(parse: Parser<F>, bytes: Bytes, maxFrame: nat, limit: nat)
    ensures var b := ParseBatch(parse, bytes, maxFrame, limit);
      match b.result
      case Ok(fs) =>
        ParseStream(parse, bytes, maxFrame) == Prepend(fs, ParseStream(parse, b.rest, maxFrame)) && |fs| <= limit
      case Err(e) => ParseStream(parse, bytes, maxFrame).error == Some(e)
    decreases |bytes|
  {
    hide Inspect;
    var s := Inspect(bytes, maxFrame);
    PrependNothing(ParseStream(parse, bytes, maxFrame));
    if limit > 0 && s.complete && parse(bytes[..s.total]).Ok? {
      var f := parse(bytes[..s.total]).value;
      BatchIsAPiece(parse, bytes[s.total..], maxFrame, limit - 1);
      var more := ParseBatch(parse, bytes[s.total..], maxFrame, limit - 1);
      if more.result.Ok? {
        PrependTwice([f], more.result.value, ParseStream(parse, more.rest, maxFrame));
      }
    }
  }

  /**
    * How much a batch takes: as many frames as are there, up to its limit. It fails iff the stream's
    * error comes before the limit; the frames before the error are then consumed without being returned.
    */
  lemma {:induction false} BatchTakesAll<F>(parse: Parser<F>, bytes: Bytes, maxFrame: nat, limit: nat)
    ensures var s, b := ParseStream(parse, bytes, maxFrame), ParseBatch(parse, bytes, maxFrame, limit);
      b.result == if s.error.Some? && |s.frames| < limit then Err(s.error.value)
                  else Ok(s.frames[..Min(limit, |s.frames|)])
    ensures var s, b := ParseStream(parse, bytes, maxFrame), ParseBatch(parse, bytes, maxFrame, limit);
      |s.frames| < limit ==> b.rest == s.rest
    decreases |bytes|
  {
    hide Inspect;
    var s := Inspect(bytes, maxFrame);
    if limit > 0 && s.complete && parse(bytes[..s.total]).Ok? {
      BatchTakesAll(parse, bytes[s.total..], maxFrame, limit - 1);
      TakeOneMore(parse(bytes[..s.total]).value, ParseStream(parse, bytes[s.total..], maxFrame).frames, limit - 1);
    }
  }

  lemma TakeOneMore<F>(f: F, frames: seq<F>, limit: nat)
    ensures [f] + frames[..Min(limit, |frames|)] == ([f] + frames)[..Min(limit + 1, |[f] + frames|)]
  {
  }

  // ----- any schedule of deliveries and batches -----

  datatype Move = Deliver(piece: Bytes) | TakeBatch(limit: nat)

  /** Frames handed out so far, the buffer, and the first failure. */
  datatype Reading<F> = Reading(frames: seq<F>, buffer: Bytes, failure: Option<ErrorCode>)

  function DoMove<F>(parse: Parser<F>, maxFrame: nat, r: Reading<F>, m: Move): Reading<F> {
    if r.failure.Some? then r
    else match m
      case Deliver(piece) => r.(buffer := r.buffer + piece)
      case TakeBatch(limit) =>
        var b := ParseBatch(parse, r.buffer, maxFrame, limit);
        match b.result
        case Ok(fs) => Reading(r.frames + fs, b.rest, None)
        case Err(e) => Reading(r.frames, b.rest, Some(e))
  }

  function DoMoves<F>(parse: Parser<F>, maxFrame: nat, moves: seq<Move>): Reading<F> {
    if moves == [] then Reading([], [], None)
    else DoMove(parse, maxFrame, DoMoves(parse, maxFrame, moves[..|moves| - 1]), moves[|moves| - 1])
  }

  function Delivered(moves: seq<Move>): Bytes {
    if moves == [] then []
    else Delivered(moves[..|moves| - 1]) + if moves[|moves| - 1].Deliver? then moves[|moves| - 1].piece else []
  }

  lemma DeliverKeeps<F>(parse: Parser<F>, maxFrame: nat, frames: seq<F>, delivered: Bytes, buffer: Bytes, piece: Bytes)
    requires ParseStream(parse, delivered, maxFrame) == Prepend(frames, ParseStream(parse, buffer, maxFrame))
    ensures ParseStream(parse, delivered + piece, maxFrame) ==
            Prepend(frames, ParseStream(parse, buffer + piece, maxFrame))
  {
    MoreBytesContinue(parse, delivered, piece, maxFrame);
    MoreBytesContinue(parse, buffer, piece, maxFrame);
    var inBuffer := ParseStream(parse, buffer, maxFrame);
    PrependTwice(frames, inBuffer.frames, ParseStream(parse, inBuffer.rest + piece, maxFrame));
  }

  /**
    * Framing does not depend on segmentation: however the bytes arrive and whatever batch sizes
    * are used, the frames handed out followed by those still in the buffer are the frames of the
    * whole stream, with the same leftover. A batch fails exactly with the stream's own error, and
    * what was handed out before is still the beginning of the stream's frames.
    */
  lemma {:induction false} ScheduleDoesNotMatter<F>(parse: Parser<F>, maxFrame: nat, moves: seq<Move>)
    ensures var r := DoMoves(parse, maxFrame, moves);
      var whole := ParseStream(parse, Delivered(moves), maxFrame);
      match r.failure
      case Some(e) => whole.error == Some(e) && r.frames <= whole.frames
      case None => whole == Prepend(r.frames, ParseStream(parse, r.buffer, maxFrame))
  {
    if moves != [] {
      var n := |moves| - 1;
      var before := DoMoves(parse, maxFrame, moves[..n]);
      var delivered := Delivered(moves[..n]);
      ScheduleDoesNotMatter(parse, maxFrame, moves[..n]);
      match moves[n]
      case Deliver(piece) =>
        if before.failure.Some? {
          MoreBytesContinue(parse, delivered, piece, maxFrame);
        } else {
          DeliverKeeps(parse, maxFrame, before.frames, delivered, before.buffer, piece);
        }
      case TakeBatch(limit) =>
        assert Delivered(moves) == delivered;
        BatchIsAPiece(parse, before.buffer, maxFrame, limit);
        var b := ParseBatch(parse, before.buffer, maxFrame, limit);
        if before.failure.None? && b.result.Ok? {
          PrependTwice(before.frames, b.result.value, ParseStream(parse, b.rest, maxFrame));
        }
    } else {
      assert [] + ParseStream(parse, [], maxFrame).frames == ParseStream(parse, [], maxFrame).frames;
    }
  }

  /** On a stream without error no schedule ever fails, and draining the buffer completes the frames. */
  lemma ErrorFreeStreamsAreComplete<F>(parse: Parser<F>, maxFrame: nat, moves: seq<Move>)
    requires ParseStream(parse, Delivered(moves), maxFrame).error.None?
    ensures var r := DoMoves(parse, maxFrame, moves);
      var whole := ParseStream(parse, Delivered(moves), maxFrame);
      && r.failure.None?
      && whole.frames == r.frames + ParseStream(parse, r.buffer, maxFrame).frames
      && whole.rest == ParseStream(parse, r.buffer, maxFrame).rest
  {
    ScheduleDoesNotMatter(parse, maxFrame, moves);
  }

  // ----- raw frame views -----

  /** A frame left unparsed: its header and all its bytes. */
  datatype FrameView = FrameView(header: Header, bytes: Bytes) {
    function Payload(): Bytes {
      if HEADER_LENGTH > |bytes| then []
      else bytes[HEADER_LENGTH..Min(HEADER_LENGTH + header.length, |bytes|)]
    }
  }

  function MakeView(bytes: Bytes): Result<FrameView, ErrorCode> {
    Ok(FrameView(if |bytes| >= HEADER_LENGTH then Deserialize(bytes) else Header(0, 0, 0, 0), bytes))
  }

  function ViewBytes(views: seq<FrameView>): Bytes {
    if views == [] then [] else views[0].bytes + ViewBytes(views[1..])
  }

  ghost predicate WholeFrame(v: FrameView, maxFrame: nat) {
    |v.bytes| == HEADER_LENGTH + v.header.length && v.header.length <= maxFrame
  }

  lemma FirstView(bytes: Bytes, maxFrame: nat)
    requires Inspect(bytes, maxFrame).complete
    ensures var total := Inspect(bytes, maxFrame).total;
      && WholeFrame(MakeView(bytes[..total]).value, maxFrame)
      && MakeView(bytes[..total]).value.bytes == bytes[..total]
      && ParseStream(MakeView, bytes, maxFrame) ==
           Prepend([MakeView(bytes[..total]).value], ParseStream(MakeView, bytes[total..], maxFrame))
  {
    hide Deserialize;
    DeserializePrefix(bytes[..Inspect(bytes, maxFrame).total], bytes);
  }

  ghost predicate Covers(s: Stream<FrameView>, bytes: Bytes, maxFrame: nat) {
    && ViewBytes(s.frames) + s.rest == bytes
    && forall v :: v in s.frames ==> WholeFrame(v, maxFrame)
  }

  /** The views of a stream, laid end to end with the leftover, are the input: nothing is lost or read twice. */
  lemma {:induction false} ViewsCoverTheInput(bytes: Bytes, maxFrame: nat)
    ensures Covers(ParseStream(MakeView, bytes, maxFrame), bytes, maxFrame)
    decreases |bytes|
  {
    hide Inspect, ParseStream, Covers;
    var st := Inspect(bytes, maxFrame);
    if st.complete {
      FirstView(bytes, maxFrame);
      ViewsCoverTheInput(bytes[st.total..], maxFrame);
      assert bytes == bytes[..st.total] + bytes[st.total..];
      OneMoreView(MakeView(bytes[..st.total]).value, ParseStream(MakeView, bytes[st.total..], maxFrame),
                  bytes[st.total..], maxFrame);
    } else {
      NoViewYet(bytes, maxFrame);
    }
  }

  lemma NoViewYet(bytes: Bytes, maxFrame: nat)
    requires !Inspect(bytes, maxFrame).complete
    ensures Covers(ParseStream(MakeView, bytes, maxFrame), bytes, maxFrame)
  {
    hide Inspect;
    assert [] + bytes == bytes;
  }

  lemma OneMoreView(view: FrameView, more: Stream<FrameView>, tail: Bytes, maxFrame: nat)
    requires WholeFrame(view, maxFrame) && Covers(more, tail, maxFrame)
    ensures Covers(Prepend([view], more), view.bytes + tail, maxFrame)
  {
    hide WholeFrame;
    FirstOfViews(view, more.frames);
    Assoc(view.bytes, ViewBytes(more.frames), more.rest);
  }

  lemma FirstOfViews(view: FrameView, views: seq<FrameView>)
    ensures ViewBytes([view] + views) == view.bytes + ViewBytes(views)
  {
    assert ([view] + views)[1..] == views;
  }

  /** Parsing the views one by one gives the frames of the frame batch. */
  lemma {:induction false} ViewsAndFramesAgree<F>(parse: Parser<F>, bytes: Bytes, maxFrame: nat, limit: nat)
    requires ParseBatch(parse, bytes, maxFrame, limit).result.Ok?
    ensures var fs := ParseBatch(parse, bytes, maxFrame, limit);
      var vs := ParseBatch(MakeView, bytes, maxFrame, limit);
      && vs.result.Ok? && vs.rest == fs.rest && |vs.result.value| == |fs.result.value|
      && forall i :: 0 <= i < |fs.result.value| ==> parse(vs.result.value[i].bytes) == Ok(fs.result.value[i])
    decreases |bytes|
  {
    var s := Inspect(bytes, maxFrame);
    if limit > 0 && s.complete {
      ViewsAndFramesAgree(parse, bytes[s.total..], maxFrame, limit - 1);
    }
  }

  // ----- room to receive -----

  /**
    * A full buffer can hold an unfinished frame exactly when the largest frame does not fit it: if
    * it fits, there is always room to receive.
    */
  lemma FullBufferCanBeStuckIff(maxFrame: nat, capacity: nat)
    requires maxFrame < 0x100_0000
    ensures var stuck := exists bytes: Bytes :: |bytes| == capacity && Unfinished(bytes, maxFrame);
      stuck <==> HEADER_LENGTH + maxFrame > capacity
  {
    if HEADER_LENGTH + maxFrame > capacity {
      hide Unfinished;
      var bytes := Announced(maxFrame, capacity);
      AnnouncedIsUnfinished(maxFrame, capacity);
      assert |bytes| == capacity && Unfinished(bytes, maxFrame);
    }
  }

  /** The start of a DATA frame of the largest size, cut or padded to the given length. */
  ghost function Announced(maxFrame: nat, length: nat): (bytes: Bytes)
    ensures |bytes| == length
  {
    var header := Serialize(Header(maxFrame, DATA, 0, 1));
    if length < HEADER_LENGTH then header[..length] else header + seq(length - HEADER_LENGTH, _ => 0)
  }

  lemma AnnouncedIsUnfinished(maxFrame: nat, length: nat)
    requires maxFrame < 0x100_0000 && length < HEADER_LENGTH + maxFrame
    ensures Unfinished(Announced(maxFrame, length), maxFrame)
  {
    hide Serialize, Deserialize;
    if length >= HEADER_LENGTH {
      var header := Header(maxFrame, DATA, 0, 1);
      HeaderOnTheWire(header);
      DeserializePrefix(Serialize(header), Announced(maxFrame, length));
    }
  }

  ghost predicate Unfinished(bytes: Bytes, maxFrame: nat) {
    Inspect(bytes, maxFrame).error.None? && !Inspect(bytes, maxFrame).complete
  }

  /** A batch continued after some frames have been taken. */
  ghost function Continue<F>(frames: seq<F>, b: Batch<F>): Batch<F> {
    match b.result
    case Err(e) => b
    case Ok(fs) => Batch(Ok(frames + fs), b.rest)
  }

  /** Where a batch stops, and that nothing is lost by starting from no frames. */
  lemma BatchEnds<F>(parse: Parser<F>, bytes: Bytes, maxFrame: nat, limit: nat, frames: seq<F>)
    ensures var s := Inspect(bytes, maxFrame);
      var b := ParseBatch(parse, bytes, maxFrame, limit);
      && Continue([], b) == b
      && (limit == 0 || (s.error.None? && !s.complete) ==> Continue(frames, b) == Batch(Ok(frames), bytes))
      && (limit > 0 && s.error.Some? ==> b == Continue(frames, b) == Batch(Err(s.error.value), bytes))
      && (limit > 0 && s.complete && parse(bytes[..s.total]).Err? ==>
            b == Continue(frames, b) == Batch(Err(parse(bytes[..s.total]).error), bytes))
  {
    hide Inspect;
    var b := ParseBatch(parse, bytes, maxFrame, limit);
    if b.result.Ok? {
      assert [] + b.result.value == b.result.value;
    }
    assert frames + [] == frames;
  }

  lemma ContinueOne<F>(parse: Parser<F>, bytes: Bytes, maxFrame: nat, limit: nat, frames: seq<F>)
    requires limit > 0 && Inspect(bytes, maxFrame).complete && parse(bytes[..Inspect(bytes, maxFrame).total]).Ok?
    ensures var total := Inspect(bytes, maxFrame).total;
      Continue(frames, ParseBatch(parse, bytes, maxFrame, limit)) ==
      Continue(frames + [parse(bytes[..total]).value], ParseBatch(parse, bytes[total..], maxFrame, limit - 1))
  {
    hide Inspect;
    var total := Inspect(bytes, maxFrame).total;
    var more := ParseBatch(parse, bytes[total..], maxFrame, limit - 1);
    if more.result.Ok? {
      Assoc(frames, [parse(bytes[..total]).value], more.result.value);
    }
  }

  // ----- the same over the ring buffer -----

  /** From the first segment alone when it is long enough, otherwise through a copy. */
  method DecodeFrameHeader(segments: seq<Bytes>) returns (header: Option<Header>)
    ensures header == if |Flatten(segments)| >= HEADER_LENGTH then Some(Deserialize(Flatten(segments))) else None
  {
    hide Deserialize;
    var all := Flatten(segments);
    NonEmptiesFlatten(segments);
    var first := FirstNonEmpty(segments);
    if first.None? {
      return None;
    }
    if |first.value| >= HEADER_LENGTH {
      DeserializePrefix(first.value, all);
      return Some(Deserialize(first.value));
    }
    var headerBuffer := new byte[HEADER_LENGTH];
    var copied := CopyPrefix(segments, headerBuffer, HEADER_LENGTH);
    if copied < HEADER_LENGTH {
      return None;
    }
    assert headerBuffer[..] == headerBuffer[..HEADER_LENGTH] == all[..HEADER_LENGTH];
    DeserializePrefix(headerBuffer[..], all);
    return Some(Deserialize(headerBuffer[..]));
  }

  method InspectBufferedFrame(ring: RingBuffer, maxFrame: nat) returns (status: Status)
    requires ring.Valid()
    ensures status == Inspect(ring.contents, maxFrame)
  {
    hide Deserialize;
    if ring.Readable() < HEADER_LENGTH {
      return TOO_SHORT;
    }
    var segments := ring.GetReadIovecs();
    var header := DecodeFrameHeader(segments);
    if header.None? {
      // Never taken: enough bytes are readable.
      assert false;
    }
    if header.value.length > maxFrame {
      return Status(header, 0, false, Some(FrameSizeError));
    }
    var total := HEADER_LENGTH + header.value.length;
    return Status(header, total, ring.Readable() >= total, None);
  }

  /** The bytes of one complete frame: in place when the first segment holds it, else via scratch that only grows. */
  method FrontBytes(segments: seq<Bytes>, total: nat, scratch: array<byte>)
    returns (bytes: Bytes, scratch': array<byte>)
    requires 0 < total <= |Flatten(segments)|
    modifies scratch
    ensures bytes == Flatten(segments)[..total]
    ensures scratch' == scratch || fresh(scratch')
    ensures scratch'.Length >= scratch.Length
  {
    scratch' := scratch;
    NonEmptiesFlatten(segments);
    var first := FirstNonEmpty(segments);
    if first.Some? && |first.value| >= total {
      return first.value[..total], scratch';
    }
    if scratch'.Length < total {
      scratch' := new byte[total];
    }
    var copied := CopyPrefix(segments, scratch', total);
    return scratch'[..total], scratch';
  }

  method ParseBufferedFrameBatch<F>(ring: RingBuffer, parse: Parser<F>, maxFrame: nat, limit: nat, scratch: array<byte>)
    returns (result: Result<seq<F>, ErrorCode>, scratch': array<byte>)
    requires ring.Valid()
    modifies ring, scratch
    ensures ring.Valid() && Batch(result, ring.contents) == ParseBatch(parse, old(ring.contents), maxFrame, limit)
    ensures scratch' == scratch || fresh(scratch')
  {
    hide Inspect, ParseBatch, Continue;
    var frames: seq<F> := [];
    scratch' := scratch;
    ghost var whole := ParseBatch(parse, ring.contents, maxFrame, limit);
    BatchEnds(parse, ring.contents, maxFrame, limit, frames);
    while |frames| < limit
      invariant ring.Valid() && (scratch' == scratch || fresh(scratch')) && |frames| <= limit
      invariant whole == Continue(frames, ParseBatch(parse, ring.contents, maxFrame, limit - |frames|))
      decreases |ring.contents|
    {
      BatchEnds(parse, ring.contents, maxFrame, limit - |frames|, frames);
      var status := InspectBufferedFrame(ring, maxFrame);
      if status.error.Some? {
        return Err(status.error.value), scratch';
      }
      if !status.complete {
        break;
      }
      var segments := ring.GetReadIovecs();
      var bytes;
      bytes, scratch' := FrontBytes(segments, status.total, scratch');
      var parsed := parse(bytes);
      if parsed.Err? {
        return Err(parsed.error), scratch';
      }
      ContinueOne(parse, ring.contents, maxFrame, limit - |frames|, frames);
      ring.Consume(status.total);
      frames := frames + [parsed.value];
    }
    BatchEnds(parse, ring.contents, maxFrame, limit - |frames|, frames);
    return Ok(frames), scratch';
  }

  /** One frame: a batch of at most one; nothing complete is reported as NoError. */
  method ParseSingleBufferedFrame<F>(ring: RingBuffer, parse: Parser<F>, maxFrame: nat, scratch: array<byte>)
    returns (result: Result<F, ErrorCode>, scratch': array<byte>)
    requires ring.Valid()
    modifies ring, scratch
    ensures ring.Valid() && (scratch' == scratch || fresh(scratch'))
    ensures var b := ParseBatch(parse, old(ring.contents), maxFrame, 1);
      && ring.contents == b.rest
      && result == match b.result
                   case Err(e) => Err(e)
                   case Ok(fs) => if fs == [] then Err(NoError) else Ok(fs[0])
  {
    scratch' := scratch;
    var status := InspectBufferedFrame(ring, maxFrame);
    if status.error.Some? {
      return Err(status.error.value), scratch';
    }
    if !status.complete {
      return Err(NoError), scratch';
    }
    var segments := ring.GetReadIovecs();
    var bytes;
    bytes, scratch' := FrontBytes(segments, status.total, scratch');
    result := parse(bytes);
    if result.Err? {
      return;
    }
    ring.Consume(status.total);
  }

  /** The view batch: the same loop without a parser that could fail. */
  method ParseBufferedFrameViewBatch(ring: RingBuffer, maxFrame: nat, limit: nat)
    returns (result: Result<seq<FrameView>, ErrorCode>)
    requires ring.Valid()
    modifies ring
    ensures ring.Valid() && Batch(result, ring.contents) == ParseBatch(MakeView, old(ring.contents), maxFrame, limit)
  {
    hide Inspect, ParseBatch, Continue, Deserialize;
    var frames: seq<FrameView> := [];
    ghost var whole := ParseBatch(MakeView, ring.contents, maxFrame, limit);
    BatchEnds(MakeView, ring.contents, maxFrame, limit, frames);
    while |frames| < limit
      invariant ring.Valid() && |frames| <= limit
      invariant whole == Continue(frames, ParseBatch(MakeView, ring.contents, maxFrame, limit - |frames|))
      decreases |ring.contents|
    {
      BatchEnds(MakeView, ring.contents, maxFrame, limit - |frames|, frames);
      var status := InspectBufferedFrame(ring, maxFrame);
      if status.error.Some? {
        return Err(status.error.value);
      }
      if !status.complete {
        break;
      }
      var segments := ring.GetReadIovecs();
      var none := new byte[0];
      var bytes, _ := FrontBytes(segments, status.total, none);
      DeserializePrefix(bytes, ring.contents);
      ContinueOne(MakeView, ring.contents, maxFrame, limit - |frames|, frames);
      ring.Consume(status.total);
      frames := frames + [FrameView(status.header.value, bytes)];
    }
    BatchEnds(MakeView, ring.contents, maxFrame, limit - |frames|, frames);
    return Ok(frames);
  }

  // ----- the batch reader's turn -----

  datatype Message = NoMessage | FrameTooLarge | Closing | Full | PeerClosed | ReceiveFailed

  /** A turn either has a result, with the message recorded for a failure, or waits for the room it offers. */
  datatype Turn<F> = Finished(result: Result<seq<F>, ErrorCode>, message: Message) | Awaits(room: nat)

  function TurnOf<F>(parse: Parser<F>, buffer: Bytes, maxFrame: nat, limit: nat, capacity: nat, closing: bool): Turn<F>
  {
    var b := ParseBatch(parse, buffer, maxFrame, limit);
    var s := Inspect(buffer, maxFrame);
    if b.result.Err? || b.result.value != [] then Finished(b.result, NoMessage)
    else if closing && s.error.Some? then Finished(Err(s.error.value), FrameTooLarge)
    else if closing && !s.complete then Finished(Err(ProtocolError), Closing)
    else if |buffer| >= capacity then Finished(Err(ProtocolError), Full)
    else Awaits(capacity - |buffer|)
  }

  /** A buffer whose first frame is not there yet, and not too large. */
  predicate IsPart(buffer: Bytes, maxFrame: nat) {
    |buffer| < 9 || (Read24(buffer[0], buffer[1], buffer[2]) <= maxFrame
                     && |buffer| < 9 + Read24(buffer[0], buffer[1], buffer[2]))
  }

  /**
    * What a turn of a reader that asks for at least one frame does, by the stream its buffer begins:
    * frames or the error if there are any, otherwise the end when closing, or room, or a full buffer.
    */
  lemma TurnIff<F>(parse: Parser<F>, buffer: Bytes, maxFrame: nat, limit: nat, capacity: nat, closing: bool)
    requires limit > 0
    ensures var s := ParseStream(parse, buffer, maxFrame);
      var turn := TurnOf(parse, buffer, maxFrame, limit, capacity, closing);
      if s.error.Some? && |s.frames| < limit then turn == Finished(Err(s.error.value), NoMessage)
      else if !IsPart(buffer, maxFrame) then turn == Finished(Ok(s.frames[..Min(limit, |s.frames|)]), NoMessage)
      else if closing then turn == Finished(Err(ProtocolError), Closing)
      else if |buffer| < capacity then turn == Awaits(capacity - |buffer|)
      else turn == Finished(Err(ProtocolError), Full)
  {
    BatchTakesAll(parse, buffer, maxFrame, limit);
    if |buffer| >= HEADER_LENGTH {
      AnnouncedLength(buffer);
    }
    hide Deserialize, ParseBatch, Read24;
  }

  /** An oversized frame is named as such only to a reader that asks for no frame and is closing. */
  lemma TooLargeIsNamedIff<F>(parse: Parser<F>, buffer: Bytes, maxFrame: nat, limit: nat, capacity: nat, closing: bool)
    ensures var turn := TurnOf(parse, buffer, maxFrame, limit, capacity, closing);
      turn == Finished(Err(FrameSizeError), FrameTooLarge) <==>
      limit == 0 && closing && |buffer| >= 9 && Read24(buffer[0], buffer[1], buffer[2]) > maxFrame
  {
    if limit > 0 {
      TurnIff(parse, buffer, maxFrame, limit, capacity, closing);
    }
    if |buffer| >= HEADER_LENGTH {
      AnnouncedLength(buffer);
    }
    hide Deserialize, Read24;
  }

  /**
    * A reader that asks for at least one frame can report a full buffer iff the largest frame does
    * not fit the buffer.
    */
  lemma FullCanBeReportedIff<F>(parse: Parser<F>, maxFrame: nat, limit: nat, capacity: nat)
    requires maxFrame < 0x100_0000 && limit > 0
    ensures var full :=
        exists buffer: Bytes :: |buffer| <= capacity && ReportsFull(parse, buffer, maxFrame, limit, capacity);
      full <==> HEADER_LENGTH + maxFrame > capacity
  {
    hide Inspect;
    if buffer: Bytes :| |buffer| <= capacity && ReportsFull(parse, buffer, maxFrame, limit, capacity) {
      assert |buffer| == capacity && Unfinished(buffer, maxFrame);
      FullBufferCanBeStuckIff(maxFrame, capacity);
    }
    if HEADER_LENGTH + maxFrame > capacity {
      var buffer := Announced(maxFrame, capacity);
      AnnouncedIsUnfinished(maxFrame, capacity);
      assert ReportsFull(parse, buffer, maxFrame, limit, capacity);
    }
  }

  ghost predicate ReportsFull<F>(parse: Parser<F>, buffer: Bytes, maxFrame: nat, limit: nat, capacity: nat) {
    TurnOf(parse, buffer, maxFrame, limit, capacity, false) == Finished(Err(ProtocolError), Full)
  }

  class FrameBatchReader<F> {
    const ring: RingBuffer
    const parse: Parser<F>
    const maxFrame: nat
    const limit: nat
    var scratch: array<byte>
    var result: Option<Result<seq<F>, ErrorCode>>
    var message: Message
    var peerClosed: bool

    constructor (ring: RingBuffer, parse: Parser<F>, maxFrame: nat, limit: nat)
      ensures this.ring == ring && this.parse == parse && this.maxFrame == maxFrame && this.limit == limit
      ensures result.None? && message.NoMessage? && !peerClosed && fresh(scratch)
    {
      this.ring, this.parse, this.maxFrame, this.limit := ring, parse, maxFrame, limit;
      scratch, result, message, peerClosed := new byte[0], None, NoMessage, false;
    }

    /** Parse, then end if closing, then make room. */
    method Advance(closing: bool) returns (turn: Turn<F>)
      requires ring.Valid()
      modifies this, ring, scratch
      ensures ring.Valid() && (scratch == old(scratch) || fresh(scratch))
      ensures old(result).Some? ==>
        turn == Finished(old(result).value, old(message)) && ring.contents == old(ring.contents)
      ensures old(result).None? && old(message).NoMessage? ==>
        && turn == TurnOf(parse, old(ring.contents), maxFrame, limit, ring.capacity, closing)
        && ring.contents == ParseBatch(parse, old(ring.contents), maxFrame, limit).rest
      ensures result == if turn.Finished? then Some(turn.result) else None
    {
      hide Inspect, ParseBatch;
      if result.Some? {
        return Finished(result.value, message);
      }
      BatchEnds(parse, ring.contents, maxFrame, limit, []);
      var frames;
      frames, scratch := ParseBufferedFrameBatch(ring, parse, maxFrame, limit, scratch);
      if frames.Err? || frames.value != [] {
        result := Some(frames);
        return Finished(frames, message);
      }
      EmptyBatchKeeps(parse, old(ring.contents), maxFrame, limit);
      if closing {
        var status := InspectBufferedFrame(ring, maxFrame);
        if status.error.Some? {
          turn := Fail(status.error.value, FrameTooLarge);
          return;
        }
        if !status.complete {
          turn := Fail(ProtocolError, Closing);
          return;
        }
      }
      var room := ring.GetWriteIovecs();
      if room[0] == 0 && room[1] == 0 {
        turn := Fail(ProtocolError, Full);
        return;
      }
      return Awaits(room[0] + room[1]);
    }

    method Fail(code: ErrorCode, why: Message) returns (turn: Turn<F>)
      modifies this`result, this`message
      ensures result == Some(Err(code)) && message == why && turn == Finished(Err(code), why)
    {
      result, message := Some(Err(code)), why;
      return Finished(Err(code), why);
    }

    method OnRead(bytes: Bytes)
      requires ring.Valid() && |ring.contents| + |bytes| <= ring.capacity
      modifies this`result, this`message, this`peerClosed, ring
      ensures ring.Valid() && peerClosed == (old(peerClosed) || bytes == [])
      ensures bytes == [] ==>
        result == Some(Err(ProtocolError)) && message.PeerClosed? && ring.contents == old(ring.contents)
      ensures bytes != [] ==> result == old(result) && message.NoMessage? && ring.contents == old(ring.contents) + bytes
    {
      if bytes == [] {
        peerClosed := true;
        var _ := Fail(ProtocolError, PeerClosed);
        return;
      }
      ring.Produce(bytes);
      message := NoMessage;
    }

    method OnReadFailed(disconnected: bool)
      modifies this`result, this`message, this`peerClosed
      ensures result == Some(Err(ProtocolError)) && message.ReceiveFailed?
      ensures peerClosed == (old(peerClosed) || disconnected)
    {
      if disconnected {
        peerClosed := true;
      }
      var _ := Fail(ProtocolError, ReceiveFailed);
    }
  }

  lemma EmptyBatchKeeps<F>(parse: Parser<F>, bytes: Bytes, maxFrame: nat, limit: nat)
    requires ParseBatch(parse, bytes, maxFrame, limit).result == Ok([])
    ensures ParseBatch(parse, bytes, maxFrame, limit).rest == bytes
  {
    hide Inspect;
  }
}
