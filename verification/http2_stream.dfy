/** The stream object: lifecycle callbacks, the send family over the outgoing queue, and reuse. */
module Http2Streams {
  import opened Prelude
  import opened FrameHeader
  import opened StreamLifecycle
  import opened StreamSending
  import opened FrameOctets

  /** A queued frame: ready bytes, or header and payload kept apart. */
  datatype OutgoingFrame = Serialized(bytes: Bytes) | Segmented(header: Bytes, payload: Bytes) {
    function Wire(): Bytes {
      match this
      case Serialized(bytes) => bytes
      case Segmented(header, payload) => header + payload
    }
  }

  function DataHeaderBytes(streamId: nat, length: nat, endStream: bool): Bytes {
    Serialize(Header(length, DATA, DataFlags(endStream), streamId))
  }

  function HeadersHeaderBytes(streamId: nat, length: nat, endStream: bool, endHeaders: bool): Bytes {
    Serialize(Header(length, HEADERS, HeadersFlags(endStream, endHeaders), streamId))
  }

  /** Both ways of queueing a frame put the same bytes on the wire. */
  lemma SegmentedIsSerialized(streamId: nat, data: Bytes, endStream: bool)
    ensures Segmented(DataHeaderBytes(streamId, |data|, endStream), data).Wire()
         == Serialized(FrameBytes(DATA, DataFlags(endStream), streamId, data)).Wire()
         == Wire(streamId, SentData(data, endStream))
  {
  }

  /** One more frame has been queued, and a reader of its octets gets x. */
  ghost predicate QueuedAs(before: seq<OutgoingFrame>, after: seq<OutgoingFrame>, streamId: nat, x: Sent) {
    && |after| == |before| + 1 && after[..|before|] == before
    && (streamId < 0x8000_0000 && |PayloadOf(x)| < 0x100_0000 && CodeFits(x) ==>
          ReadFrame(after[|before|].Wire()) == Some(Received(streamId, x)))
  }

  lemma QueuedAsSent(before: seq<OutgoingFrame>, frame: OutgoingFrame, streamId: nat, x: Sent)
    requires frame.Wire() == Wire(streamId, x)
    ensures QueuedAs(before, before + [frame], streamId, x)
  {
    if streamId < 0x8000_0000 && |PayloadOf(x)| < 0x100_0000 {
      ReadsAsSentIff(streamId, x);
    }
  }

  lemma HeaderSegment(streamId: nat, headerBlock: Bytes, endStream: bool, endHeaders: bool)
    ensures Segmented(HeadersHeaderBytes(streamId, |headerBlock|, endStream, endHeaders), headerBlock).Wire()
         == Wire(streamId, SentHeaders(headerBlock, endStream, endHeaders))
  {
  }

  /** Everything of a stream object that reuse has to put back, in one value. */
  datatype Record = Record(core: Core, contents: Contents, queues: Queues, priority: Priority, bindings: Bindings)

  datatype Core = Core(streamId: nat, life: Life, sendWindow: int, recvWindow: int, endHeadersReceived: bool)

  /** What was received of the two messages. */
  datatype Contents = Contents(
    headerBlock: Bytes, decodedHeaders: seq<(string, string)>, request: Bytes, response: Bytes)

  /** What waits for the user of the stream. */
  datatype Queues = Queues(
    frames: seq<Bytes>, closed: bool, enabled: bool, goawayError: Option<nat>,
    pendingEvents: nat, activeQueued: bool, requestCompleted: bool, responseCompleted: bool)

  datatype Priority = Priority(weight: nat, dependency: nat, exclusive: bool)

  /** What a stream manager has bound: send queue, encoder, decoder, the mark that it did, the retire callback. */
  datatype Bindings = Bindings(queue: bool, encoder: bool, decoder: bool, io: bool, retire: bool)

  const NO_CONTENTS := Contents([], [], [], [])
  const NO_QUEUES := Queues([], false, true, None, 0, false, false, false)
  const DEFAULT_PRIORITY := Priority(16, 0, false)
  const NOTHING_BOUND := Bindings(false, false, false, false, false)

  function FreshCore(streamId: nat): Core {
    Core(streamId, FRESH, DEFAULT_INITIAL_WINDOW, DEFAULT_INITIAL_WINDOW, false)
  }

  function FreshRecord(streamId: nat): Record {
    Record(FreshCore(streamId), NO_CONTENTS, NO_QUEUES, DEFAULT_PRIORITY, NOTHING_BOUND)
  }

  /** Frame by frame, the queue holds the bytes of what was sent. */
  ghost predicate Queued(streamId: nat, queue: seq<OutgoingFrame>, sent: seq<Sent>) {
    && |queue| == |sent|
    && forall i :: 0 <= i < |queue| ==> queue[i].Wire() == Wire(streamId, sent[i])
  }

  lemma QueuedMore(streamId: nat, queue: seq<OutgoingFrame>, sent: seq<Sent>,
                   more: seq<OutgoingFrame>, sent': seq<Sent>)
    requires Queued(streamId, queue, sent) && sent <= sent'
    requires Queued(streamId, more, sent'[|sent|..])
    ensures Queued(streamId, queue + more, sent')
  {
    forall i | 0 <= i < |queue + more| ensures (queue + more)[i].Wire() == Wire(streamId, sent'[i]) {
      if i >= |queue| {
        assert sent'[|sent|..][i - |queue|] == sent'[i];
      }
    }
  }

  lemma QueuedOne(streamId: nat, frame: OutgoingFrame, what: Sent)
    requires frame.Wire() == Wire(streamId, what)
    ensures Queued(streamId, [frame], [what])
  {
  }

  lemma QueuedTwo(streamId: nat, sent: seq<Sent>, first: OutgoingFrame, what: Sent, second: OutgoingFrame, next: Sent)
    requires first.Wire() == Wire(streamId, what) && second.Wire() == Wire(streamId, next)
    ensures sent <= sent + [what] + [next]
    ensures Queued(streamId, [first, second], (sent + [what] + [next])[|sent|..])
  {
    assert (sent + [what] + [next])[|sent|..] == [what, next];
  }

  lemma QueuedTail(streamId: nat, sent: seq<Sent>, frames: seq<OutgoingFrame>, more: seq<Sent>)
    requires Queued(streamId, frames, more)
    ensures sent <= sent + more && Queued(streamId, frames, (sent + more)[|sent|..])
  {
    assert (sent + more)[|sent|..] == more;
  }

  class Http2Stream {
    var streamId: nat
    var state: State
    var sendWindow: int
    var recvWindow: int
    var endStreamReceived: bool
    var endStreamSent: bool
    var endHeadersReceived: bool
    var headerBlock: Bytes
    var decodedHeaders: seq<(string, string)>
    var request: Bytes
    var response: Bytes
    var frameChannel: seq<Bytes>
    var frameQueueClosed: bool
    var frameQueueEnabled: bool
    var goawayError: Option<nat>
    var pendingEvents: nat
    var activeQueued: bool
    var requestCompleted: bool
    var responseCompleted: bool
    var weight: nat
    var dependency: nat
    var exclusive: bool
    var attached: bool                // a send queue is bound
    var encoder: bool
    var decoder: bool
    var ioAttached: bool
    var retireCallback: bool
    var outgoing: seq<OutgoingFrame>  // what this stream has put on the queue
    ghost var sent: seq<Sent>

    function CurrentLife(): Life
      reads this
    {
      Life(state, endStreamReceived, endStreamSent)
    }

    function CoreNow(): Core
      reads this`streamId, this`state, this`endStreamReceived, this`endStreamSent, this`sendWindow, this`recvWindow,
        this`endHeadersReceived
    {
      Core(streamId, Life(state, endStreamReceived, endStreamSent), sendWindow, recvWindow, endHeadersReceived)
    }

    function ContentsNow(): Contents
      reads this`headerBlock, this`decodedHeaders, this`request, this`response
    {
      Contents(headerBlock, decodedHeaders, request, response)
    }

    function QueuesNow(): Queues
      reads this`frameChannel, this`frameQueueClosed, this`frameQueueEnabled, this`goawayError, this`pendingEvents,
        this`activeQueued, this`requestCompleted, this`responseCompleted
    {
      Queues(frameChannel, frameQueueClosed, frameQueueEnabled, goawayError, pendingEvents, activeQueued,
             requestCompleted, responseCompleted)
    }

    function PriorityNow(): Priority
      reads this`weight, this`dependency, this`exclusive
    {
      Priority(weight, dependency, exclusive)
    }

    function BindingsNow(): Bindings
      reads this`attached, this`encoder, this`decoder, this`ioAttached, this`retireCallback
    {
      Bindings(attached, encoder, decoder, ioAttached, retireCallback)
    }

    function Value(): Record
      reads this
    {
      Record(CoreNow(), ContentsNow(), QueuesNow(), PriorityNow(), BindingsNow())
    }

    ghost function Sending(): Sender
      reads this
    {
      Sender(CurrentLife(), sendWindow, sent)
    }

    ghost predicate Valid()
      reads this
    {
      Queued(streamId, outgoing, sent)
    }

    constructor (streamId: nat)
      ensures Valid() && Value() == FreshRecord(streamId) && sent == []
    {
      this.streamId, state := streamId, Idle;
      sendWindow, recvWindow := DEFAULT_INITIAL_WINDOW, DEFAULT_INITIAL_WINDOW;
      endStreamReceived, endStreamSent, endHeadersReceived := false, false, false;
      headerBlock, decodedHeaders, request, response := [], [], [], [];
      frameChannel, frameQueueClosed, frameQueueEnabled, goawayError := [], false, true, None;
      pendingEvents, activeQueued, requestCompleted, responseCompleted := 0, false, false, false;
      weight, dependency, exclusive := 16, 0, false;
      attached, encoder, decoder, ioAttached, retireCallback := false, false, false, false, false;
      outgoing, sent := [], [];
    }

    /** A stream manager binds the send queue and the codecs it has. */
    method AttachIO(hasEncoder: bool, hasDecoder: bool)
      modifies this`attached, this`encoder, this`decoder, this`ioAttached
      ensures attached && encoder == hasEncoder && decoder == hasDecoder && ioAttached
    {
      attached, encoder, decoder, ioAttached := true, hasEncoder, hasDecoder, true;
    }

    /** The reservation of a promised stream: the state alone is set. */
    method SetState(s: State)
      modifies this`state
      ensures CurrentLife() == old(CurrentLife()).(state := s)
      ensures s.ReservedLocal? ==> CurrentLife() == Step(old(CurrentLife()), ReserveLocal)
      ensures s.ReservedRemote? ==> CurrentLife() == Step(old(CurrentLife()), ReserveRemote)
    {
      state := s;
    }

    method ResetState(newId: nat)
      modifies this`streamId, this`state, this`sendWindow, this`recvWindow, this`endStreamReceived, this`endStreamSent,
        this`endHeadersReceived
      ensures CoreNow() == FreshCore(newId)
    {
      streamId, state := newId, Idle;
      sendWindow, recvWindow := DEFAULT_INITIAL_WINDOW, DEFAULT_INITIAL_WINDOW;
      endStreamReceived, endStreamSent, endHeadersReceived := false, false, false;
    }

    method ResetContents()
      modifies this`headerBlock, this`decodedHeaders, this`request, this`response
      ensures ContentsNow() == NO_CONTENTS
    {
      headerBlock, decodedHeaders, request, response := [], [], [], [];
    }

    method ResetQueues()
      modifies this`frameChannel, this`frameQueueClosed, this`frameQueueEnabled, this`goawayError, this`pendingEvents,
        this`activeQueued, this`requestCompleted, this`responseCompleted
      ensures QueuesNow() == NO_QUEUES
    {
      frameChannel, frameQueueClosed, frameQueueEnabled, goawayError := [], false, true, None;
      pendingEvents, activeQueued := 0, false;
      requestCompleted, responseCompleted := false, false;
    }

    method ResetPriority()
      modifies this`weight, this`dependency, this`exclusive
      ensures PriorityNow() == DEFAULT_PRIORITY
    {
      weight, dependency, exclusive := 16, 0, false;
    }

    method ResetIO()
      modifies this`attached, this`encoder, this`decoder, this`ioAttached, this`retireCallback, this`outgoing, this`sent
      ensures BindingsNow() == NOTHING_BOUND && outgoing == [] && sent == []
    {
      attached, encoder, decoder, ioAttached, retireCallback := false, false, false, false, false;
      outgoing, sent := [], [];
    }

    /** Whatever the stream went through, reuse makes it a fresh one. */
    method ResetForReuse(newId: nat)
      modifies this
      ensures Valid() && Value() == FreshRecord(newId) && sent == []
    {
      hide CoreNow, ContentsNow, QueuesNow, PriorityNow, BindingsNow;
      ResetState(newId);
      ResetContents();
      ResetQueues();
      ResetPriority();
      ResetIO();
    }

    // ----- lifecycle -----

    method OnHeadersReceived(endStream: bool)
      modifies this`state, this`endStreamReceived
      ensures CurrentLife() == Step(old(CurrentLife()), HeadersReceived(endStream))
    {
      if state == Idle {
        state := Open;
      }
      if endStream {
        endStreamReceived := true;
        if state == Open {
          state := HalfClosedRemote;
        } else if state == HalfClosedLocal {
          state := Closed;
        }
      }
    }

    method OnDataReceived(endStream: bool)
      modifies this`state, this`endStreamReceived
      ensures CurrentLife() == Step(old(CurrentLife()), DataReceived(endStream))
    {
      if endStream {
        endStreamReceived := true;
        if state == Open {
          state := HalfClosedRemote;
        } else if state == HalfClosedLocal {
          state := Closed;
        }
      }
    }

    method OnHeadersSent(endStream: bool)
      modifies this`state, this`endStreamSent
      ensures CurrentLife() == Step(old(CurrentLife()), HeadersSent(endStream))
    {
      if state == Idle {
        state := Open;
      } else if state == ReservedLocal {
        state := HalfClosedRemote;
      }
      if endStream {
        endStreamSent := true;
        if state == Open {
          state := HalfClosedLocal;
        } else if state == HalfClosedRemote {
          state := Closed;
        }
      }
    }

    method OnDataSent(endStream: bool)
      modifies this`state, this`endStreamSent
      ensures CurrentLife() == Step(old(CurrentLife()), DataSent(endStream))
    {
      if endStream {
        endStreamSent := true;
        if state == Open {
          state := HalfClosedLocal;
        } else if state == HalfClosedRemote {
          state := Closed;
        }
      }
    }

    method OnRstStreamReceived()
      modifies this`state
      ensures CurrentLife() == Step(old(CurrentLife()), RstReceived)
    {
      state := Closed;
    }

    method OnRstStreamSent()
      modifies this`state
      ensures CurrentLife() == Step(old(CurrentLife()), RstSent)
    {
      state := Closed;
    }

    // ----- sending -----

    method AdjustSendWindow(delta: int)
      requires Valid()
      modifies this`sendWindow
      ensures Valid() && Sending() == Apply(old(Sending()), OpAdjustWindow(delta))
    {
      sendWindow := ToI32(sendWindow + delta);
    }

    /** Put finished frames on the queue; `sent'` says what they are. */
    method Enqueue(frames: seq<OutgoingFrame>, ghost sent': seq<Sent>)
      requires Valid() && sent <= sent' && Queued(streamId, frames, sent'[|sent|..])
      modifies this`outgoing, this`sent
      ensures Valid() && sent == sent' && outgoing == old(outgoing) + frames
    {
      QueuedMore(streamId, outgoing, sent, frames, sent');
      outgoing, sent := outgoing + frames, sent';
    }

    method SendData(data: Bytes, endStream: bool)
      requires Valid()
      modifies this`state, this`endStreamSent, this`sendWindow, this`outgoing, this`sent
      ensures Valid()
      ensures Sending() == if attached then SendOne(old(Sending()), data, endStream) else old(Sending())
      ensures attached && old(sendWindow) >= ToI32(|data|) ==>
        QueuedAs(old(outgoing), outgoing, streamId, SentData(data, endStream))
    {
      hide Step, ToI32, QueuedAs, FrameBytes, DataHeaderBytes, Wire;
      if !attached {
        return;
      }
      if sendWindow < ToI32(|data|) {
        return;
      }
      var header := DataHeaderBytes(streamId, |data|, endStream);
      sendWindow := ToI32(sendWindow - ToI32(|data|));
      if endStream {
        OnDataSent(true);
      }
      SegmentedIsSerialized(streamId, data, endStream);
      QueuedAsSent(outgoing, Segmented(header, data), streamId, SentData(data, endStream));
      QueuedOne(streamId, Segmented(header, data), SentData(data, endStream));
      QueuedTail(streamId, sent, [Segmented(header, data)], [SentData(data, endStream)]);
      Enqueue([Segmented(header, data)], sent + [SentData(data, endStream)]);
    }

    method SendDataBatch(chunks: seq<Bytes>, endStream: bool)
      requires Valid()
      modifies this`state, this`endStreamSent, this`sendWindow, this`outgoing, this`sent
      ensures Valid()
      ensures Sending() == if attached then SendBatch(old(Sending()), chunks, endStream) else old(Sending())
    {
      hide Step, ToI32;
      if !attached {
        return;
      }
      if chunks == [] {
        if endStream {
          OnDataSent(true);
          Enqueue([Serialized(FrameBytes(DATA, DataFlags(true), streamId, []))], sent + [SentData([], true)]);
        }
        return;
      }
      var frames: seq<OutgoingFrame> := [];
      ghost var start, now := Sending(), Sending();
      for i := 0 to |chunks|
        invariant Valid() && sent == old(sent) && outgoing == old(outgoing)
        invariant Progress(start, chunks, i, endStream, now)
        invariant Collected(streamId, frames, start, now)
        invariant CurrentLife() == now.life && sendWindow == now.window
      {
        var chunk := chunks[i];
        ProgressStep(start, chunks, i, endStream, now);
        if sendWindow < ToI32(|chunk|) {
          continue;
        }
        var last := endStream && i + 1 == |chunks|;
        sendWindow := ToI32(sendWindow - ToI32(|chunk|));
        if last {
          OnDataSent(true);
        }
        CollectedStep(streamId, frames, start, now, chunk, last);
        frames := frames + [Serialized(FrameBytes(DATA, DataFlags(last), streamId, chunk))];
        now := SendOne(now, chunk, last);
      }
      assert chunks[..|chunks|] == chunks;
      Enqueue(frames, now.sent);
    }

    /** As the batch, with header and payload kept apart and a single chunk sent directly. */
    method SendDataChunks(chunks: seq<Bytes>, endStream: bool)
      requires Valid()
      modifies this`state, this`endStreamSent, this`sendWindow, this`outgoing, this`sent
      ensures Valid()
      ensures Sending() == if attached then SendBatch(old(Sending()), chunks, endStream) else old(Sending())
    {
      if !attached {
        return;
      }
      if |chunks| == 1 {
        SendEachSingle(Sending(), chunks[0], endStream);
        assert chunks == [chunks[0]];
        SendData(chunks[0], endStream);
        return;
      }
      if chunks == [] {
        if endStream {
          OnDataSent(true);
          Enqueue([Serialized(FrameBytes(DATA, DataFlags(true), streamId, []))], sent + [SentData([], true)]);
        }
        return;
      }
      SendSegments([], Sending(), chunks, endStream);
    }

    /** Header and payload of each chunk that fits, after the frames given; all enqueued together. */
    method SendSegments(first: seq<OutgoingFrame>, ghost start: Sender, chunks: seq<Bytes>, endStream: bool)
      requires Valid() && sent <= start.sent && Queued(streamId, first, start.sent[|sent|..])
      requires CurrentLife() == start.life && sendWindow == start.window
      modifies this`state, this`endStreamSent, this`sendWindow, this`outgoing, this`sent
      ensures Valid() && Sending() == SendEach(start, chunks, endStream)
    {
      var frames: seq<OutgoingFrame> := [];
      ghost var now := start;
      for i := 0 to |chunks|
        invariant Valid() && sent == old(sent) && outgoing == old(outgoing)
        invariant Progress(start, chunks, i, endStream, now)
        invariant Collected(streamId, frames, start, now)
        invariant CurrentLife() == now.life && sendWindow == now.window
      {
        var chunk := chunks[i];
        ProgressStep(start, chunks, i, endStream, now);
        if sendWindow < ToI32(|chunk|) {
          continue;
        }
        var last := endStream && i + 1 == |chunks|;
        var header := DataHeaderBytes(streamId, |chunk|, last);
        sendWindow := ToI32(sendWindow - ToI32(|chunk|));
        if last {
          OnDataSent(true);
        }
        CollectedStep(streamId, frames, start, now, chunk, last);
        frames := frames + [Segmented(header, chunk)];
        now := SendOne(now, chunk, last);
      }
      assert chunks[..|chunks|] == chunks;
      JoinCollected(streamId, first, frames, sent, start, now);
      Enqueue(first + frames, now.sent);
    }

    method SendEncodedHeaders(headerBlock: Bytes, endStream: bool, endHeaders: bool)
      requires Valid()
      modifies this`state, this`endStreamSent, this`outgoing, this`sent
      ensures Valid()
      ensures Sending() ==
        if attached then SendHeader(old(Sending()), headerBlock, endStream, endHeaders) else old(Sending())
      ensures attached ==>
        QueuedAs(old(outgoing), outgoing, streamId, SentHeaders(headerBlock, endStream, endHeaders))
    {
      if !attached {
        return;
      }
      var header := HeadersHeaderBytes(streamId, |headerBlock|, endStream, endHeaders);
      OnHeadersSent(endStream);
      HeaderSegment(streamId, headerBlock, endStream, endHeaders);
      QueuedAsSent(outgoing, Segmented(header, headerBlock), streamId, SentHeaders(headerBlock, endStream, endHeaders));
      Enqueue([Segmented(header, headerBlock)], sent + [SentHeaders(headerBlock, endStream, endHeaders)]);
    }

    /** Whether data follows is decided before anything is queued. */
    method SendEncodedHeadersAndData(headerBlock: Bytes, data: Bytes, endHeaders: bool)
      requires Valid()
      modifies this`state, this`endStreamSent, this`sendWindow, this`outgoing, this`sent
      ensures Valid()
      ensures Sending() ==
        if attached then SendHeaderAndData(old(Sending()), headerBlock, data, endHeaders) else old(Sending())
    {
      if !attached {
        return;
      }
      HeaderSegment(streamId, headerBlock, data == [], endHeaders);
      SegmentedIsSerialized(streamId, data, true);
      hide DataHeaderBytes, HeadersHeaderBytes, Wire, FrameBytes, Step, ToI32, Queued;
      var headerEndStream := data == [];
      var header := HeadersHeaderBytes(streamId, |headerBlock|, headerEndStream, endHeaders);
      OnHeadersSent(headerEndStream);
      ghost var first := SentHeaders(headerBlock, headerEndStream, endHeaders);
      var canSendData := data != [] && sendWindow >= ToI32(|data|);
      if !canSendData {
        QueuedOne(streamId, Segmented(header, headerBlock), first);
        QueuedTail(streamId, sent, [Segmented(header, headerBlock)], [first]);
        Enqueue([Segmented(header, headerBlock)], sent + [first]);
        return;
      }
      var dataHeader := DataHeaderBytes(streamId, |data|, true);
      sendWindow := ToI32(sendWindow - ToI32(|data|));
      OnDataSent(true);
      QueuedTwo(streamId, sent, Segmented(header, headerBlock), first,
                Segmented(dataHeader, data), SentData(data, true));
      Enqueue([Segmented(header, headerBlock), Segmented(dataHeader, data)], sent + [first] + [SentData(data, true)]);
    }

    method SendEncodedHeadersAndDataChunks(headerBlock: Bytes, chunks: seq<Bytes>, endHeaders: bool)
      requires Valid()
      modifies this`state, this`endStreamSent, this`sendWindow, this`outgoing, this`sent
      ensures Valid()
      ensures Sending() ==
        if attached then SendHeaderAndChunks(old(Sending()), headerBlock, chunks, endHeaders) else old(Sending())
    {
      if !attached {
        return;
      }
      if |chunks| == 1 {
        SendEncodedHeadersAndData(headerBlock, chunks[0], endHeaders);
        return;
      }
      var headerEndStream := chunks == [];
      var header := HeadersHeaderBytes(streamId, |headerBlock|, headerEndStream, endHeaders);
      ghost var start := SendHeader(Sending(), headerBlock, headerEndStream, endHeaders);
      OnHeadersSent(headerEndStream);
      SendSegments([Segmented(header, headerBlock)], start, chunks, true);
    }

    method SendRstStream(code: nat)
      requires Valid()
      modifies this`state, this`outgoing, this`sent
      ensures Valid()
      ensures Sending() == if attached then Apply(old(Sending()), OpRst(code)) else old(Sending())
      ensures attached ==> QueuedAs(old(outgoing), outgoing, streamId, SentRst(code))
    {
      if !attached {
        return;
      }
      OnRstStreamSent();
      var frame := Serialized(FrameBytes(RST_STREAM, 0, streamId, RstPayload(code)));
      QueuedAsSent(outgoing, frame, streamId, SentRst(code));
      Enqueue([frame], sent + [SentRst(code)]);
    }
  }

  // ----- what the batch loops keep -----

  /** After i chunks; END_STREAM is asked for with the last one only. */
  ghost predicate Progress(start: Sender, chunks: seq<Bytes>, i: nat, endStream: bool, now: Sender) {
    i <= |chunks| && now == SendEach(start, chunks[..i], endStream && i == |chunks|)
  }

  lemma ProgressStep(start: Sender, chunks: seq<Bytes>, i: nat, endStream: bool, now: Sender)
    requires i < |chunks| && Progress(start, chunks, i, endStream, now)
    ensures Progress(start, chunks, i + 1, endStream, SendOne(now, chunks[i], endStream && i + 1 == |chunks|))
  {
    assert chunks[..i + 1][..i] == chunks[..i];
  }

  ghost predicate Collected(streamId: nat, frames: seq<OutgoingFrame>, start: Sender, now: Sender) {
    start.sent <= now.sent && Queued(streamId, frames, now.sent[|start.sent|..])
  }

  lemma CollectedStep(streamId: nat, frames: seq<OutgoingFrame>, start: Sender, now: Sender, chunk: Bytes, last: bool)
    requires Collected(streamId, frames, start, now) && Fits(now, chunk)
    ensures var ready := Serialized(FrameBytes(DATA, DataFlags(last), streamId, chunk));
      Collected(streamId, frames + [ready], start, SendOne(now, chunk, last))
    ensures var parts := Segmented(DataHeaderBytes(streamId, |chunk|, last), chunk);
      Collected(streamId, frames + [parts], start, SendOne(now, chunk, last))
  {
    var n := |start.sent|;
    var more := now.sent + [SentData(chunk, last)];
    assert more[n..] == now.sent[n..] + [SentData(chunk, last)];
  }

  lemma JoinCollected(streamId: nat, first: seq<OutgoingFrame>, frames: seq<OutgoingFrame>, sent: seq<Sent>,
                      start: Sender, now: Sender)
    requires sent <= start.sent && Queued(streamId, first, start.sent[|sent|..])
    requires Collected(streamId, frames, start, now)
    ensures sent <= now.sent && Queued(streamId, first + frames, now.sent[|sent|..])
  {
    var tail := now.sent[|sent|..];
    assert start.sent[|sent|..] == tail[..|start.sent| - |sent|];
    assert tail[|start.sent[|sent|..]|..] == now.sent[|start.sent|..];
    QueuedMore(streamId, first, start.sent[|sent|..], frames, tail);
  }

  // ----- the three ways of sending a list of chunks, side by side -----

  /** The bytes of a queue in order. */
  function WireBytes(queue: seq<OutgoingFrame>): Bytes {
    if queue == [] then [] else WireBytes(queue[..|queue| - 1]) + queue[|queue| - 1].Wire()
  }

  /** The bytes of the frames sent, in order. */
  function SentBytes(streamId: nat, sent: seq<Sent>): Bytes {
    if sent == [] then [] else SentBytes(streamId, sent[..|sent| - 1]) + Wire(streamId, sent[|sent| - 1])
  }

  lemma {:induction false} QueueHoldsSent(streamId: nat, queue: seq<OutgoingFrame>, sent: seq<Sent>)
    requires Queued(streamId, queue, sent)
    ensures WireBytes(queue) == SentBytes(streamId, sent)
  {
    hide Wire, Queued, OutgoingFrame.Wire;
    QueuedFront(streamId, queue, sent);
    if queue != [] {
      QueueHoldsSent(streamId, queue[..|queue| - 1], sent[..|sent| - 1]);
    }
  }

  lemma QueuedFront(streamId: nat, queue: seq<OutgoingFrame>, sent: seq<Sent>)
    requires Queued(streamId, queue, sent)
    ensures |queue| == |sent|
    ensures var n := |queue| - 1;
      n >= 0 ==> Queued(streamId, queue[..n], sent[..n]) && queue[n].Wire() == Wire(streamId, sent[n])
  {
  }

  /** One send per chunk, END_STREAM asked for with the last. */
  method SendOneByOne(stream: Http2Stream, chunks: seq<Bytes>, endStream: bool)
    requires stream.Valid() && stream.attached
    modifies stream
    ensures stream.Valid() && stream.streamId == old(stream.streamId)
    ensures stream.Sending() == SendEach(old(stream.Sending()), chunks, endStream)
  {
    ghost var start := stream.Sending();
    for i := 0 to |chunks|
      invariant stream.Valid() && stream.attached && stream.streamId == old(stream.streamId)
      invariant Progress(start, chunks, i, endStream, stream.Sending())
    {
      ProgressStep(start, chunks, i, endStream, stream.Sending());
      stream.SendData(chunks[i], endStream && i + 1 == |chunks|);
    }
    assert chunks[..|chunks|] == chunks;
  }

  /** Same window, same state, same bytes on the queue. */
  ghost predicate SameEffect(a: Http2Stream, b: Http2Stream)
    reads a, b
  {
    a.Sending() == b.Sending() && WireBytes(a.outgoing) == WireBytes(b.outgoing)
  }

  /**
    * Three streams in the same situation get the same list. The batch and the moving form never
    * differ; sending chunk by chunk differs exactly on an empty list that ends the stream.
    */
  method SendThreeWays(batch: Http2Stream, moved: Http2Stream, single: Http2Stream, chunks: seq<Bytes>, endStream: bool)
    requires batch != moved && batch != single && moved != single
    requires batch.Valid() && moved.Valid() && single.Valid()
    requires batch.attached && moved.attached && single.attached
    requires batch.streamId == moved.streamId == single.streamId
    requires batch.Sending() == moved.Sending() == single.Sending()
    modifies batch, moved, single
    ensures batch.Valid() && moved.Valid() && single.Valid()
    ensures SameEffect(batch, moved)
    ensures SameEffect(batch, single) <==> chunks != [] || !endStream
    ensures !SameEffect(batch, single) ==> WireBytes(batch.outgoing) != WireBytes(single.outgoing)
  {
    ghost var id, start := batch.streamId, batch.Sending();
    batch.SendDataBatch(chunks, endStream);
    moved.SendDataChunks(chunks, endStream);
    SendOneByOne(single, chunks, endStream);
    QueueHoldsSent(id, batch.outgoing, batch.sent);
    QueueHoldsSent(id, moved.outgoing, moved.sent);
    QueueHoldsSent(id, single.outgoing, single.sent);
    if chunks == [] && endStream {
      assert (start.sent + [SentData([], true)])[..|start.sent|] == start.sent;
      assert |SentBytes(id, batch.sent)| == |SentBytes(id, start.sent)| + HEADER_LENGTH;
    }
  }
}
