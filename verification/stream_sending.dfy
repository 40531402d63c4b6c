/**
  * The send side of a stream as values: what one DATA send does under the stream window, and the
  * several multi-chunk forms reduced to it.
  */
module StreamSending {
  import opened Prelude
  import opened FrameHeader
  import opened StreamLifecycle

  datatype Sent =
    | SentHeaders(headerBlock: Bytes, endStream: bool, endHeaders: bool)
    | SentData(data: Bytes, endStream: bool)
    | SentRst(errorCode: nat)

  function RstPayload(code: nat): Bytes {
    Octets(code, 4)
  }

  /** The bytes of one frame on the wire. */
  function Wire(streamId: nat, s: Sent): Bytes {
    match s
    case SentHeaders(headerBlock, endStream, endHeaders) =>
      FrameBytes(HEADERS, HeadersFlags(endStream, endHeaders), streamId, headerBlock)
    case SentData(data, endStream) => FrameBytes(DATA, DataFlags(endStream), streamId, data)
    case SentRst(code) => FrameBytes(RST_STREAM, 0, streamId, RstPayload(code))
  }

  /** The part of a stream that sending touches. */
  datatype Sender = Sender(life: Life, window: int, sent: seq<Sent>)

  predicate Fits(s: Sender, data: Bytes) {
    s.window >= ToI32(|data|)
  }

  /** Data that does not fit the window is dropped whole, END_STREAM included. */
  function SendOne(s: Sender, data: Bytes, endStream: bool): Sender {
    if !Fits(s, data) then s
    else Sender(if endStream then Step(s.life, DataSent(true)) else s.life,
                ToI32(s.window - ToI32(|data|)), s.sent + [SentData(data, endStream)])
  }

  /** One send per chunk, END_STREAM asked for on the last one only. */
  function SendEach(s: Sender, chunks: seq<Bytes>, endStream: bool): Sender {
    if chunks == [] then s
    else
      var n := |chunks| - 1;
      SendOne(SendEach(s, chunks[..n], false), chunks[n], endStream)
  }

  /** An empty list with END_STREAM still closes the stream, with an empty frame and without a window check. */
  function SendBatch(s: Sender, chunks: seq<Bytes>, endStream: bool): Sender {
    if chunks == [] then
      (if endStream then Sender(Step(s.life, DataSent(true)), s.window, s.sent + [SentData([], true)]) else s)
    else SendEach(s, chunks, endStream)
  }

  function SendHeader(s: Sender, headerBlock: Bytes, endStream: bool, endHeaders: bool): Sender {
    Sender(Step(s.life, HeadersSent(endStream)), s.window, s.sent + [SentHeaders(headerBlock, endStream, endHeaders)])
  }

  /** Without data the header carries END_STREAM; data that does not fit is dropped after the header went out. */
  function SendHeaderAndData(s: Sender, headerBlock: Bytes, data: Bytes, endHeaders: bool): Sender {
    var s' := SendHeader(s, headerBlock, data == [], endHeaders);
    if data == [] then s' else SendOne(s', data, true)
  }

  function SendHeaderAndChunks(s: Sender, headerBlock: Bytes, chunks: seq<Bytes>, endHeaders: bool): Sender {
    if |chunks| == 1 then SendHeaderAndData(s, headerBlock, chunks[0], endHeaders)
    else SendEach(SendHeader(s, headerBlock, chunks == [], endHeaders), chunks, true)
  }

  // ----- when the forms agree -----

  lemma SendEachSingle(s: Sender, data: Bytes, endStream: bool)
    ensures SendEach(s, [data], endStream) == SendOne(s, data, endStream)
  {
    assert [data][..0] == [];
  }

  /**
    * Header plus chunks is the header followed by a batch, except for one empty chunk: that is
    * sent as a header that ends the stream, the other as a header and an empty frame.
    */
  lemma HeaderAndChunksIsHeaderThenBatch(s: Sender, headerBlock: Bytes, chunks: seq<Bytes>, endHeaders: bool)
    ensures var separately := SendBatch(SendHeader(s, headerBlock, chunks == [], endHeaders), chunks, chunks != []);
      SendHeaderAndChunks(s, headerBlock, chunks, endHeaders) == separately <==> chunks != [[]]
  {
    if |chunks| == 1 {
      var h := SendHeader(s, headerBlock, false, endHeaders);
      assert chunks == [chunks[0]];
      SendEachSingle(h, chunks[0], true);
      if chunks[0] == [] {
        assert SendOne(h, [], true).sent[|s.sent|] == SentHeaders(headerBlock, false, endHeaders);
        assert SendHeaderAndChunks(s, headerBlock, chunks, endHeaders).sent[|s.sent|] ==
               SentHeaders(headerBlock, true, endHeaders);
      }
    }
  }

  // ----- the window as an account -----

  function DataBytes(sent: seq<Sent>): nat {
    if sent == [] then 0
    else
      var last := sent[|sent| - 1];
      DataBytes(sent[..|sent| - 1]) + if last.SentData? then |last.data| else 0
  }

  lemma DataBytesSnoc(sent: seq<Sent>, x: Sent)
    ensures DataBytes(sent + [x]) == DataBytes(sent) + if x.SentData? then |x.data| else 0
  {
    assert (sent + [x])[..|sent|] == sent;
  }

  /** A window is a signed 32-bit number. */
  predicate InRange(s: Sender) {
    -TWO31 <= s.window < TWO31
  }

  ghost predicate Small(data: Bytes) {
    |data| < TWO31
  }

  /** Sending moves bytes from the window to the wire and never takes the window below zero. */
  ghost predicate Balanced(s: Sender, s': Sender) {
    && s'.window + DataBytes(s'.sent) == s.window + DataBytes(s.sent)
    && InRange(s')
    && (s'.window < 0 ==> s'.window == s.window)
    && s.sent <= s'.sent
  }

  lemma SendOneBalances(s: Sender, data: Bytes, endStream: bool)
    requires InRange(s) && Small(data)
    ensures Balanced(s, SendOne(s, data, endStream))
  {
    if Fits(s, data) {
      DataBytesSnoc(s.sent, SentData(data, endStream));
      assert 0 <= s.window - |data| < TWO31;
    }
  }

  lemma {:induction false} SendEachBalances(s: Sender, chunks: seq<Bytes>, endStream: bool)
    requires InRange(s) && forall i :: 0 <= i < |chunks| ==> Small(chunks[i])
    ensures Balanced(s, SendEach(s, chunks, endStream))
  {
    if chunks != [] {
      var n := |chunks| - 1;
      assert forall i :: 0 <= i < n ==> chunks[..n][i] == chunks[i];
      SendEachBalances(s, chunks[..n], false);
      SendOneBalances(SendEach(s, chunks[..n], false), chunks[n], endStream);
    }
  }

  lemma SendBatchBalances(s: Sender, chunks: seq<Bytes>, endStream: bool)
    requires InRange(s) && forall i :: 0 <= i < |chunks| ==> Small(chunks[i])
    ensures Balanced(s, SendBatch(s, chunks, endStream))
  {
    if chunks != [] {
      SendEachBalances(s, chunks, endStream);
    } else {
      DataBytesSnoc(s.sent, SentData([], true));
    }
  }

  lemma SendHeaderBalances(s: Sender, headerBlock: Bytes, endStream: bool, endHeaders: bool)
    requires InRange(s)
    ensures Balanced(s, SendHeader(s, headerBlock, endStream, endHeaders))
  {
    DataBytesSnoc(s.sent, SentHeaders(headerBlock, endStream, endHeaders));
  }

  lemma SendHeaderAndChunksBalances(s: Sender, headerBlock: Bytes, chunks: seq<Bytes>, endHeaders: bool)
    requires InRange(s) && forall i :: 0 <= i < |chunks| ==> Small(chunks[i])
    ensures Balanced(s, SendHeaderAndChunks(s, headerBlock, chunks, endHeaders))
  {
    if |chunks| == 1 {
      SendHeaderBalances(s, headerBlock, chunks[0] == [], endHeaders);
      SendOneBalances(SendHeader(s, headerBlock, chunks[0] == [], endHeaders), chunks[0], true);
    } else {
      SendHeaderBalances(s, headerBlock, chunks == [], endHeaders);
      SendEachBalances(SendHeader(s, headerBlock, chunks == [], endHeaders), chunks, true);
    }
  }

  // ----- whole runs of the send interface -----

  datatype Op =
    | OpData(data: Bytes, endStream: bool)
    | OpBatch(chunks: seq<Bytes>, endStream: bool)
    | OpHeaders(headerBlock: Bytes, endStream: bool, endHeaders: bool)
    | OpHeadersAndChunks(headerBlock: Bytes, chunks: seq<Bytes>, endHeaders: bool)
    | OpRst(errorCode: nat)
    | OpAdjustWindow(delta: int)
    | OpReceive(event: Event)  // a callback for a frame of the peer, or a reservation

  function Apply(s: Sender, op: Op): Sender {
    match op
    case OpData(data, endStream) => SendOne(s, data, endStream)
    case OpBatch(chunks, endStream) => SendBatch(s, chunks, endStream)
    case OpHeaders(headerBlock, endStream, endHeaders) => SendHeader(s, headerBlock, endStream, endHeaders)
    case OpHeadersAndChunks(headerBlock, chunks, endHeaders) => SendHeaderAndChunks(s, headerBlock, chunks, endHeaders)
    case OpRst(code) => s.(life := Step(s.life, RstSent), sent := s.sent + [SentRst(code)])
    case OpAdjustWindow(delta) => s.(window := ToI32(s.window + delta))
    case OpReceive(event) => s.(life := Step(s.life, event))
  }

  function ApplyAll(s: Sender, ops: seq<Op>): Sender {
    if ops == [] then s else Apply(ApplyAll(s, ops[..|ops| - 1]), ops[|ops| - 1])
  }

  function Adjustments(ops: seq<Op>): int {
    if ops == [] then 0
    else
      var last := ops[|ops| - 1];
      Adjustments(ops[..|ops| - 1]) + if last.OpAdjustWindow? then last.delta else 0
  }

  /** Chunks below 2^31 bytes, and adjustments that keep the window a signed 32-bit number. */
  ghost predicate Reasonable(s: Sender, op: Op) {
    match op
    case OpData(data, _) => Small(data)
    case OpBatch(chunks, _) => forall i :: 0 <= i < |chunks| ==> Small(chunks[i])
    case OpHeaders(_, _, _) => true
    case OpHeadersAndChunks(_, chunks, _) => forall i :: 0 <= i < |chunks| ==> Small(chunks[i])
    case OpRst(_) => true
    case OpAdjustWindow(delta) => -TWO31 <= s.window + delta < TWO31
    case OpReceive(_) => true
  }

  ghost predicate ReasonableRun(s: Sender, ops: seq<Op>) {
    ops == [] ||
    (var n := |ops| - 1;
     ReasonableRun(s, ops[..n]) && Reasonable(ApplyAll(s, ops[..n]), ops[n]))
  }

  lemma ApplyBalances(s: Sender, op: Op)
    requires InRange(s) && Reasonable(s, op) && !op.OpAdjustWindow?
    ensures Balanced(s, Apply(s, op))
  {
    match op
    case OpData(data, endStream) => SendOneBalances(s, data, endStream);
    case OpBatch(chunks, endStream) => SendBatchBalances(s, chunks, endStream);
    case OpHeaders(headerBlock, endStream, endHeaders) => SendHeaderBalances(s, headerBlock, endStream, endHeaders);
    case OpHeadersAndChunks(headerBlock, chunks, endHeaders) =>
      SendHeaderAndChunksBalances(s, headerBlock, chunks, endHeaders);
    case OpRst(code) => DataBytesSnoc(s.sent, SentRst(code));
    case OpAdjustWindow(delta) =>
    case OpReceive(event) =>
  }

  /** At every moment of every run: window = initial window + adjustments - DATA bytes put on the wire. */
  lemma {:induction false} WindowLaw(s: Sender, ops: seq<Op>)
    requires InRange(s) && ReasonableRun(s, ops)
    ensures var s' := ApplyAll(s, ops);
      InRange(s') && s'.window == s.window + Adjustments(ops) - (DataBytes(s'.sent) - DataBytes(s.sent))
  {
    if ops != [] {
      var n := |ops| - 1;
      WindowLaw(s, ops[..n]);
      if !ops[n].OpAdjustWindow? {
        ApplyBalances(ApplyAll(s, ops[..n]), ops[n]);
      }
    }
  }

  // ----- when everything asked for is delivered -----

  function TotalSize(chunks: seq<Bytes>): nat {
    if chunks == [] then 0 else TotalSize(chunks[..|chunks| - 1]) + |chunks[|chunks| - 1]|
  }

  /** The frames of a batch that goes out whole. */
  function Whole(chunks: seq<Bytes>, endStream: bool): seq<Sent> {
    if chunks == [] then []
    else Whole(chunks[..|chunks| - 1], false) + [SentData(chunks[|chunks| - 1], endStream)]
  }

  lemma {:induction false} SendEachCount(s: Sender, chunks: seq<Bytes>, endStream: bool)
    ensures |s.sent| <= |SendEach(s, chunks, endStream).sent| <= |s.sent| + |chunks|
  {
    if chunks != [] {
      SendEachCount(s, chunks[..|chunks| - 1], false);
    }
  }

  lemma {:induction false} WholeCount(chunks: seq<Bytes>, endStream: bool)
    ensures |Whole(chunks, endStream)| == |chunks|
  {
    if chunks != [] {
      WholeCount(chunks[..|chunks| - 1], false);
    }
  }

  lemma SendOneOfSmall(s: Sender, data: Bytes, endStream: bool)
    requires InRange(s) && Small(data)
    ensures Fits(s, data) <==> |data| <= s.window
    ensures |data| <= s.window ==>
      SendOne(s, data, endStream).window == s.window - |data| &&
      SendOne(s, data, endStream).sent == s.sent + [SentData(data, endStream)]
    ensures |data| > s.window ==> SendOne(s, data, endStream) == s
  {
  }

  lemma {:induction false} FittingGoesOutWhole(s: Sender, chunks: seq<Bytes>, endStream: bool)
    requires InRange(s) && forall i :: 0 <= i < |chunks| ==> Small(chunks[i])
    requires TotalSize(chunks) <= s.window
    ensures SendEach(s, chunks, endStream).sent == s.sent + Whole(chunks, endStream)
    ensures SendEach(s, chunks, endStream).window == s.window - TotalSize(chunks)
  {
    if chunks != [] {
      var n := |chunks| - 1;
      hide SendOne, Fits, InRange;
      assert forall i :: 0 <= i < n ==> chunks[..n][i] == chunks[i];
      FittingGoesOutWhole(s, chunks[..n], false);
      SendEachBalances(s, chunks[..n], false);
      SendOneOfSmall(SendEach(s, chunks[..n], false), chunks[n], endStream);
      Assoc(s.sent, Whole(chunks[..n], false), [SentData(chunks[n], endStream)]);
    }
  }

  lemma {:induction false} WholeMustFit(s: Sender, chunks: seq<Bytes>, endStream: bool)
    requires InRange(s) && forall i :: 0 <= i < |chunks| ==> Small(chunks[i])
    requires |SendEach(s, chunks, endStream).sent| == |s.sent| + |chunks|
    ensures chunks == [] || TotalSize(chunks) <= s.window
    ensures SendEach(s, chunks, endStream).window == s.window - TotalSize(chunks)
  {
    if chunks != [] {
      var n := |chunks| - 1;
      assert forall i :: 0 <= i < n ==> chunks[..n][i] == chunks[i];
      hide SendOne, Fits, InRange;
      SendEachCount(s, chunks[..n], false);
      SendEachBalances(s, chunks[..n], false);
      SendOneOfSmall(SendEach(s, chunks[..n], false), chunks[n], endStream);
      WholeMustFit(s, chunks[..n], false);
    }
  }

  /** A list of chunks goes out whole iff it is empty or fits the window as a whole. */
  lemma AllDeliveredIff(s: Sender, chunks: seq<Bytes>, endStream: bool)
    requires InRange(s) && forall i :: 0 <= i < |chunks| ==> Small(chunks[i])
    ensures var delivered := SendEach(s, chunks, endStream).sent == s.sent + Whole(chunks, endStream);
      delivered <==> chunks == [] || TotalSize(chunks) <= s.window
  {
    WholeCount(chunks, endStream);
    if chunks == [] {
      assert s.sent + [] == s.sent;
    } else if TotalSize(chunks) <= s.window {
      FittingGoesOutWhole(s, chunks, endStream);
    } else if SendEach(s, chunks, endStream).sent == s.sent + Whole(chunks, endStream) {
      WholeMustFit(s, chunks, endStream);
    }
  }

  // ----- END_STREAM on the wire -----

  predicate EndsStream(x: Sent) {
    (x.SentHeaders? || x.SentData?) && x.endStream
  }

  /** What a window is worth after chunks have been tried in turn. */
  function WindowLeft(window: int, chunks: seq<Bytes>): int {
    if chunks == [] then window
    else
      var w := WindowLeft(window, chunks[..|chunks| - 1]);
      var size := |chunks[|chunks| - 1]|;
      if size <= w then w - size else w
  }

  lemma {:induction false} SendEachWindow(s: Sender, chunks: seq<Bytes>, endStream: bool)
    requires InRange(s) && forall i :: 0 <= i < |chunks| ==> Small(chunks[i])
    ensures SendEach(s, chunks, endStream).window == WindowLeft(s.window, chunks)
  {
    if chunks != [] {
      var n := |chunks| - 1;
      hide SendOne, Fits, InRange;
      assert forall i :: 0 <= i < n ==> chunks[..n][i] == chunks[i];
      SendEachWindow(s, chunks[..n], false);
      SendEachBalances(s, chunks[..n], false);
      SendOneOfSmall(SendEach(s, chunks[..n], false), chunks[n], endStream);
    }
  }

  /** How one operation extends what was sent: END_STREAM at most on its last frame, and the flag follows. */
  ghost predicate Extends(s: Sender, s': Sender) {
    && s.sent <= s'.sent
    && (forall i :: |s.sent| <= i < |s'.sent| && EndsStream(s'.sent[i]) ==> i == |s'.sent| - 1)
    && (s'.life.endSent <==> s.life.endSent || AddsEnd(s, s'))
  }

  ghost predicate AddsEnd(s: Sender, s': Sender) {
    exists i :: |s.sent| <= i < |s'.sent| && EndsStream(s'.sent[i])
  }

  lemma {:induction false} SendEachExtends(s: Sender, chunks: seq<Bytes>, endStream: bool)
    ensures var s' := SendEach(s, chunks, endStream);
      && Extends(s, s')
      && (!endStream ==> s'.life == s.life && !AddsEnd(s, s'))
  {
    if chunks != [] {
      var n := |chunks| - 1;
      SendEachExtends(s, chunks[..n], false);
      OneMoreExtends(s, SendEach(s, chunks[..n], false), chunks[n], endStream);
    }
  }

  lemma OneMoreExtends(s: Sender, before: Sender, data: Bytes, endStream: bool)
    requires Extends(s, before) && !AddsEnd(s, before)
    ensures var s' := SendOne(before, data, endStream);
      && Extends(s, s')
      && (AddsEnd(s, s') <==> endStream && Fits(before, data))
  {
    var s' := SendOne(before, data, endStream);
    assert forall i :: |s.sent| <= i < |before.sent| ==> !EndsStream(before.sent[i]);
    if Fits(before, data) {
      assert s'.sent[|before.sent|] == SentData(data, endStream);
    }
  }

  /**
    * A list that is to end the stream ends it iff its last chunk fits the window that the others
    * leave; a dropped last chunk takes END_STREAM with it.
    */
  lemma DroppedLastChunkLosesEnd(s: Sender, chunks: seq<Bytes>)
    requires chunks != []
    ensures var n := |chunks| - 1;
      var others, all := SendEach(s, chunks[..n], false), SendEach(s, chunks, true);
      && (AddsEnd(s, all) <==> Fits(others, chunks[n]))
      && (all.life.endSent <==> s.life.endSent || Fits(others, chunks[n]))
      && (!Fits(others, chunks[n]) ==> all == others)
    ensures var n := |chunks| - 1;
      InRange(s) && (forall i :: 0 <= i <= n ==> Small(chunks[i])) ==>
        (AddsEnd(s, SendEach(s, chunks, true)) <==> |chunks[n]| <= WindowLeft(s.window, chunks[..n]))
  {
    var n := |chunks| - 1;
    var others := SendEach(s, chunks[..n], false);
    SendEachExtends(s, chunks[..n], false);
    OneMoreExtends(s, others, chunks[n], true);
    if InRange(s) && forall i :: 0 <= i <= n ==> Small(chunks[i]) {
      assert forall i :: 0 <= i < n ==> chunks[..n][i] == chunks[i];
      SendEachWindow(s, chunks[..n], false);
      SendEachBalances(s, chunks[..n], false);
      SendOneOfSmall(others, chunks[n], true);
    }
  }

  // ----- nothing after the end, over whole runs -----

  /** After a frame with END_STREAM only resets follow. */
  ghost predicate NothingAfterEnd(sent: seq<Sent>) {
    forall i, j :: 0 <= i < j < |sent| && EndsStream(sent[i]) ==> sent[j].SentRst?
  }

  /** Receive callbacks and reservations; what is sent goes through the other operations. */
  predicate FromPeer(e: Event) {
    !IsSend(e) && !e.RstSent?
  }

  predicate Proper(op: Op) {
    op.OpReceive? ==> FromPeer(op.event)
  }

  lemma ApplyExtends(s: Sender, op: Op)
    requires Proper(op)
    ensures Extends(s, Apply(s, op))
    ensures op.OpRst? || forall i :: |s.sent| <= i < |Apply(s, op).sent| ==> !Apply(s, op).sent[i].SentRst?
  {
    match op
    case OpData(data, endStream) => OneMoreExtends(s, s, data, endStream);
    case OpBatch(chunks, endStream) =>
      if chunks != [] {
        SendEachExtends(s, chunks, endStream);
        SendEachSendsData(s, chunks, endStream);
      } else if endStream {
        assert Apply(s, op).sent[|s.sent|] == SentData([], true);
      }
    case OpHeaders(headerBlock, endStream, endHeaders) =>
      assert Apply(s, op).sent[|s.sent|] == SentHeaders(headerBlock, endStream, endHeaders);
    case OpHeadersAndChunks(headerBlock, chunks, endHeaders) =>
      HeaderAndChunksExtends(s, headerBlock, chunks, endHeaders);
    case OpRst(code) => assert Apply(s, op).sent[|s.sent|] == SentRst(code);
    case OpAdjustWindow(delta) =>
    case OpReceive(event) =>
  }

  lemma {:induction false} SendEachSendsData(s: Sender, chunks: seq<Bytes>, endStream: bool)
    ensures var s' := SendEach(s, chunks, endStream);
      s.sent <= s'.sent && forall i :: |s.sent| <= i < |s'.sent| ==> s'.sent[i].SentData?
  {
    if chunks != [] {
      SendEachSendsData(s, chunks[..|chunks| - 1], false);
    }
  }

  lemma HeaderAndChunksExtends(s: Sender, headerBlock: Bytes, chunks: seq<Bytes>, endHeaders: bool)
    ensures var s' := SendHeaderAndChunks(s, headerBlock, chunks, endHeaders);
      Extends(s, s') && forall i :: |s.sent| <= i < |s'.sent| ==> !s'.sent[i].SentRst?
  {
    var ends := chunks == [] || chunks == [[]];
    var h := SendHeader(s, headerBlock, ends, endHeaders);
    assert h.sent[|s.sent|] == SentHeaders(headerBlock, ends, endHeaders);
    if !ends {
      assert Extends(s, h) && !AddsEnd(s, h);
      if |chunks| == 1 {
        assert chunks == [chunks[0]];
        OneMoreExtends(s, h, chunks[0], true);
      } else {
        var n := |chunks| - 1;
        SendEachExtends(h, chunks[..n], false);
        SendEachSendsData(h, chunks[..n], false);
        var others := SendEach(h, chunks[..n], false);
        assert Extends(s, others) && !AddsEnd(s, others);
        OneMoreExtends(s, others, chunks[n], true);
      }
    } else if chunks == [[]] {
      assert SendHeaderAndChunks(s, headerBlock, chunks, endHeaders) == h;
    }
  }

  /** Whether an operation will queue HEADERS or DATA, read off its arguments and the window before it. */
  predicate WillQueue(s: Sender, op: Op) {
    match op
    case OpData(data, _) => Fits(s, data)
    case OpBatch(chunks, endStream) =>
      if chunks == [] then endStream else exists i :: 0 <= i < |chunks| && Fits(s, chunks[i])
    case OpHeaders(_, _, _) => true
    case OpHeadersAndChunks(_, _, _) => true
    case _ => false
  }

  /** A list of chunks queues something iff one of them fits the window it starts with. */
  lemma {:induction false} SendEachQueuesIff(s: Sender, chunks: seq<Bytes>, endStream: bool)
    ensures |SendEach(s, chunks, endStream).sent| > |s.sent| <==> exists i :: 0 <= i < |chunks| && Fits(s, chunks[i])
    ensures |SendEach(s, chunks, endStream).sent| >= |s.sent|
    ensures |SendEach(s, chunks, endStream).sent| == |s.sent| ==> SendEach(s, chunks, endStream) == s
  {
    if chunks != [] {
      var n := |chunks| - 1;
      SendEachQueuesIff(s, chunks[..n], false);
      assert (exists i :: 0 <= i < |chunks| && Fits(s, chunks[i])) <==>
             (exists i :: 0 <= i < n && Fits(s, chunks[..n][i])) || Fits(s, chunks[n]);
    }
  }

  /** The guards say what the operation does: the wire changes iff it will queue something, or is a reset. */
  lemma WillQueueIff(s: Sender, op: Op)
    ensures Apply(s, op).sent != s.sent <==> WillQueue(s, op) || op.OpRst?
  {
    match op
    case OpBatch(chunks, endStream) =>
      if chunks != [] {
        SendEachQueuesIff(s, chunks, endStream);
      } else {
        assert endStream ==> |Apply(s, op).sent| == |s.sent| + 1;
      }
    case OpHeadersAndChunks(headerBlock, chunks, endHeaders) =>
      if |chunks| != 1 {
        SendEachQueuesIff(SendHeader(s, headerBlock, chunks == [], endHeaders), chunks, true);
        assert |SendHeader(s, headerBlock, chunks == [], endHeaders).sent| == |s.sent| + 1;
      }
      assert |Apply(s, op).sent| > |s.sent|;
    case _ =>
      assert |Apply(s, op).sent| > |s.sent| || Apply(s, op).sent == s.sent;
  }

  /** An operation issued when END_STREAM has been sent, and that will queue HEADERS or DATA all the same. */
  predicate SendsAfterEnd(s: Sender, op: Op) {
    s.life.endSent && WillQueue(s, op)
  }

  predicate NeverSendsAfterEnd(s: Sender, ops: seq<Op>) {
    ops == [] ||
    (var n := |ops| - 1;
     NeverSendsAfterEnd(s, ops[..n]) && !SendsAfterEnd(ApplyAll(s, ops[..n]), ops[n]))
  }

  predicate AllProper(ops: seq<Op>) {
    forall i :: 0 <= i < |ops| ==> Proper(ops[i])
  }

  /**
    * Over any run of a new stream: nothing but resets follows END_STREAM on the wire iff no
    * operation is issued with the END_STREAM flag set and HEADERS, or DATA that fits, to queue. The
    * flag says what is on the wire.
    */
  lemma {:induction false} NothingAfterEndIff(window: int, ops: seq<Op>)
    requires AllProper(ops)
    ensures var s := ApplyAll(Sender(FRESH, window, []), ops);
      NothingAfterEnd(s.sent) <==> NeverSendsAfterEnd(Sender(FRESH, window, []), ops)
    ensures var s := ApplyAll(Sender(FRESH, window, []), ops);
      s.life.endSent <==> exists i :: 0 <= i < |s.sent| && EndsStream(s.sent[i])
  {
    if ops != [] {
      var n := |ops| - 1;
      assert forall i :: 0 <= i < n ==> ops[..n][i] == ops[i];
      NothingAfterEndIff(window, ops[..n]);
      var before := ApplyAll(Sender(FRESH, window, []), ops[..n]);
      ApplyExtends(before, ops[n]);
      WillQueueIff(before, ops[n]);
      assert ops[n].OpRst? ==> !WillQueue(before, ops[n]);
      hide Apply, WillQueue;
      OneMoreOp(before, Apply(before, ops[n]), ops[n].OpRst?);
    }
  }

  lemma OneMoreOp(before: Sender, after: Sender, rst: bool)
    requires Extends(before, after)
    requires before.life.endSent <==> exists i :: 0 <= i < |before.sent| && EndsStream(before.sent[i])
    requires if rst then |after.sent| == |before.sent| + 1 && after.sent[|before.sent|].SentRst?
             else forall i :: |before.sent| <= i < |after.sent| ==> !after.sent[i].SentRst?
    ensures var late := before.life.endSent && !rst && after.sent != before.sent;
      NothingAfterEnd(after.sent) <==> NothingAfterEnd(before.sent) && !late
    ensures after.life.endSent <==> exists i :: 0 <= i < |after.sent| && EndsStream(after.sent[i])
  {
    assert forall i :: 0 <= i < |before.sent| ==> before.sent[i] == after.sent[i];
    if before.life.endSent && !rst && after.sent != before.sent {
      var i :| 0 <= i < |before.sent| && EndsStream(before.sent[i]);
      assert |after.sent| == |before.sent| ==> after.sent == before.sent;
      assert EndsStream(after.sent[i]) && !after.sent[|before.sent|].SentRst?;
    }
  }

  /** Whether an operation is issued with its can* query true; the callbacks for the peer's frames need none. */
  predicate Permitted(s: Sender, op: Op) {
    match op
    case OpData(_, _) => CanSendData(s.life.state)
    case OpBatch(_, _) => CanSendData(s.life.state)
    case OpHeaders(_, _, _) => CanSendHeaders(s.life.state)
    case OpHeadersAndChunks(_, _, _) => CanSendHeaders(s.life.state)
    case OpReceive(event) => event.ReserveLocal? || event.ReserveRemote? ==> s.life.state.Idle?
    case _ => true
  }

  predicate PermittedRun(s: Sender, ops: seq<Op>) {
    ops == [] ||
    (var n := |ops| - 1;
     PermittedRun(s, ops[..n]) && Permitted(ApplyAll(s, ops[..n]), ops[n]))
  }

  /** Callers that ask the can* queries never send after END_STREAM. */
  lemma {:induction false} PermittedRunsEndOnce(window: int, ops: seq<Op>)
    requires AllProper(ops) && PermittedRun(Sender(FRESH, window, []), ops)
    ensures NothingAfterEnd(ApplyAll(Sender(FRESH, window, []), ops).sent)
  {
    PermittedRunNeverLate(window, ops);
    NothingAfterEndIff(window, ops);
  }

  /** Once END_STREAM is sent neither query is true again. */
  predicate SendingIsOver(l: Life) {
    l.endSent ==> l.state.HalfClosedLocal? || l.state.Closed?
  }

  lemma {:induction false} PermittedRunNeverLate(window: int, ops: seq<Op>)
    requires AllProper(ops) && PermittedRun(Sender(FRESH, window, []), ops)
    ensures NeverSendsAfterEnd(Sender(FRESH, window, []), ops)
    ensures SendingIsOver(ApplyAll(Sender(FRESH, window, []), ops).life)
  {
    if ops != [] {
      var n := |ops| - 1;
      assert forall i :: 0 <= i < n ==> ops[..n][i] == ops[i];
      PermittedRunNeverLate(window, ops[..n]);
      PermittedKeepsOver(ApplyAll(Sender(FRESH, window, []), ops[..n]), ops[n]);
    }
  }

  lemma PermittedKeepsOver(s: Sender, op: Op)
    requires Proper(op) && Permitted(s, op) && SendingIsOver(s.life)
    ensures SendingIsOver(Apply(s, op).life) && !SendsAfterEnd(s, op)
  {
    match op
    case OpBatch(chunks, endStream) =>
      if chunks != [] {
        SendEachLife(s, chunks, endStream);
      }
    case OpHeadersAndChunks(headerBlock, chunks, endHeaders) =>
      if |chunks| > 1 {
        SendEachLife(SendHeader(s, headerBlock, false, endHeaders), chunks, true);
      }
    case _ =>
  }

  lemma SendEachLife(s: Sender, chunks: seq<Bytes>, endStream: bool)
    requires chunks != []
    ensures var s' := SendEach(s, chunks, endStream);
      s'.life == s.life || (endStream && s'.life == Step(s.life, DataSent(true)))
  {
    SendEachExtends(s, chunks[..|chunks| - 1], false);
  }

  /** Without asking, a stream can end twice on the wire. */
  lemma EndedTwice(window: int)
    requires 0 <= window < TWO31
    ensures var ops := [OpData([], true), OpData([], true)];
      ApplyAll(Sender(FRESH, window, []), ops).sent == [SentData([], true), SentData([], true)]
  {
    var ops := [OpData([], true), OpData([], true)];
    assert ops[..1] == [OpData([], true)] && ops[..1][..0] == [];
    assert ApplyAll(Sender(FRESH, window, []), ops[..1]).sent == [SentData([], true)];
  }
}
