/**
  * The connection-level scheduler: streams are sorted by weight and drained greedily under the
  * connection window, their own windows and the frame size limit.
  */
module OutboundScheduler {
  import opened Prelude

  datatype StreamSend = StreamSend(id: nat, window: int, pending: seq<byte>, endStream: bool, weight: nat)

  datatype DataFrame = DataFrame(id: nat, payload: seq<byte>, endStream: bool)

  /** One stream drained: its frames in order, what is left of it, and the connection window after. */
  datatype Drained = Drained(frames: seq<DataFrame>, left: StreamSend, conn: int)

  function Chunk(conn: int, maxFrame: nat, s: StreamSend): (n: nat)
    requires conn > 0 && s.window > 0
    ensures n <= |s.pending| && n <= conn && n <= s.window && n <= maxFrame
    ensures s.pending != [] && maxFrame > 0 ==> n > 0
  {
    Min(Min(conn, s.window), Min(maxFrame, |s.pending|))
  }

  function Cut(s: StreamSend, n: nat): (StreamSend, DataFrame)
    requires n <= |s.pending|
  {
    var rest := s.(pending := s.pending[n..], window := s.window - n);
    (rest, DataFrame(s.id, s.pending[..n], s.endStream && rest.pending == []))
  }

  function Drain(conn: int, maxFrame: nat, s: StreamSend): Drained
    requires maxFrame > 0
    decreases |s.pending|
  {
    if s.pending == [] || s.window <= 0 || conn <= 0 then Drained([], s, conn)
    else
      var n := Chunk(conn, maxFrame, s);
      var (rest, frame) := Cut(s, n);
      var more := Drain(conn - n, maxFrame, rest);
      Drained([frame] + more.frames, more.left, more.conn)
  }

  /** All streams in order; `frames[i]` are the frames of the i-th stream. */
  datatype Selection = Selection(frames: seq<seq<DataFrame>>, left: seq<StreamSend>, conn: int)

  function DrainAll(conn: int, maxFrame: nat, streams: seq<StreamSend>): (r: Selection)
    requires maxFrame > 0
    ensures |r.frames| == |r.left| == |streams|
    decreases streams
  {
    if streams == [] then Selection([], [], conn)
    else
      var d := Drain(conn, maxFrame, streams[0]);
      var more := DrainAll(d.conn, maxFrame, streams[1..]);
      Selection([d.frames] + more.frames, [d.left] + more.left, more.conn)
  }

  function Payloads(frames: seq<DataFrame>): seq<byte> {
    if frames == [] then [] else frames[0].payload + Payloads(frames[1..])
  }

  /** What a stream could send if the connection window were no limit. */
  function Demand(s: StreamSend): nat {
    Min(|s.pending|, Max(0, s.window))
  }

  function TotalDemand(streams: seq<StreamSend>): nat {
    if streams == [] then 0 else Demand(streams[0]) + TotalDemand(streams[1..])
  }

  // ----- one stream -----

  /** Every frame but the last is full, none is empty, and END_STREAM is on the one that empties an ending stream. */
  ghost predicate FramesAreSound(frames: seq<DataFrame>, before: StreamSend, after: StreamSend, maxFrame: nat) {
    forall j :: 0 <= j < |frames| ==>
      && frames[j].id == before.id
      && 1 <= |frames[j].payload| <= maxFrame
      && (j < |frames| - 1 ==> |frames[j].payload| == maxFrame)
      && (frames[j].endStream <==> before.endStream && j == |frames| - 1 && after.pending == [])
  }

  lemma PayloadsOfCut(frame: DataFrame, more: seq<DataFrame>)
    ensures Payloads([frame] + more) == frame.payload + Payloads(more)
  {
    assert ([frame] + more)[1..] == more;
  }

  lemma DrainOnce(conn: int, maxFrame: nat, s: StreamSend)
    requires maxFrame > 0 && s.pending != [] && s.window > 0 && conn > 0
    ensures var n := Chunk(conn, maxFrame, s);
      var (rest, frame) := Cut(s, n);
      var more := Drain(conn - n, maxFrame, rest);
      && Drain(conn, maxFrame, s) == Drained([frame] + more.frames, more.left, more.conn)
      && frame.payload + rest.pending == s.pending && |rest.pending| < |s.pending|
  {
  }

  ghost predicate KeepsData(d: Drained, s: StreamSend) {
    Payloads(d.frames) + d.left.pending == s.pending
  }

  lemma CutKeepsData(frame: DataFrame, more: Drained, rest: StreamSend, s: StreamSend)
    requires KeepsData(more, rest) && frame.payload + rest.pending == s.pending
    ensures KeepsData(Drained([frame] + more.frames, more.left, more.conn), s)
  {
    PayloadsOfCut(frame, more.frames);
    hide Payloads;
    Assoc(frame.payload, Payloads(more.frames), more.left.pending);
  }

  lemma NothingDrained(conn: int, maxFrame: nat, s: StreamSend)
    requires maxFrame > 0 && (s.pending == [] || s.window <= 0 || conn <= 0)
    ensures KeepsData(Drain(conn, maxFrame, s), s)
  {
    assert [] + s.pending == s.pending;
  }

  /** Payloads and what is left make up the original data. */
  lemma {:induction false} DrainKeepsData(conn: int, maxFrame: nat, s: StreamSend)
    requires maxFrame > 0
    ensures KeepsData(Drain(conn, maxFrame, s), s)
    decreases |s.pending|
  {
    if s.pending == [] || s.window <= 0 || conn <= 0 {
      NothingDrained(conn, maxFrame, s);
    } else {
      hide KeepsData, Drain, Chunk, Cut;
      DrainOnce(conn, maxFrame, s);
      var n := Chunk(conn, maxFrame, s);
      var (rest, frame) := Cut(s, n);
      DrainKeepsData(conn - n, maxFrame, rest);
      CutKeepsData(frame, Drain(conn - n, maxFrame, rest), rest, s);
    }
  }

  /** Both windows go down by what was sent; nothing else of the stream changes. */
  lemma {:induction false} DrainKeepsCount(conn: int, maxFrame: nat, s: StreamSend)
    requires maxFrame > 0
    ensures var d := Drain(conn, maxFrame, s); var sent := |Payloads(d.frames)|;
      d.conn == conn - sent && d.left == s.(pending := d.left.pending, window := s.window - sent)
    decreases |s.pending|
  {
    if !(s.pending == [] || s.window <= 0 || conn <= 0) {
      var n := Chunk(conn, maxFrame, s);
      var (rest, frame) := Cut(s, n);
      DrainKeepsCount(conn - n, maxFrame, rest);
      PayloadsOfCut(frame, Drain(conn - n, maxFrame, rest).frames);
    }
  }

  /** A stream sends exactly the smaller of its demand and the connection window. */
  lemma {:induction false} DrainAmount(conn: int, maxFrame: nat, s: StreamSend)
    requires maxFrame > 0
    ensures conn - Drain(conn, maxFrame, s).conn == Min(Max(0, conn), Demand(s))
    decreases |s.pending|
  {
    if !(s.pending == [] || s.window <= 0 || conn <= 0) {
      var n := Chunk(conn, maxFrame, s);
      DrainAmount(conn - n, maxFrame, Cut(s, n).0);
    }
  }

  /** Frames are full but for the last, never empty, and END_STREAM sits on the frame that empties the stream. */
  lemma {:induction false} DrainFrames(conn: int, maxFrame: nat, s: StreamSend)
    requires maxFrame > 0
    ensures var d := Drain(conn, maxFrame, s);
      && FramesAreSound(d.frames, s, d.left, maxFrame)
      && (d.frames == [] ==> d.left == s && d.conn == conn)
      && (d.frames != [] ==> s.pending != [])
    decreases |s.pending|
  {
    if !(s.pending == [] || s.window <= 0 || conn <= 0) {
      var n := Chunk(conn, maxFrame, s);
      var (rest, frame) := Cut(s, n);
      DrainFrames(conn - n, maxFrame, rest);
      ShortFrameIsLast(conn, maxFrame, s);
      OneMoreFrame(frame, s, rest, Drain(conn - n, maxFrame, rest), maxFrame);
    }
  }

  /** After a frame that is not full there is nothing left to send, or no window. */
  lemma ShortFrameIsLast(conn: int, maxFrame: nat, s: StreamSend)
    requires maxFrame > 0 && s.pending != [] && s.window > 0 && conn > 0
    ensures var n := Chunk(conn, maxFrame, s);
      n == maxFrame || Drain(conn - n, maxFrame, Cut(s, n).0).frames == []
  {
  }

  lemma OneMoreFrame(frame: DataFrame, s: StreamSend, rest: StreamSend, more: Drained, maxFrame: nat)
    requires FramesAreSound(more.frames, rest, more.left, maxFrame)
    requires frame.id == s.id == rest.id && s.endStream == rest.endStream && 1 <= |frame.payload| <= maxFrame
    requires more.frames == [] ==> more.left == rest
    requires more.frames != [] ==> rest.pending != [] && |frame.payload| == maxFrame
    requires frame.endStream <==> s.endStream && rest.pending == []
    ensures FramesAreSound([frame] + more.frames, s, more.left, maxFrame)
  {
    var frames := [frame] + more.frames;
    assert forall j :: 0 < j < |frames| ==> frames[j] == more.frames[j - 1];
  }

  lemma DrainOneStream(conn: int, maxFrame: nat, s: StreamSend)
    requires maxFrame > 0
    ensures var d := Drain(conn, maxFrame, s);
      && Payloads(d.frames) + d.left.pending == s.pending
      && d.left == s.(pending := d.left.pending, window := s.window - |Payloads(d.frames)|)
      && conn - d.conn == |Payloads(d.frames)| == Min(Max(0, conn), Demand(s))
      && FramesAreSound(d.frames, s, d.left, maxFrame)
  {
    DrainKeepsData(conn, maxFrame, s);
    DrainKeepsCount(conn, maxFrame, s);
    DrainAmount(conn, maxFrame, s);
    DrainFrames(conn, maxFrame, s);
  }

  /** Full frames but for the last make as few frames as possible: the bytes over the frame size, rounded up. */
  lemma {:induction false} FrameCount(frames: seq<DataFrame>, before: StreamSend, after: StreamSend, maxFrame: nat)
    requires maxFrame > 0 && FramesAreSound(frames, before, after, maxFrame)
    ensures |frames| == (|Payloads(frames)| + maxFrame - 1) / maxFrame
  {
    FrameBounds(frames, maxFrame);
    hide Payloads;
    RoundedUp(|frames|, |Payloads(frames)|, maxFrame);
  }

  lemma {:induction false} FrameBounds(frames: seq<DataFrame>, maxFrame: nat)
    requires forall j :: 0 <= j < |frames| ==> 1 <= |frames[j].payload| <= maxFrame
    requires forall j :: 0 <= j < |frames| - 1 ==> |frames[j].payload| == maxFrame
    ensures (|frames| - 1) * maxFrame < |Payloads(frames)| <= |frames| * maxFrame || |frames| == |Payloads(frames)| == 0
  {
    if |frames| > 1 {
      FrameBounds(frames[1..], maxFrame);
      PayloadsOfCut(frames[0], frames[1..]);
      hide Payloads;
      assert frames == [frames[0]] + frames[1..];
      AddOne(|frames| - 1, maxFrame);
      AddOne(|frames| - 2, maxFrame);
    } else if |frames| == 1 {
      assert Payloads(frames) == frames[0].payload + [];
    }
  }

  lemma AddOne(count: nat, unit: nat)
    ensures (count + 1) * unit == count * unit + unit
  {
  }

  lemma RoundedUp(count: nat, bytes: nat, unit: nat)
    requires unit > 0 && ((count - 1) * unit < bytes <= count * unit || count == bytes == 0)
    ensures count == (bytes + unit - 1) / unit
  {
    var q := (bytes + unit - 1) / unit;
    var r := (bytes + unit - 1) % unit;
    assert bytes + unit - 1 == q * unit + r;
    if q < count {
      MulMonotone(q, count - 1, unit);
    } else if q > count {
      MulMonotone(count + 1, q, unit);
    }
  }

  lemma MulMonotone(a: int, b: int, unit: nat)
    requires a <= b
    ensures a * unit <= b * unit
  {
  }

  // ----- the whole selection -----

  lemma {:induction false} DrainAllTotals(conn: int, maxFrame: nat, streams: seq<StreamSend>)
    requires maxFrame > 0
    ensures conn - DrainAll(conn, maxFrame, streams).conn == Min(Max(0, conn), TotalDemand(streams))
  {
    if streams != [] {
      DrainOneStream(conn, maxFrame, streams[0]);
      DrainAllTotals(Drain(conn, maxFrame, streams[0]).conn, maxFrame, streams[1..]);
    }
  }

  lemma {:induction false} DrainAllStream(conn: int, maxFrame: nat, streams: seq<StreamSend>, i: nat)
    requires maxFrame > 0 && i < |streams|
    ensures var r := DrainAll(conn, maxFrame, streams);
      && Payloads(r.frames[i]) + r.left[i].pending == streams[i].pending
      && r.left[i] == streams[i].(pending := r.left[i].pending, window := streams[i].window - |Payloads(r.frames[i])|)
      && FramesAreSound(r.frames[i], streams[i], r.left[i], maxFrame)
    decreases i
  {
    DrainOneStream(conn, maxFrame, streams[0]);
    if i > 0 {
      DrainAllStream(Drain(conn, maxFrame, streams[0]).conn, maxFrame, streams[1..], i - 1);
    }
  }

  /** Every stream of a selection gets as many frames as its bytes need. */
  lemma FramesAreFew(conn: int, maxFrame: nat, streams: seq<StreamSend>, i: nat)
    requires maxFrame > 0 && i < |streams|
    ensures var frames := DrainAll(conn, maxFrame, streams).frames[i];
      |frames| == (|Payloads(frames)| + maxFrame - 1) / maxFrame
  {
    DrainAllStream(conn, maxFrame, streams, i);
    var r := DrainAll(conn, maxFrame, streams);
    hide DrainAll, Payloads, FramesAreSound;
    FrameCount(r.frames[i], streams[i], r.left[i], maxFrame);
  }

  /** Whether some frame of a stream carries END_STREAM. */
  predicate CarriesEnd(frames: seq<DataFrame>) {
    exists j :: 0 <= j < |frames| && frames[j].endStream
  }

  /**
    * END_STREAM goes out with the last byte or not at all: a stream of a selection gets it iff it
    * asked for it, had something to send and was drained. One with nothing to send never does.
    */
  lemma EndIsCarriedIff(conn: int, maxFrame: nat, streams: seq<StreamSend>, i: nat)
    requires maxFrame > 0 && i < |streams|
    ensures var r := DrainAll(conn, maxFrame, streams);
      CarriesEnd(r.frames[i]) <==> streams[i].endStream && streams[i].pending != [] && r.left[i].pending == []
  {
    DrainAllStream(conn, maxFrame, streams, i);
    var r := DrainAll(conn, maxFrame, streams);
    hide DrainAll;
    if r.frames[i] == [] {
      assert Payloads(r.frames[i]) == [] && [] + r.left[i].pending == r.left[i].pending;
    } else {
      var n := |r.frames[i]| - 1;
      FirstPayload(r.frames[i]);
      assert 1 <= |r.frames[i][0].payload|;
      assert r.frames[i][n].endStream <==> streams[i].endStream && r.left[i].pending == [];
    }
  }

  lemma FirstPayload(frames: seq<DataFrame>)
    requires frames != []
    ensures |Payloads(frames)| >= |frames[0].payload|
  {
  }

  predicate DrainedOrBlocked(s: StreamSend) {
    s.pending == [] || s.window <= 0
  }

  lemma {:induction false} NothingWithoutWindow(conn: int, maxFrame: nat, streams: seq<StreamSend>)
    requires maxFrame > 0 && conn <= 0
    ensures var r := DrainAll(conn, maxFrame, streams);
      && r.left == streams && r.conn == conn
      && forall i :: 0 <= i < |streams| ==> r.frames[i] == []
  {
    if streams != [] {
      NothingWithoutWindow(conn, maxFrame, streams[1..]);
    }
  }

  /** A later stream sends only when every earlier one is drained or blocked by its own window. */
  lemma {:induction false} EarlierStreamsComeFirst(conn: int, maxFrame: nat, streams: seq<StreamSend>, i: nat, j: nat)
    requires maxFrame > 0 && i < j < |streams|
    requires DrainAll(conn, maxFrame, streams).frames[j] != []
    ensures DrainedOrBlocked(DrainAll(conn, maxFrame, streams).left[i])
    decreases i
  {
    var d := Drain(conn, maxFrame, streams[0]);
    DrainOneStream(conn, maxFrame, streams[0]);
    if i > 0 {
      EarlierStreamsComeFirst(d.conn, maxFrame, streams[1..], i - 1, j - 1);
    } else {
      NothingAfterExhaustion(d.conn, maxFrame, streams[1..], j - 1);
    }
  }

  lemma NothingAfterExhaustion(conn: int, maxFrame: nat, streams: seq<StreamSend>, j: nat)
    requires maxFrame > 0 && j < |streams| && DrainAll(conn, maxFrame, streams).frames[j] != []
    ensures conn > 0
  {
    if conn <= 0 {
      NothingWithoutWindow(conn, maxFrame, streams);
    }
  }

  // ----- sorting -----

  predicate ByWeight(streams: seq<StreamSend>) {
    forall i, j :: 0 <= i < j < |streams| ==> streams[i].weight >= streams[j].weight
  }

  predicate IsSortOf(sorted: seq<StreamSend>, streams: seq<StreamSend>) {
    ByWeight(sorted) && multiset(sorted) == multiset(streams)
  }

  function InsertByWeight(s: StreamSend, sorted: seq<StreamSend>): seq<StreamSend> {
    if sorted == [] || s.weight >= sorted[0].weight then [s] + sorted
    else [sorted[0]] + InsertByWeight(s, sorted[1..])
  }

  lemma {:induction false} InsertKeepsAll(s: StreamSend, sorted: seq<StreamSend>)
    ensures multiset(InsertByWeight(s, sorted)) == multiset(sorted) + multiset{s}
  {
    if !(sorted == [] || s.weight >= sorted[0].weight) {
      InsertKeepsAll(s, sorted[1..]);
      assert sorted == [sorted[0]] + sorted[1..];
    }
  }

  lemma {:induction false} InsertIsSorted(s: StreamSend, sorted: seq<StreamSend>)
    requires ByWeight(sorted)
    ensures ByWeight(InsertByWeight(s, sorted))
  {
    if !(sorted == [] || s.weight >= sorted[0].weight) {
      var h, rest := sorted[0], sorted[1..];
      var r := InsertByWeight(s, rest);
      InsertIsSorted(s, rest);
      InsertKeepsAll(s, rest);
      forall i | 0 <= i < |r| ensures r[i].weight <= h.weight {
        assert r[i] in multiset(r);
        assert r[i] == s || r[i] in rest;
      }
    }
  }

  function SomeSort(streams: seq<StreamSend>): seq<StreamSend> {
    if streams == [] then [] else InsertByWeight(streams[0], SomeSort(streams[1..]))
  }

  lemma {:induction false} SortExists(streams: seq<StreamSend>)
    ensures IsSortOf(SomeSort(streams), streams)
  {
    if streams != [] {
      SortExists(streams[1..]);
      InsertKeepsAll(streams[0], SomeSort(streams[1..]));
      InsertIsSorted(streams[0], SomeSort(streams[1..]));
      assert streams == [streams[0]] + streams[1..];
    }
  }

  lemma SameLength(a: seq<StreamSend>, b: seq<StreamSend>)
    requires multiset(a) == multiset(b)
    ensures |a| == |b|
  {
    assert |multiset(a)| == |a| && |multiset(b)| == |b|;
  }

  /** The library sort is not stable: it leaves any order that is non-increasing in weight. */
  method SortByWeight(streams: array<StreamSend>)
    modifies streams
    ensures IsSortOf(streams[..], old(streams[..]))
  {
    var given := streams[..];
    SortExists(given);
    var sorted :| IsSortOf(sorted, given);
    assert IsSortOf(sorted, given) && multiset(sorted) == multiset(given);
    SameLength(sorted, given);
    forall i | 0 <= i < streams.Length {
      streams[i] := sorted[i];
    }
    assert streams[..] == sorted;
  }

  lemma {:induction false} DemandOfParts(a: seq<StreamSend>, b: seq<StreamSend>)
    ensures TotalDemand(a + b) == TotalDemand(a) + TotalDemand(b)
  {
    if a == [] {
      assert a + b == b;
    } else {
      DemandOfParts(a[1..], b);
      assert (a + b)[1..] == a[1..] + b;
    }
  }

  lemma RemoveOne(x: StreamSend, rest: seq<StreamSend>, front: seq<StreamSend>, back: seq<StreamSend>)
    requires multiset([x] + rest) == multiset(front + ([x] + back))
    ensures multiset(rest) == multiset(front + back)
  {
    assert multiset([x] + rest) == multiset{x} + multiset(rest);
    assert multiset(front + ([x] + back)) == multiset(front) + (multiset{x} + multiset(back));
    assert multiset(front + back) == multiset(front) + multiset(back);
    assert multiset(rest) == multiset([x] + rest) - multiset{x};
  }

  /** Total demand does not depend on the order of the streams. */
  lemma {:induction false} DemandIgnoresOrder(a: seq<StreamSend>, b: seq<StreamSend>)
    requires multiset(a) == multiset(b)
    ensures TotalDemand(a) == TotalDemand(b)
  {
    SameLength(a, b);
    if a != [] {
      assert a[0] in multiset(a);
      var k :| 0 <= k < |b| && b[k] == a[0];
      var front, back := b[..k], b[k + 1..];
      assert b == front + ([a[0]] + back);
      assert a == [a[0]] + a[1..];
      RemoveOne(a[0], a[1..], front, back);
      DemandIgnoresOrder(a[1..], front + back);
      DemandOfParts(front, back);
      DemandOfParts(front, [a[0]] + back);
      assert ([a[0]] + back)[1..] == back;
    }
  }

  /** The optimum over the streams as they were handed in, whatever order the sort produced. */
  lemma SelectionIsOptimal(conn: int, maxFrame: nat, streams: seq<StreamSend>, sorted: seq<StreamSend>)
    requires maxFrame > 0 && conn > 0 && IsSortOf(sorted, streams)
    ensures conn - DrainAll(conn, maxFrame, sorted).conn == Min(conn, TotalDemand(streams))
  {
    DrainAllTotals(conn, maxFrame, sorted);
    DemandIgnoresOrder(streams, sorted);
  }

  /** Strictly heavier streams are served out before a lighter one sends a byte. */
  lemma HeavierStreamsComeFirst(conn: int, maxFrame: nat, sorted: seq<StreamSend>, i: nat, j: nat)
    requires maxFrame > 0 && ByWeight(sorted) && i < |sorted| && j < |sorted|
    requires sorted[i].weight > sorted[j].weight
    requires DrainAll(conn, maxFrame, sorted).frames[j] != []
    ensures DrainedOrBlocked(DrainAll(conn, maxFrame, sorted).left[i])
  {
    assert i < j;
    EarlierStreamsComeFirst(conn, maxFrame, sorted, i, j);
  }

  // ----- the scheduler itself -----

  /** A selection continued after some streams have already been served. */
  ghost function After(frames: seq<seq<DataFrame>>, left: seq<StreamSend>, more: Selection): Selection {
    Selection(frames + more.frames, left + more.left, more.conn)
  }

  lemma DrainAllStep(conn: int, maxFrame: nat, streams: seq<StreamSend>, i: nat,
                     frames: seq<seq<DataFrame>>, left: seq<StreamSend>)
    requires maxFrame > 0 && i < |streams|
    ensures var d := Drain(conn, maxFrame, streams[i]);
      After(frames, left, DrainAll(conn, maxFrame, streams[i..])) ==
      After(frames + [d.frames], left + [d.left], DrainAll(d.conn, maxFrame, streams[i + 1..]))
  {
    var d := Drain(conn, maxFrame, streams[i]);
    assert streams[i..][1..] == streams[i + 1..];
    var more := DrainAll(d.conn, maxFrame, streams[i + 1..]);
    assert frames + ([d.frames] + more.frames) == frames + [d.frames] + more.frames;
    assert left + ([d.left] + more.left) == left + [d.left] + more.left;
  }

  /** The inner loop: frames are cut until data, stream window or connection window runs out. */
  method DrainStream(connWindow: int, maxFrame: nat, given: StreamSend)
    returns (frames: seq<DataFrame>, stream: StreamSend, conn: int, bytes: nat)
    requires maxFrame > 0
    ensures Drained(frames, stream, conn) == Drain(connWindow, maxFrame, given)
    ensures bytes == connWindow - conn
  {
    hide Demand;
    frames, stream, conn, bytes := [], given, connWindow, 0;
    while stream.pending != [] && stream.window > 0 && conn > 0
      invariant bytes == connWindow - conn
      invariant var more := Drain(conn, maxFrame, stream);
        Drain(connWindow, maxFrame, given) == Drained(frames + more.frames, more.left, more.conn)
      decreases |stream.pending|
    {
      var chunk := Min(Min(conn, stream.window), Min(maxFrame, |stream.pending|));
      var payload := stream.pending[..chunk];
      ghost var more := Drain(conn - chunk, maxFrame, Cut(stream, chunk).0);
      stream := stream.(pending := stream.pending[chunk..], window := stream.window - chunk);
      conn, bytes := conn - chunk, bytes + chunk;
      var frame := DataFrame(stream.id, payload, stream.endStream && stream.pending == []);
      Assoc(frames, [frame], more.frames);
      frames := frames + [frame];
    }
    assert frames + [] == frames;
  }

  /**
    * Without budget nothing happens, not even the sort. Otherwise the streams are left in some
    * order by weight and drained in that order.
    */
  method PickSendableFrames(connWindow: int, maxFrame: nat, streams: array<StreamSend>)
    returns (frames: seq<DataFrame>, total: nat, ghost sorted: seq<StreamSend>)
    modifies streams
    ensures connWindow <= 0 || maxFrame == 0 ==> frames == [] && total == 0 && streams[..] == old(streams[..])
    ensures connWindow > 0 && maxFrame > 0 ==>
      && IsSortOf(sorted, old(streams[..]))
      && var r := DrainAll(connWindow, maxFrame, sorted);
         frames == Flatten(r.frames) && streams[..] == r.left && total == connWindow - r.conn
  {
    hide Drain, DrainAll, IsSortOf;
    frames, total, sorted := [], 0, [];
    if connWindow <= 0 || maxFrame == 0 {
      return;
    }
    SortByWeight(streams);
    sorted := streams[..];
    var conn := connWindow;
    ghost var groups: seq<seq<DataFrame>> := [];
    var i := 0;
    assert sorted[0..] == sorted && streams[..0] == [];
    while i < streams.Length && conn > 0
      invariant 0 <= i <= streams.Length && |groups| == i
      invariant streams[i..] == sorted[i..]
      invariant DrainAll(connWindow, maxFrame, sorted) ==
                After(groups, streams[..i], DrainAll(conn, maxFrame, sorted[i..]))
      invariant frames == Flatten(groups) && total == connWindow - conn
    {
      DrainAllStep(conn, maxFrame, sorted, i, groups, streams[..i]);
      assert streams[i] == streams[i..][0] == sorted[i];
      var more, left, conn', bytes := DrainStream(conn, maxFrame, streams[i]);
      assert streams[i + 1..] == streams[i..][1..] == sorted[i + 1..];
      streams[i] := left;
      FlattenAppend(groups, more);
      frames, groups, total, conn := frames + more, groups + [more], total + bytes, conn';
      i := i + 1;
      assert streams[..i] == streams[..i - 1] + [left];
    }
    Unserved(conn, maxFrame, sorted[i..], groups);
    assert streams[..] == streams[..i] + streams[i..];
  }

  lemma Unserved(conn: int, maxFrame: nat, rest: seq<StreamSend>, groups: seq<seq<DataFrame>>)
    requires maxFrame > 0 && (conn <= 0 || rest == [])
    ensures var r := DrainAll(conn, maxFrame, rest);
      r.left == rest && r.conn == conn && Flatten(groups + r.frames) == Flatten(groups)
  {
    if rest != [] {
      NothingWithoutWindow(conn, maxFrame, rest);
    }
    var r := DrainAll(conn, maxFrame, rest);
    FlattenConcat(groups, r.frames);
    AllEmpty(r.frames);
  }

  lemma {:induction false} AllEmpty(groups: seq<seq<DataFrame>>)
    requires forall i :: 0 <= i < |groups| ==> groups[i] == []
    ensures Flatten(groups) == []
  {
    if groups != [] {
      AllEmpty(groups[1..]);
    }
  }
}
