/** Connection-level frame dispatch: CONTINUATION sequencing, GOAWAY, and zero window updates. */
module FrameDispatch {

  datatype Frame =
    | Headers(streamId: nat, endHeaders: bool)
    | Continuation(streamId: nat, endHeaders: bool)
    | PushPromise(streamId: nat, endHeaders: bool)
    | GoAway(streamId: nat)
    | WindowUpdate(streamId: nat, increment: nat)
    | Other(streamId: nat)

  datatype ErrorCode = NoError | ProtocolError

  datatype Action = SendGoaway(streamId: nat, error: ErrorCode)

  datatype Outcome = Outcome(ok: bool, actions: seq<Action>)

  const ACCEPT := Outcome(true, [])
  const REFUSE := Outcome(false, [SendGoaway(0, ProtocolError)])

  datatype Conn = Conn(expecting: bool, continuationStream: nat, goawayReceived: bool)

  /** Whether the frame leaves a header block unfinished that the dispatcher tracks. */
  predicate OpensBlock(f: Frame) {
    (f.Headers? || f.Continuation?) && !f.endHeaders
  }

  predicate IsZeroConnectionUpdate(f: Frame) {
    f.WindowUpdate? && f.streamId == 0 && f.increment == 0
  }

  /** Whether frame g may come directly after f. */
  predicate MayFollow(f: Frame, g: Frame) {
    if OpensBlock(f) then g.Continuation? && g.streamId == f.streamId else !g.Continuation?
  }

  predicate Allowed(c: Conn, f: Frame) {
    && (if c.expecting then f.Continuation? && f.streamId == c.continuationStream else !f.Continuation?)
    && !IsZeroConnectionUpdate(f)
  }

  function Next(c: Conn, f: Frame): Conn
    requires Allowed(c, f)
  {
    if OpensBlock(f) then Conn(true, f.streamId, c.goawayReceived)
    else if f.Headers? || f.Continuation? then Conn(false, 0, c.goawayReceived)
    else c.(goawayReceived := c.goawayReceived || f.GoAway?)
  }

  class DispatcherState {
    var expectingContinuation: bool
    var continuationStreamId: nat
    var goawayReceived: bool

    constructor ()
      ensures Value() == Conn(false, 0, false)
    {
      expectingContinuation, continuationStreamId, goawayReceived := false, 0, false;
    }

    function Value(): Conn
      reads this
    {
      Conn(expectingContinuation, continuationStreamId, goawayReceived)
    }

    /** A refused frame leaves the state alone and asks for GOAWAY. */
    method Dispatch(frame: Frame) returns (result: Outcome)
      modifies this
      ensures if Allowed(old(Value()), frame)
              then result == ACCEPT && Value() == Next(old(Value()), frame)
              else result == REFUSE && Value() == old(Value())
    {
      result := ACCEPT;
      if expectingContinuation {
        if !frame.Continuation? || frame.streamId != continuationStreamId {
          return REFUSE;
        }
      }
      if frame.Headers? {
        if !frame.endHeaders {
          expectingContinuation, continuationStreamId := true, frame.streamId;
        } else {
          expectingContinuation, continuationStreamId := false, 0;
        }
        return;
      }
      if frame.Continuation? {
        if !expectingContinuation || frame.streamId != continuationStreamId {
          return REFUSE;
        }
        if frame.endHeaders {
          expectingContinuation, continuationStreamId := false, 0;
        }
        return;
      }
      if frame.GoAway? {
        goawayReceived := true;
        return;
      }
      if frame.WindowUpdate? && frame.streamId == 0 {
        if frame.increment == 0 {
          return REFUSE;
        }
        return;
      }
    }
  }

  // ----- whole traces -----

  predicate Accepted(c: Conn, frames: seq<Frame>)
    decreases frames
  {
    frames == [] || (Allowed(c, frames[0]) && Accepted(Next(c, frames[0]), frames[1..]))
  }

  function Final(c: Conn, frames: seq<Frame>): Conn
    requires Accepted(c, frames)
    decreases frames
  {
    if frames == [] then c else Final(Next(c, frames[0]), frames[1..])
  }

  ghost predicate Chained(frames: seq<Frame>) {
    && (forall i :: 0 <= i < |frames| - 1 ==> MayFollow(frames[i], frames[i + 1]))
    && (forall i :: 0 <= i < |frames| ==> !IsZeroConnectionUpdate(frames[i]))
  }

  /**
    * The rule without any state: header blocks are contiguous and on one stream, no stray
    * CONTINUATION, and no connection WINDOW_UPDATE of zero.
    */
  ghost predicate WellSequenced(frames: seq<Frame>) {
    (frames != [] ==> !frames[0].Continuation?) && Chained(frames)
  }

  lemma {:induction false} AcceptedIffChained(c: Conn, frames: seq<Frame>)
    requires frames != []
    ensures Accepted(c, frames) <==> Allowed(c, frames[0]) && Chained(frames)
    decreases frames
  {
    if |frames| > 1 && Allowed(c, frames[0]) {
      var c', rest := Next(c, frames[0]), frames[1..];
      AcceptedIffChained(c', rest);
      assert Allowed(c', rest[0]) ==> MayFollow(frames[0], frames[1]);
      if Chained(rest) && MayFollow(frames[0], frames[1]) {
        forall i | 0 <= i < |frames| - 1 ensures MayFollow(frames[i], frames[i + 1]) {
          assert i > 0 ==> rest[i - 1] == frames[i] && rest[i] == frames[i + 1];
        }
        forall i | 0 <= i < |frames| ensures !IsZeroConnectionUpdate(frames[i]) {
          assert i > 0 ==> rest[i - 1] == frames[i];
        }
      }
      if Chained(frames) {
        assert MayFollow(frames[0], frames[0 + 1]);
        forall i | 0 <= i < |rest| - 1 ensures MayFollow(rest[i], rest[i + 1]) {
          assert MayFollow(frames[i + 1], frames[i + 1 + 1]);
        }
      }
    }
  }

  /** A fresh connection accepts a whole trace iff the trace is well sequenced. */
  lemma TraceAcceptedIff(frames: seq<Frame>, goaway: bool)
    ensures Accepted(Conn(false, 0, goaway), frames) <==> WellSequenced(frames)
  {
    if frames != [] {
      AcceptedIffChained(Conn(false, 0, goaway), frames);
    }
  }

  /** The state after an accepted trace: the last frame decides what is expected; GOAWAY sticks. */
  lemma {:induction false} StateAfterTrace(c: Conn, frames: seq<Frame>)
    requires frames != [] && Accepted(c, frames)
    ensures var last := frames[|frames| - 1]; var d := Final(c, frames);
      && (OpensBlock(last) ==> d.expecting && d.continuationStream == last.streamId)
      && (!OpensBlock(last) ==> !d.expecting)
      && (d.goawayReceived <==> c.goawayReceived || exists i :: 0 <= i < |frames| && frames[i].GoAway?)
    decreases frames
  {
    var c', rest := Next(c, frames[0]), frames[1..];
    if rest != [] {
      StateAfterTrace(c', rest);
      assert rest[|rest| - 1] == frames[|frames| - 1];
      assert forall i :: 0 <= i < |rest| ==> rest[i] == frames[i + 1];
      if exists i :: 0 <= i < |frames| && frames[i].GoAway? {
        var i :| 0 <= i < |frames| && frames[i].GoAway?;
        assert i > 0 ==> rest[i - 1].GoAway?;
      }
    }
  }

  // ----- against sections 6.10 and 6.9 of RFC 9113 -----

  /** By the RFC a PUSH_PROMISE without END_HEADERS opens a header block as well. */
  predicate RfcOpensBlock(f: Frame) {
    OpensBlock(f) || OpenPromise(f)
  }

  predicate OpenPromise(f: Frame) {
    f.PushPromise? && !f.endHeaders
  }

  predicate RfcMayFollow(f: Frame, g: Frame) {
    if RfcOpensBlock(f) then g.Continuation? && g.streamId == f.streamId else !g.Continuation?
  }

  /** No connection error by these sections; a zero WINDOW_UPDATE on a stream is an error of that stream alone. */
  ghost predicate NoConnectionError(frames: seq<Frame>) {
    && (frames != [] ==> !frames[0].Continuation?)
    && (forall i :: 0 <= i < |frames| - 1 ==> RfcMayFollow(frames[i], frames[i + 1]))
    && (forall i :: 0 <= i < |frames| ==> !IsZeroConnectionUpdate(frames[i]))
  }

  /** A PUSH_PROMISE without END_HEADERS has a frame after it. */
  ghost predicate OpenPromiseInside(frames: seq<Frame>) {
    exists i :: 0 <= i < |frames| - 1 && OpenPromise(frames[i])
  }

  /**
    * Dispatch and RFC part exactly over the block of a PUSH_PROMISE: a trace without connection error
    * is accepted iff it holds none, and an accepted trace is without connection error iff it holds none.
    */
  lemma DispatchIsRfcIff(frames: seq<Frame>, goaway: bool)
    ensures NoConnectionError(frames) ==> (Accepted(Conn(false, 0, goaway), frames) <==> !OpenPromiseInside(frames))
    ensures Accepted(Conn(false, 0, goaway), frames) ==> (NoConnectionError(frames) <==> !OpenPromiseInside(frames))
  {
    TraceAcceptedIff(frames, goaway);
    if OpenPromiseInside(frames) {
      var i :| 0 <= i < |frames| - 1 && OpenPromise(frames[i]);
      assert !(MayFollow(frames[i], frames[i + 1]) && RfcMayFollow(frames[i], frames[i + 1]));
    } else {
      forall i | 0 <= i < |frames| - 1
        ensures MayFollow(frames[i], frames[i + 1]) == RfcMayFollow(frames[i], frames[i + 1])
      {
        assert !OpenPromise(frames[i]);
      }
    }
  }

  /** The shortest case: the CONTINUATION of a promise is legal and refused. */
  lemma PushPromiseContinuationIsRefused(streamId: nat)
    ensures var frames := [PushPromise(streamId, false), Continuation(streamId, true)];
      NoConnectionError(frames) && !Accepted(Conn(false, 0, false), frames)
  {
    var frames := [PushPromise(streamId, false), Continuation(streamId, true)];
    assert OpenPromise(frames[0]);
    DispatchIsRfcIff(frames, false);
  }
}
