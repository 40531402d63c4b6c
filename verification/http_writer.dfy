/** The resumable HTTP writer: its layouts, its remaining-byte accounting, and its write machines. */
module HttpWriters {
  import opened Prelude
  import opened IoVec

  predicate EndsWith(bytes: Bytes, end: Bytes) {
    |end| <= |bytes| && bytes[|bytes| - |end|..] == end
  }

  /** Whether header and body go out as one segment. */
  predicate Coalesced(threshold: nat, header: Bytes, body: Bytes) {
    0 < threshold && |header + body| <= threshold
  }

  class HttpWriter {
    const coalesceThreshold: nat
    const cursor: IoVecCursor
    var buffer: Bytes
    var bodyBuffer: Bytes
    var external: Option<Bytes>  // a buffer owned by the caller, when set
    var remaining: nat

    function CurrentBuffer(): Bytes
      reads this
    {
      if external.Some? then external.value else buffer
    }

    /** The accounting fits the way the bytes are going to be offered. */
    ghost predicate Ready(useWritev: bool)
      reads this, cursor
    {
      cursor.Valid() && if useWritev then remaining == |cursor.Pending()| else remaining <= |CurrentBuffer()|
    }

    /** What is still to be sent. */
    ghost function Unsent(useWritev: bool): Bytes
      requires Ready(useWritev)
      reads this, cursor
    {
      if useWritev then cursor.Pending() else CurrentBuffer()[|CurrentBuffer()| - remaining..]
    }

    lemma ReadyHasCursor(useWritev: bool)
      requires Ready(useWritev)
      ensures cursor.Valid()
    {
    }

    lemma RemainingIsUnsent(useWritev: bool)
      requires Ready(useWritev)
      ensures remaining == |Unsent(useWritev)|
    {
    }

    /** What a plain send would offer is the end of the current buffer. */
    lemma PlainOfferIff(left: Bytes)
      requires cursor.Valid() && remaining == |left|
      ensures Ready(false) && Unsent(false) == left <==> EndsWith(CurrentBuffer(), left)
    {
    }

    constructor (coalesceThreshold: nat)
      ensures fresh(cursor) && Ready(true) && Ready(false) && remaining == 0 && external == None
      ensures this.coalesceThreshold == coalesceThreshold
    {
      this.coalesceThreshold := coalesceThreshold;
      cursor := new IoVecCursor();
      buffer, bodyBuffer, external, remaining := [], [], None, 0;
    }

    // ----- starting a message; nothing changes while an earlier one is unfinished -----

    /** Plain sockets: one segment when small enough, otherwise header and body apart. */
    method PrepareTcpSendLayout()
      modifies this, cursor
      ensures Ready(true) && Unsent(true) == old(buffer) + old(bodyBuffer) && external == old(external)
      ensures cursor.Window() == NonEmpties(
        if 0 < coalesceThreshold && |old(buffer)| + |old(bodyBuffer)| <= coalesceThreshold
        then [old(buffer) + old(bodyBuffer)] else [old(buffer), old(bodyBuffer)])
      ensures buffer == if Coalesced(coalesceThreshold, old(buffer), old(bodyBuffer))
                        then old(buffer) + old(bodyBuffer) else old(buffer)
    {
      var totalSize := |buffer| + |bodyBuffer|;
      ghost var all := buffer + bodyBuffer;
      if coalesceThreshold > 0 && totalSize <= coalesceThreshold {
        if bodyBuffer != [] {
          buffer := buffer + bodyBuffer;
          bodyBuffer := [];
        }
        assert buffer == all && Flatten([buffer]) == buffer + Flatten([]);
        cursor.Reset([buffer]);
        remaining := cursor.remainingBytes;
        return;
      }
      var iovecs := [buffer];
      assert Flatten([buffer]) == buffer + Flatten([]);
      if bodyBuffer != [] {
        FlattenAppend(iovecs, bodyBuffer);
        iovecs := iovecs + [bodyBuffer];
      }
      cursor.Reset(iovecs);
      remaining := cursor.remainingBytes;
    }

    method StartTcp(header: Bytes, body: Bytes)
      modifies this, cursor
      ensures old(remaining) == 0 ==> Ready(true) && Unsent(true) == header + body
      ensures external == old(external)
      ensures old(remaining) == 0 ==>
        buffer == if Coalesced(coalesceThreshold, header, body) then header + body else header
      ensures old(remaining) > 0 ==> unchanged(this) && unchanged(cursor)
    {
      if remaining == 0 {
        bodyBuffer, buffer := body, header;
        PrepareTcpSendLayout();
      }
    }

    /** TLS sockets: always one buffer. */
    method StartSsl(header: Bytes, body: Bytes)
      requires cursor.Valid()
      modifies this
      ensures old(remaining) == 0 ==> Ready(false) && Unsent(false) == header + body && external == None
      ensures old(remaining) > 0 ==> unchanged(this)
    {
      if remaining == 0 {
        ClearExternalBuffer();
        buffer := header;
        if body != [] {
          buffer := buffer + body;
        }
        remaining := |buffer|;
      }
    }

    method Send(data: Bytes)
      requires cursor.Valid()
      modifies this
      ensures old(remaining) == 0 ==> Ready(false) && Unsent(false) == data && external == None
      ensures old(remaining) > 0 ==> unchanged(this)
    {
      if remaining == 0 {
        ClearExternalBuffer();
        buffer := data;
        remaining := |buffer|;
      }
    }

    /** The caller's buffer is sent in place. */
    method SendView(data: Bytes)
      requires cursor.Valid()
      modifies this, cursor
      ensures old(remaining) == 0 ==> Ready(false) && Unsent(false) == data && external == Some(data)
      ensures old(remaining) > 0 ==> unchanged(this) && unchanged(cursor)
    {
      if remaining == 0 {
        buffer, bodyBuffer := [], [];
        cursor.Reset([]);
        external := Some(data);
        remaining := |data|;
      }
    }

    /**
      * The external buffer is not cleared here. If it is still set, which it is after an empty view
      * was sent, then what gets offered is its end: the header only if it happens to end with it.
      */
    method SendHeader(header: Bytes)
      requires cursor.Valid()
      modifies this
      ensures old(remaining) == 0 ==>
        (Ready(false) && Unsent(false) == header <==> external == None || EndsWith(external.value, header))
      ensures external == old(external)
      ensures old(remaining) == 0 ==> buffer == header && remaining == |header|
      ensures old(remaining) > 0 ==> unchanged(this)
    {
      if remaining == 0 {
        buffer := header;
        remaining := |buffer|;
      }
    }

    method ClearExternalBuffer()
      modifies this`external
      ensures external == None
    {
      external := None;
    }

    // ----- accounting -----

    /** Finishing clears every buffer, the caller's included. */
    method Finish()
      modifies this, cursor
      ensures Ready(true) && Ready(false) && remaining == 0 && external == None
      ensures Unsent(true) == [] && Unsent(false) == []
    {
      remaining := 0;
      buffer, bodyBuffer := [], [];
      ClearExternalBuffer();
      cursor.Reset([]);
    }

    method UpdateRemaining(bytesSent: nat)
      requires Ready(false)
      modifies this, cursor
      ensures old(remaining) > bytesSent ==> unchanged(cursor)
      ensures Ready(false) && remaining == Max(0, old(remaining) - bytesSent)
      ensures Unsent(false) == old(Unsent(false))[Min(bytesSent, old(remaining))..]
      ensures remaining == 0 ==> external == None
      ensures remaining > 0 ==> buffer == old(buffer) && external == old(external)
    {
      if bytesSent >= remaining {
        Finish();
      } else {
        ghost var was := Unsent(false);
        remaining := remaining - bytesSent;
        assert Unsent(false) == was[bytesSent..];
      }
    }

    method UpdateRemainingWritev(bytesSent: nat)
      requires Ready(true)
      modifies this, cursor
      ensures Ready(true) && remaining == Max(0, old(remaining) - bytesSent)
      ensures Unsent(true) == old(Unsent(true))[Min(bytesSent, old(remaining))..]
      ensures remaining == 0 ==> external == None
      ensures remaining > 0 ==> buffer == old(buffer) && external == old(external)
    {
      var advanced := cursor.Advance(bytesSent);
      if advanced >= remaining {
        Finish();
      } else {
        remaining := remaining - advanced;
      }
    }
  }

  // ----- the machines driving a writer -----

  datatype WriteError = SendError

  datatype Action =
    | Complete(result: Result<bool, WriteError>)
    | WaitWrite(bytes: Bytes)
    | WaitWritev(segments: seq<Bytes>)

  /** The bytes an action offers to the socket. */
  function Offered(a: Action): Bytes {
    match a
    case Complete(_) => []
    case WaitWrite(bytes) => bytes
    case WaitWritev(segments) => Flatten(segments)
  }

  lemma NonEmptyPends(segments: seq<Bytes>)
    ensures NoneEmpty(segments) ==> (Flatten(segments) == [] <==> segments == [])
  {
  }

  class TcpWriteMachine {
    const writer: HttpWriter
    const useWritev: bool
    var result: Option<Result<bool, WriteError>>

    /** Success is reported exactly when nothing is left. */
    ghost predicate Valid()
      reads this, writer, writer.cursor
    {
      writer.Ready(useWritev) && (result == Some(Ok(true)) ==> writer.remaining == 0)
    }

    /** Enough for a gathered machine to start: its writer may have been left by a plain one. */
    ghost predicate Usable()
      reads this, writer, writer.cursor
    {
      && writer.cursor.Valid() && (useWritev || writer.Ready(false))
      && (result == Some(Ok(true)) ==> writer.remaining == 0)
    }

    lemma ValidIsUsable()
      requires Valid()
      ensures Usable()
    {
    }

    ghost function Unsent(): Bytes
      requires Valid()
      reads this, writer, writer.cursor
    {
      writer.Unsent(useWritev)
    }

    constructor (writer: HttpWriter, useWritev: bool)
      requires writer.cursor.Valid() && (useWritev || writer.Ready(false))
      ensures Usable() && this.writer == writer && this.useWritev == useWritev && result == None
      ensures writer.Ready(useWritev) ==> Valid()
    {
      this.writer, this.useWritev, result := writer, useWritev, None;
    }

    /** Either the outcome, or everything unsent is offered; without segments a gathered write fails. */
    method Advance() returns (a: Action)
      requires Usable()
      modifies this
      ensures Usable() && (old(Valid()) ==> Valid() && Unsent() == old(Unsent()))
      ensures old(result.Some?) ==> result == old(result)
      ensures a.Complete? ==> result == Some(a.result)
      ensures !a.Complete? ==> result == None
      ensures old(Valid()) && !a.Complete? ==> Offered(a) == Unsent() != []
      ensures old(Valid()) && old(result) == None && a.Complete? ==> a == Complete(Ok(true)) && Unsent() == []
      ensures old(result) == None && useWritev && writer.remaining > 0 && writer.cursor.Pending() == [] ==>
        a == Complete(Err(SendError))
    {
      if result.Some? {
        return Complete(result.value);
      }
      if writer.remaining == 0 {
        result := Some(Ok(true));
        return Complete(Ok(true));
      }
      if useWritev {
        var segments := writer.cursor.iovecs[writer.cursor.index..];
        NonEmptyPends(segments);
        if segments == [] {
          result := Some(Err(SendError));
          return Complete(Err(SendError));
        }
        return WaitWritev(segments);
      } else {
        var current := writer.CurrentBuffer();
        var sentBytes := |current| - writer.remaining;
        return WaitWrite(current[sentBytes..sentBytes + writer.remaining]);
      }
    }

    /** A completed write of n of the offered bytes; an error ends the machine. */
    method OnWrite(r: Result<nat, WriteError>)
      requires Valid() && result == None
      requires r.Ok? ==> r.value <= |Unsent()|
      modifies this, writer, writer.cursor
      ensures Valid()
      ensures r.Ok? ==> Unsent() == old(Unsent())[r.value..]
      ensures r.Ok? ==> result == if Unsent() == [] then Some(Ok(true)) else None
      ensures r.Err? ==> result == Some(Err(r.error)) && Unsent() == old(Unsent())
      ensures Unsent() != [] ==> writer.buffer == old(writer.buffer) && writer.external == old(writer.external)
      ensures Unsent() != [] && !useWritev ==> unchanged(writer.cursor)
    {
      match r
      case Err(e) =>
        result := Some(Err(e));
      case Ok(written) =>
        hide HttpWriter.Ready, HttpWriter.Unsent;
        ghost var was := Unsent();
        assert was[0..] == was;
        writer.RemainingIsUnsent(useWritev);
        if written > 0 {
          if useWritev {
            writer.UpdateRemainingWritev(written);
          } else {
            writer.UpdateRemaining(written);
          }
        }
        writer.RemainingIsUnsent(useWritev);
        if writer.remaining == 0 {
          result := Some(Ok(true));
        }
    }
  }

  lemma OfferSplits(wire: Bytes, offered: Bytes, taken: nat)
    requires taken <= |offered|
    ensures (wire + offered[..taken]) + offered[taken..] == wire + offered
  {
  }

  /**
    * Any run against a socket that takes as much of each offer as it likes, or fails: the bytes on
    * the wire followed by the unsent ones are always the message, and success means all of it.
    */
  method TransmitTcp(m: TcpWriteMachine, completions: seq<Result<nat, WriteError>>)
    returns (wire: Bytes, outcome: Option<Result<bool, WriteError>>)
    requires m.Valid() && m.result == None
    modifies m, m.writer, m.writer.cursor
    ensures m.Valid() && wire + m.Unsent() == old(m.Unsent())
    ensures outcome == Some(Ok(true)) ==> wire == old(m.Unsent())
    ensures outcome == m.result
  {
    hide TcpWriteMachine.Valid, TcpWriteMachine.Usable, TcpWriteMachine.Unsent, Offered;
    wire := [];
    for i := 0 to |completions|
      invariant m.Valid() && wire + m.Unsent() == old(m.Unsent())
      invariant m.result == Some(Ok(true)) ==> m.Unsent() == []
    {
      m.ValidIsUsable();
      var a := m.Advance();
      if a.Complete? {
        break;
      }
      var offered := Offered(a);
      match completions[i]
      case Err(e) =>
        m.OnWrite(Err(e));
      case Ok(n) =>
        var taken := Min(n, |offered|);
        OfferSplits(wire, offered, taken);
        m.OnWrite(Ok(taken));
        wire := wire + offered[..taken];
    }
    outcome := m.result;
  }

  /** TLS sends: an error or a send of nothing drops the rest of the message. */
  class SslSendMachine {
    const writer: HttpWriter
    var result: Option<Result<bool, WriteError>>

    ghost predicate Valid()
      reads this, writer, writer.cursor
    {
      writer.Ready(false) && (result == Some(Ok(true)) ==> writer.remaining == 0)
    }

    constructor (writer: HttpWriter)
      requires writer.Ready(false)
      ensures Valid() && this.writer == writer && result == None
    {
      this.writer, result := writer, None;
    }

    method Advance() returns (a: Action)
      requires Valid()
      modifies this
      ensures Valid() && writer.Unsent(false) == old(writer.Unsent(false))
      ensures old(result.Some?) ==> result == old(result)
      ensures a.Complete? ==> result == Some(a.result)
      ensures !a.Complete? ==> result == None && Offered(a) == writer.Unsent(false) != []
      ensures old(result) == None && a.Complete? ==> a == Complete(Ok(true)) && writer.Unsent(false) == []
    {
      if result.Some? {
        return Complete(result.value);
      }
      if writer.remaining == 0 {
        result := Some(Ok(true));
        return Complete(Ok(true));
      }
      var current := writer.CurrentBuffer();
      var sentBytes := |current| - writer.remaining;
      return WaitWrite(current[sentBytes..sentBytes + writer.remaining]);
    }

    method OnSend(r: Result<nat, WriteError>)
      requires Valid() && result == None
      requires r.Ok? ==> r.value <= |writer.Unsent(false)|
      modifies this, writer, writer.cursor
      ensures Valid()
      ensures r.Ok? && r.value > 0 ==>
        && writer.Unsent(false) == old(writer.Unsent(false))[r.value..]
        && result == if writer.Unsent(false) == [] then Some(Ok(true)) else None
      ensures r.Err? || r.value == 0 ==> writer.Unsent(false) == [] && result == Some(Err(SendError))
    {
      if r.Err? || r.value == 0 {
        writer.UpdateRemaining(writer.remaining);
        result := Some(Err(SendError));
        return;
      }
      writer.UpdateRemaining(r.value);
      if writer.remaining == 0 {
        result := Some(Ok(true));
      }
    }
  }

  method TransmitSsl(m: SslSendMachine, completions: seq<Result<nat, WriteError>>)
    returns (wire: Bytes, outcome: Option<Result<bool, WriteError>>)
    requires m.Valid() && m.result == None
    modifies m, m.writer, m.writer.cursor
    ensures m.Valid() && wire <= old(m.writer.Unsent(false))
    ensures outcome == Some(Ok(true)) ==> wire == old(m.writer.Unsent(false))
    ensures outcome == None ==> wire + m.writer.Unsent(false) == old(m.writer.Unsent(false))
    ensures outcome == m.result
  {
    hide HttpWriter.Unsent, HttpWriter.Ready, Offered;
    wire := [];
    for i := 0 to |completions|
      invariant m.Valid() && wire <= old(m.writer.Unsent(false))
      invariant m.result == None || m.result == Some(Ok(true)) ==>
        wire + m.writer.Unsent(false) == old(m.writer.Unsent(false))
      invariant m.result == Some(Ok(true)) ==> m.writer.Unsent(false) == []
    {
      var a := m.Advance();
      if a.Complete? {
        break;
      }
      var offered := Offered(a);
      match completions[i]
      case Err(e) =>
        m.OnSend(Err(e));
      case Ok(n) =>
        var taken := Min(n, |offered|);
        OfferSplits(wire, offered, taken);
        m.OnSend(Ok(taken));
        wire := wire + offered[..taken];
    }
    outcome := m.result;
  }

  /** The three layouts put the same bytes on the wire. */
  method SendMessage(w: HttpWriter, header: Bytes, body: Bytes, overTls: bool,
                     completions: seq<Result<nat, WriteError>>)
    returns (wire: Bytes, outcome: Option<Result<bool, WriteError>>)
    requires w.cursor.Valid() && w.remaining == 0
    modifies w, w.cursor
    ensures wire <= header + body
    ensures outcome == Some(Ok(true)) ==> wire == header + body
  {
    if overTls {
      w.StartSsl(header, body);
      var m := new SslSendMachine(w);
      wire, outcome := TransmitSsl(m, completions);
    } else {
      w.StartTcp(header, body);
      var m := new TcpWriteMachine(w, true);
      wire, outcome := TransmitTcp(m, completions);
    }
  }

  // ----- what a failure or an empty view leaves behind -----

  /**
    * An empty view completes at once and stays set. The next header is then not what gets offered:
    * its offer would begin before the start of the view.
    */
  method HeaderAfterEmptyView(w: HttpWriter, header: Bytes) returns (outcome: Action)
    requires w.cursor.Valid() && w.remaining == 0 && header != []
    modifies w, w.cursor
    ensures outcome == Complete(Ok(true))
    ensures w.external == Some([]) && w.buffer == header && w.remaining == |header|
    ensures w.remaining > |w.CurrentBuffer()| && !w.Ready(false)
  {
    hide IoVecCursor.Valid, IoVecCursor.Pending, Flatten, Offered;
    w.SendView([]);
    outcome := CompleteAtOnce(w);
    w.SendHeader(header);
  }

  /** With nothing left a plain send reports success. */
  method CompleteAtOnce(w: HttpWriter) returns (outcome: Action)
    requires w.Ready(false) && w.Unsent(false) == []
    ensures outcome == Complete(Ok(true))
  {
    var m := new TcpWriteMachine(w, false);
    outcome := m.Advance();
  }

  /** k bytes are written, then a write fails. */
  method FailAfter(w: HttpWriter, useWritev: bool, k: nat)
    requires w.Ready(useWritev) && k < |w.Unsent(useWritev)|
    modifies w, w.cursor
    ensures w.Ready(useWritev) && w.Unsent(useWritev) == old(w.Unsent(useWritev))[k..]
    ensures w.buffer == old(w.buffer) && w.external == old(w.external)
    ensures !useWritev ==> unchanged(w.cursor)
  {
    var m := new TcpWriteMachine(w, useWritev);
    var _ := m.Advance();
    m.OnWrite(Ok(k));
    m.OnWrite(Err(SendError));
  }

  /**
    * After a gathered write failed with k bytes out, the next plain send, whatever it was given,
    * resumes over the one buffer. That continues the message iff it was coalesced, or had no body, or
    * the header happens to end with what was left.
    */
  method ResumePlain(w: HttpWriter, header: Bytes, body: Bytes, k: nat, next: Bytes)
    requires w.cursor.Valid() && w.remaining == 0 && w.external == None
    requires k < |header + body|
    modifies w, w.cursor
    ensures var left := (header + body)[k..];
      var continues := w.Ready(false) && w.Unsent(false) == left;
      continues <==> Coalesced(w.coalesceThreshold, header, body) || body == [] || EndsWith(header, left)
  {
    hide IoVecCursor.Valid, IoVecCursor.Pending, Flatten, HttpWriter.Ready, HttpWriter.Unsent;
    w.StartTcp(header, body);
    FailAfter(w, true, k);
    w.RemainingIsUnsent(true);
    w.ReadyHasCursor(true);
    w.Send(next);
    w.PlainOfferIff((header + body)[k..]);
    assert body == [] ==> header + body == header;
    PlainOffer(header + body, k);
  }

  lemma PlainOffer(all: Bytes, k: nat)
    requires k <= |all|
    ensures EndsWith(all, all[k..])
  {
  }

  /** The other way round nothing continues: a plain message leaves no segments, and a gathered resume fails. */
  method ResumeGathered(w: HttpWriter, data: Bytes, k: nat, header: Bytes, body: Bytes) returns (outcome: Action)
    requires w.cursor.Valid() && w.cursor.Pending() == [] && w.remaining == 0 && k < |data|
    modifies w, w.cursor
    ensures outcome == Complete(Err(SendError))
    ensures w.Ready(false) && w.Unsent(false) == data[k..]
  {
    hide IoVecCursor.Valid, IoVecCursor.Pending, Flatten, HttpWriter.Ready, HttpWriter.Unsent, TcpWriteMachine.Valid;
    w.Send(data);
    FailAfter(w, false, k);
    w.RemainingIsUnsent(false);
    w.ReadyHasCursor(false);
    w.StartTcp(header, body);
    var g := new TcpWriteMachine(w, true);
    outcome := g.Advance();
  }
}
