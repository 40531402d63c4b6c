/**
  * The h2c upgrade machine: send the upgrade request, wait for 101, send preface and SETTINGS, wait
  * for SETTINGS, send the acknowledgement. The HTTP response parser is a parameter.
  */
module H2cUpgrade {
  import opened Prelude
  import opened FrameHeader
  import opened IoVec
  import opened RingBuffers

  datatype Phase = SendUpgrade | RecvUpgradeResponse | SendPrefaceSettings | RecvSettings | SendAck | Done

  datatype Failure =
    | NotConnected | SendFailed | ReceiveFailed | ConnectionClosed
    | PeerClosedBefore101 | PeerClosedBeforeSettings | FullBefore101 | FullBeforeSettings
    | ParseError | Expected101(code: nat) | MissingUpgrade | InvalidUpgrade(value: string)
    | ExpectedSettings(kind: byte) | Incomplete

  datatype Outcome = Upgraded | Failed(why: Failure)

  datatype ParseStatus = NeedMore | Parsed | Malformed

  /** What one call of the response parser does: its new state, its verdict, and how much it consumed. */
  datatype Feeding<S> = Feeding(state: S, status: ParseStatus, consumed: nat)

  /** What the parsed response says. */
  datatype Response = Response(complete: bool, code: nat, upgrade: Option<string>)

  /** A parser is fed what the buffer holds and consumes no more than that. */
  datatype Parser<!S> = Parser(start: S, run: (S, Bytes) -> Feeding<S>, read: S -> Response) {
    function Feed(state: S, bytes: Bytes): (f: Feeding<S>)
      ensures f.consumed <= |bytes|
    {
      var f := run(state, bytes);
      f.(consumed := Min(f.consumed, |bytes|))
    }
  }

  /** What is fixed before the machine starts: the connection, the bytes to send, the room to receive. */
  datatype Plan<!S> = Plan(connected: bool, buffered: Bytes, upgrade: Bytes, preface: Bytes, ack: Bytes,
                           capacity: nat, parser: Parser<S>)
  {
    function Payload(phase: Phase): Bytes {
      match phase
      case SendUpgrade => upgrade
      case SendPrefaceSettings => preface
      case _ => ack
    }

    /** What has been sent in full once a phase is reached. */
    function Before(phase: Phase): Bytes {
      match phase
      case SendUpgrade => []
      case RecvUpgradeResponse => upgrade
      case SendPrefaceSettings => upgrade
      case RecvSettings => upgrade + preface
      case SendAck => upgrade + preface
      case Done => All()
    }

    function All(): Bytes {
      upgrade + preface + ack
    }
  }

  predicate Sending(phase: Phase) {
    phase.SendUpgrade? || phase.SendPrefaceSettings? || phase.SendAck?
  }

  function Rank(phase: Phase): nat {
    match phase
    case SendUpgrade => 5
    case RecvUpgradeResponse => 4
    case SendPrefaceSettings => 3
    case RecvSettings => 2
    case SendAck => 1
    case Done => 0
  }

  /**
    * The machine as a value. `feeds` and `settings` record what was taken from the buffer: what the
    * response parser was given, call by call, and the SETTINGS frame.
    */
  datatype Machine<S> = Machine(phase: Phase, sendOffset: nat, response: S, buffer: Bytes, result: Option<Outcome>,
                                feeds: seq<Bytes>, settings: Bytes)

  function Fail<S>(m: Machine<S>, why: Failure): Machine<S> {
    if m.result.Some? then m else m.(result := Some(Failed(why)))
  }

  function Judge(r: Response): Option<Failure> {
    if r.code != 101 then Some(Expected101(r.code))
    else if r.upgrade.None? then Some(MissingUpgrade)
    else if r.upgrade.value != "h2c" then Some(InvalidUpgrade(r.upgrade.value))
    else None
  }

  /** Whether the upgrade answer is settled (for good or bad), and the machine then. */
  function ParseResponse<S>(p: Plan<S>, m: Machine<S>): (bool, Machine<S>) {
    if m.buffer == [] then (false, m)
    else
      var f := p.parser.Feed(m.response, m.buffer);
      var fed := m.(response := f.state, buffer := m.buffer[f.consumed..], feeds := m.feeds + [m.buffer]);
      var r := p.parser.read(f.state);
      if f.status.NeedMore? then (false, fed)
      else if f.status.Malformed? then (true, Fail(fed, ParseError))
      else if !r.complete then (false, fed)
      else match Judge(r)
        case Some(why) => (true, Fail(fed, why))
        case None => (true, fed)
  }

  predicate HoldsFrame(buffer: Bytes) {
    |buffer| >= HEADER_LENGTH && |buffer| >= HEADER_LENGTH + Deserialize(buffer).length
  }

  function ConsumeSettings<S>(m: Machine<S>): (bool, Machine<S>) {
    if !HoldsFrame(m.buffer) then (false, m)
    else
      var h := Deserialize(m.buffer);
      var size := HEADER_LENGTH + h.length;
      if h.kind != SETTINGS then (true, Fail(m, ExpectedSettings(h.kind)))
      else (true, m.(buffer := m.buffer[size..], settings := m.buffer[..size]))
  }

  /** Run until the machine has to wait for the socket or has its result. */
  function Settle<S>(p: Plan<S>, m: Machine<S>): Machine<S>
    decreases Rank(m.phase)
  {
    if m.result.Some? then m
    else if Sending(m.phase) then
      if m.sendOffset < |p.Payload(m.phase)| then m
      else match m.phase
        case SendUpgrade => Settle(p, m.(sendOffset := 0, phase := RecvUpgradeResponse))
        case SendPrefaceSettings => Settle(p, m.(sendOffset := 0, phase := RecvSettings))
        case _ => m.(sendOffset := 0, phase := Done, result := Some(Upgraded))
    else if m.phase.RecvUpgradeResponse? then
      var (settled, m1) := ParseResponse(p, m);
      if !settled then AwaitRead(p, m1, FullBefore101)
      else if m1.result.Some? then m1
      else Settle(p, m1.(phase := SendPrefaceSettings))
    else if m.phase.RecvSettings? then
      var (settled, m1) := ConsumeSettings(m);
      if !settled then AwaitRead(p, m1, FullBeforeSettings)
      else if m1.result.Some? then m1
      else Settle(p, m1.(phase := SendAck))
    else m
  }

  function AwaitRead<S>(p: Plan<S>, m: Machine<S>, why: Failure): Machine<S> {
    if |m.buffer| >= p.capacity then Fail(m, why) else m
  }

  datatype Action = Complete(outcome: Outcome) | WaitWrite(data: Bytes) | WaitRead(room: nat)

  function ActionOf<S>(p: Plan<S>, m: Machine<S>): Action {
    if m.result.Some? then Complete(m.result.value)
    else if Sending(m.phase) then WaitWrite(p.Payload(m.phase)[Min(m.sendOffset, |p.Payload(m.phase)|)..])
    else if m.phase.Done? then Complete(Failed(Incomplete))
    else WaitRead(Max(p.capacity - |m.buffer|, 0))
  }

  /** What the socket may report. */
  datatype Completion = Wrote(n: nat) | WriteFailed | Received(bytes: Bytes) | ReadFailed(disconnected: bool)

  /** A completion answers the pending operation; a read fits the room offered. */
  predicate Answers(a: Action, c: Completion) {
    match c
    case Wrote(_) => a.WaitWrite?
    case WriteFailed => a.WaitWrite?
    case Received(bytes) => a.WaitRead? && |bytes| <= a.room
    case ReadFailed(_) => a.WaitRead?
  }

  function AfterWrite<S>(p: Plan<S>, m: Machine<S>, n: nat): Machine<S> {
    if n == 0 then Fail(m, SendFailed)
    else
      var sent := m.(sendOffset := m.sendOffset + n);
      if sent.sendOffset > |p.Payload(m.phase)| then Fail(sent, SendFailed) else sent
  }

  function AfterRead<S>(m: Machine<S>, bytes: Bytes): Machine<S> {
    if bytes == [] then Fail(m, if m.phase.RecvUpgradeResponse? then PeerClosedBefore101 else PeerClosedBeforeSettings)
    else m.(buffer := m.buffer + bytes)
  }

  function On<S>(p: Plan<S>, m: Machine<S>, c: Completion): Machine<S> {
    match c
    case Wrote(n) => AfterWrite(p, m, n)
    case WriteFailed => Fail(m, SendFailed)
    case Received(bytes) => AfterRead(m, bytes)
    case ReadFailed(disconnected) => Fail(m, if disconnected then ConnectionClosed else ReceiveFailed)
  }

  // ----- whole runs -----

  /** The machine between two waits, the bytes the socket took and the bytes it gave. */
  datatype Session<S> = Session(machine: Machine<S>, written: Bytes, received: Bytes)

  function Start<S>(p: Plan<S>): Machine<S> {
    Machine(SendUpgrade, 0, p.parser.start, p.buffered,
            if p.connected then None else Some(Failed(NotConnected)), [], [])
  }

  /** One completion and the following advance. A completion nobody waits for does not occur. */
  function Next<S>(p: Plan<S>, s: Session<S>, c: Completion): Session<S> {
    var a := ActionOf(p, s.machine);
    if !Answers(a, c) then s
    else
      Session(Settle(p, On(p, s.machine, c)), s.written + Took(a, c), s.received + Gave(c))
  }

  /** What the socket took of an offer. */
  function Took(a: Action, c: Completion): Bytes
    requires Answers(a, c)
  {
    if c.Wrote? then a.data[..Min(c.n, |a.data|)] else []
  }

  function Gave(c: Completion): Bytes {
    if c.Received? then c.bytes else []
  }

  function Run<S>(p: Plan<S>, completions: seq<Completion>): Session<S> {
    if completions == [] then Session(Settle(p, Start(p)), [], p.buffered)
    else Next(p, Run(p, completions[..|completions| - 1]), completions[|completions| - 1])
  }

  /** The parser's state after a list of feeds, and the bytes it consumed. */
  function Fed<S>(parser: Parser<S>, feeds: seq<Bytes>): S {
    if feeds == [] then parser.start
    else parser.Feed(Fed(parser, feeds[..|feeds| - 1]), feeds[|feeds| - 1]).state
  }

  function Answer<S>(parser: Parser<S>, feeds: seq<Bytes>): Bytes {
    if feeds == [] then []
    else
      var last := feeds[|feeds| - 1];
      Answer(parser, feeds[..|feeds| - 1]) + last[..parser.Feed(Fed(parser, feeds[..|feeds| - 1]), last).consumed]
  }

  predicate Accepted(r: Response) {
    r.complete && r.code == 101 && r.upgrade == Some("h2c")
  }

  /** One whole SETTINGS frame. */
  predicate IsSettings(bytes: Bytes) {
    && |bytes| >= HEADER_LENGTH
    && |bytes| == HEADER_LENGTH + Deserialize(bytes).length
    && Deserialize(bytes).kind == SETTINGS
  }

  /** How far the bytes written agree with the phase. */
  ghost predicate WrittenSound<S>(p: Plan<S>, m: Machine<S>, written: Bytes) {
    && (if m.result.None? || m.result == Some(Upgraded) then
          && (Sending(m.phase) ==> m.sendOffset <= |p.Payload(m.phase)|)
          && written == p.Before(m.phase) + if Sending(m.phase) then p.Payload(m.phase)[..m.sendOffset] else []
        else
          && !m.phase.Done?
          && p.Before(m.phase) <= written <= p.Before(m.phase) + if Sending(m.phase) then p.Payload(m.phase) else [])
    && (!Sending(m.phase) ==> m.sendOffset == 0)
    && (m.phase.Done? <==> m.result == Some(Upgraded))
  }

  /** Everything received is the answer, then the SETTINGS frame, then what is still buffered. */
  ghost predicate ReadSound<S>(p: Plan<S>, m: Machine<S>, received: Bytes) {
    && m.response == Fed(p.parser, m.feeds)
    && received == Answer(p.parser, m.feeds) + m.settings + m.buffer
    && (Rank(m.phase) < 4 ==> Accepted(p.parser.read(m.response)))
    && (if Rank(m.phase) < 2 then IsSettings(m.settings) else m.settings == [])
  }

  ghost predicate Sound<S>(p: Plan<S>, s: Session<S>) {
    && WrittenSound(p, s.machine, s.written)
    && ReadSound(p, s.machine, s.received)
    && Waits(p, s.machine)
  }

  /** Between completions the machine has its result, or something to send, or room to receive. */
  ghost predicate Waits<S>(p: Plan<S>, m: Machine<S>) {
    m.result.None? ==>
      if Sending(m.phase) then m.sendOffset < |p.Payload(m.phase)| else |m.buffer| < p.capacity
  }

  // ----- safety of every run -----

  lemma FeedOnce<S>(parser: Parser<S>, feeds: seq<Bytes>, bytes: Bytes)
    ensures var f := parser.Feed(Fed(parser, feeds), bytes);
      && Fed(parser, feeds + [bytes]) == f.state
      && Answer(parser, feeds + [bytes]) == Answer(parser, feeds) + bytes[..f.consumed]
  {
    var more := feeds + [bytes];
    assert more[..|more| - 1] == feeds;
  }

  /** Bytes move from the front of the buffer to the end of what was consumed. */
  lemma MoveFront(taken: Bytes, buffer: Bytes, n: nat)
    requires n <= |buffer|
    ensures taken + [] + buffer == (taken + buffer[..n]) + [] + buffer[n..] == taken + buffer[..n] + buffer[n..]
  {
  }

  lemma FrontIsSettings(buffer: Bytes)
    requires HoldsFrame(buffer) && Deserialize(buffer).kind == SETTINGS
    ensures IsSettings(buffer[..HEADER_LENGTH + Deserialize(buffer).length])
  {
    hide Deserialize;
    var size := HEADER_LENGTH + Deserialize(buffer).length;
    assert buffer == buffer[..size] + buffer[size..];
    DeserializePrefix(buffer[..size], buffer);
  }

  lemma ParseKeeps<S>(p: Plan<S>, m: Machine<S>, received: Bytes)
    requires m.phase.RecvUpgradeResponse? && m.result.None? && ReadSound(p, m, received)
    ensures var (settled, m1) := ParseResponse(p, m);
      && ReadSound(p, m1, received)
      && m1 == m.(response := m1.response, buffer := m1.buffer, feeds := m1.feeds, result := m1.result)
      && m1.result != Some(Upgraded)
      && (!settled ==> m1.result.None?)
      && (settled && m1.result.None? ==> Accepted(p.parser.read(m1.response)))
  {
    hide Fed, Answer;
    if m.buffer != [] {
      FeedOnce(p.parser, m.feeds, m.buffer);
      MoveFront(Answer(p.parser, m.feeds), m.buffer, p.parser.Feed(m.response, m.buffer).consumed);
    }
  }

  lemma ConsumeKeeps<S>(p: Plan<S>, m: Machine<S>, received: Bytes)
    requires m.phase.RecvSettings? && m.result.None? && ReadSound(p, m, received)
    ensures var (settled, m1) := ConsumeSettings(m);
      && (m1.result.None? && settled ==> ReadSound(p, m1.(phase := SendAck), received))
      && (m1.result.Some? || !settled ==> ReadSound(p, m1, received))
      && m1 == m.(buffer := m1.buffer, settings := m1.settings, result := m1.result)
      && m1.result != Some(Upgraded)
      && (!settled ==> m1.result.None?)
  {
    hide Fed, Answer, Deserialize, IsSettings;
    if HoldsFrame(m.buffer) && Deserialize(m.buffer).kind == SETTINGS {
      FrontIsSettings(m.buffer);
      MoveFront(Answer(p.parser, m.feeds), m.buffer, HEADER_LENGTH + Deserialize(m.buffer).length);
    }
  }

  lemma {:induction false} SettleKeeps<S>(p: Plan<S>, m: Machine<S>, written: Bytes, received: Bytes)
    requires WrittenSound(p, m, written) && ReadSound(p, m, received)
    ensures Sound(p, Session(Settle(p, m), written, received))
    decreases Rank(m.phase)
  {
    hide ReadSound, ParseResponse, ConsumeSettings;
    if m.result.Some? {
    } else if Sending(m.phase) {
      if m.sendOffset >= |p.Payload(m.phase)| {
        assert p.Payload(m.phase)[..m.sendOffset] == p.Payload(m.phase);
        PhasePasses(p, m, written, received);
        match m.phase
        case SendUpgrade => SettleKeeps(p, m.(sendOffset := 0, phase := RecvUpgradeResponse), written, received);
        case SendPrefaceSettings => SettleKeeps(p, m.(sendOffset := 0, phase := RecvSettings), written, received);
        case _ =>
      }
    } else if m.phase.RecvUpgradeResponse? {
      ParseKeeps(p, m, received);
      var (settled, m1) := ParseResponse(p, m);
      FailKeepsRead(p, m1, received);
      if settled && m1.result.None? {
        AcceptPasses(p, m1, received);
        SettleKeeps(p, m1.(phase := SendPrefaceSettings), written, received);
      }
    } else if m.phase.RecvSettings? {
      ConsumeKeeps(p, m, received);
      var (settled, m1) := ConsumeSettings(m);
      if settled && m1.result.None? {
        SettleKeeps(p, m1.(phase := SendAck), written, received);
      } else {
        FailKeepsRead(p, m1, received);
      }
    }
  }

  lemma FailKeepsRead<S>(p: Plan<S>, m: Machine<S>, received: Bytes)
    requires ReadSound(p, m, received)
    ensures forall why :: ReadSound(p, Fail(m, why), received)
  {
  }

  lemma AcceptPasses<S>(p: Plan<S>, m: Machine<S>, received: Bytes)
    requires m.phase.RecvUpgradeResponse? && ReadSound(p, m, received) && Accepted(p.parser.read(m.response))
    ensures ReadSound(p, m.(phase := SendPrefaceSettings), received)
  {
  }

  lemma PhasePasses<S>(p: Plan<S>, m: Machine<S>, written: Bytes, received: Bytes)
    requires Sending(m.phase) && ReadSound(p, m, received)
    ensures var next := match m.phase
                        case SendUpgrade => RecvUpgradeResponse
                        case SendPrefaceSettings => RecvSettings
                        case _ => Done;
      forall r :: ReadSound(p, m.(sendOffset := 0, phase := next, result := r), received)
  {
  }

  lemma NextStretch(before: Bytes, payload: Bytes, at: nat, took: nat)
    requires at + took <= |payload|
    ensures (before + payload[..at]) + payload[at..][..took] == before + payload[..at + took]
    ensures before <= before + payload[..at + took] <= before + payload
  {
    assert payload[..at] + payload[at..][..took] == payload[..at + took];
  }

  lemma OnKeepsWritten<S>(p: Plan<S>, s: Session<S>, c: Completion)
    requires Sound(p, s) && Answers(ActionOf(p, s.machine), c)
    ensures WrittenSound(p, On(p, s.machine, c), s.written + Took(ActionOf(p, s.machine), c))
  {
    hide ReadSound;
    var m := s.machine;
    assert s.written + [] == s.written;
    if c.Wrote? {
      var payload := p.Payload(m.phase);
      NextStretch(p.Before(m.phase), payload, m.sendOffset, Min(c.n, |payload| - m.sendOffset));
    }
  }

  lemma OnKeepsRead<S>(p: Plan<S>, s: Session<S>, c: Completion)
    requires Sound(p, s) && Answers(ActionOf(p, s.machine), c)
    ensures ReadSound(p, On(p, s.machine, c), s.received + Gave(c))
  {
    hide WrittenSound, Waits, Fed, Answer, Accepted, IsSettings;
    var m := s.machine;
    assert s.received + [] == s.received;
    if c.Received? {
      Assoc(Answer(p.parser, m.feeds) + m.settings, m.buffer, c.bytes);
    }
  }

  /** Every run keeps the invariant: what was written and what was consumed match the phase. */
  lemma {:induction false} RunIsSound<S>(p: Plan<S>, completions: seq<Completion>)
    ensures Sound(p, Run(p, completions))
  {
    hide Settle, On;
    if completions == [] {
      assert Answer(p.parser, []) + [] + p.buffered == p.buffered;
      SettleKeeps(p, Start(p), [], p.buffered);
    } else {
      var n := |completions| - 1;
      RunIsSound(p, completions[..n]);
      var s, c := Run(p, completions[..n]), completions[n];
      if Answers(ActionOf(p, s.machine), c) {
        OnKeepsWritten(p, s, c);
        OnKeepsRead(p, s, c);
        SettleKeeps(p, On(p, s.machine, c), s.written + Took(ActionOf(p, s.machine), c), s.received + Gave(c));
      }
    }
  }

  /**
    * At every moment the bytes written are a prefix of request, preface and acknowledgement; nothing
    * after the request is sent before a 101 was accepted, nothing after the preface before SETTINGS.
    */
  lemma WrittenInOrder<S>(p: Plan<S>, completions: seq<Completion>)
    ensures var s := Run(p, completions);
      var answer, settings := Answer(p.parser, s.machine.feeds), s.machine.settings;
      && s.written <= p.All()
      && s.received == answer + settings + s.machine.buffer
      && (|s.written| > |p.upgrade| ==> Accepted(p.parser.read(Fed(p.parser, s.machine.feeds))))
      && (|s.written| > |p.upgrade + p.preface| ==> IsSettings(settings))
  {
    hide Run, Fed, Answer, Accepted, IsSettings;
    RunIsSound(p, completions);
    var s := Run(p, completions);
    Assoc(p.upgrade, p.preface, p.ack);
    assert p.Before(s.machine.phase) + (if Sending(s.machine.phase) then p.Payload(s.machine.phase) else []) <= p.All();
  }

  predicate HasFailed<S>(m: Machine<S>) {
    m.result.Some? && m.result.value.Failed?
  }

  /**
    * The upgrade succeeds exactly when everything has been written without a failure; then a 101 for
    * h2c and after it a SETTINGS frame were taken from the front of what was received.
    */
  lemma SuccessIff<S>(p: Plan<S>, completions: seq<Completion>)
    requires p.ack != []
    ensures var s := Run(p, completions);
      s.machine.result == Some(Upgraded) <==> s.written == p.All() && !HasFailed(s.machine)
    ensures var s := Run(p, completions);
      var answer := Answer(p.parser, s.machine.feeds);
      s.machine.result == Some(Upgraded) ==>
        && Accepted(p.parser.read(Fed(p.parser, s.machine.feeds)))
        && IsSettings(s.machine.settings)
        && answer + s.machine.settings <= s.received
  {
    hide Run, Fed, Answer, Accepted, IsSettings;
    RunIsSound(p, completions);
    Assoc(p.upgrade, p.preface, p.ack);
    var s := Run(p, completions);
    if s.machine.result.None? && Sending(s.machine.phase) {
      assert |s.written| < |p.Before(s.machine.phase)| + |p.Payload(s.machine.phase)|;
    }
  }

  /** What is offered to the socket is never empty: it is all that is left of the part being sent. */
  lemma OfferIsNext<S>(p: Plan<S>, completions: seq<Completion>)
    ensures var s := Run(p, completions);
      match ActionOf(p, s.machine)
      case WaitWrite(data) =>
        && data != [] && s.written + data <= p.All()
        && (s.written + data == p.upgrade || s.written + data == p.upgrade + p.preface
            || s.written + data == p.upgrade + p.preface + p.ack)
      case WaitRead(room) => room > 0 && |s.machine.buffer| + room == p.capacity
      case Complete(outcome) => s.machine.result == Some(outcome) && outcome != Failed(Incomplete)
  {
    hide Run, ReadSound;
    RunIsSound(p, completions);
    NeverIncomplete(p, completions);
    Assoc(p.upgrade, p.preface, p.ack);
    var s := Run(p, completions);
    var m := s.machine;
    if m.result.None? && Sending(m.phase) {
      var payload := p.Payload(m.phase);
      Assoc(p.Before(m.phase), payload[..m.sendOffset], payload[m.sendOffset..]);
      assert payload[..m.sendOffset] + payload[m.sendOffset..] == payload;
      assert s.written + payload[m.sendOffset..] == p.Before(m.phase) + payload;
      assert [] + p.upgrade == p.upgrade;
    }
  }

  lemma {:induction false} SettleNeverIncomplete<S>(p: Plan<S>, m: Machine<S>)
    requires m.result != Some(Failed(Incomplete))
    ensures Settle(p, m).result != Some(Failed(Incomplete))
    decreases Rank(m.phase)
  {
    if m.result.Some? {
    } else if m.phase.SendUpgrade? {
      SettleNeverIncomplete(p, m.(sendOffset := 0, phase := RecvUpgradeResponse));
    } else if m.phase.SendPrefaceSettings? {
      SettleNeverIncomplete(p, m.(sendOffset := 0, phase := RecvSettings));
    } else if m.phase.RecvUpgradeResponse? {
      var (settled, m1) := ParseResponse(p, m);
      if settled && m1.result.None? {
        SettleNeverIncomplete(p, m1.(phase := SendPrefaceSettings));
      }
    } else if m.phase.RecvSettings? {
      var (settled, m1) := ConsumeSettings(m);
      if settled && m1.result.None? {
        SettleNeverIncomplete(p, m1.(phase := SendAck));
      }
    }
  }

  lemma {:induction false} NeverIncomplete<S>(p: Plan<S>, completions: seq<Completion>)
    ensures Run(p, completions).machine.result != Some(Failed(Incomplete))
  {
    hide Settle;
    if completions == [] {
      SettleNeverIncomplete(p, Start(p));
    } else {
      var n := |completions| - 1;
      NeverIncomplete(p, completions[..n]);
      SettleNeverIncomplete(p, On(p, Run(p, completions[..n]).machine, completions[n]));
    }
  }

  /** How a write was cut leaves no trace: two partial writes are one write of both. */
  lemma WritesJoin<S>(p: Plan<S>, completions: seq<Completion>, a: nat, b: nat)
    requires ActionOf(p, Run(p, completions).machine).WaitWrite?
    requires 0 < a < |ActionOf(p, Run(p, completions).machine).data| && 0 < b
    ensures var s := Run(p, completions);
      Next(p, Next(p, s, Wrote(a)), Wrote(b)) == Next(p, s, Wrote(a + b))
  {
    RunIsSound(p, completions);
    hide Run, ReadSound;
    var s := Run(p, completions);
    var data := ActionOf(p, s.machine).data;
    var once := Next(p, s, Wrote(a));
    assert once.machine == s.machine.(sendOffset := s.machine.sendOffset + a);
    var rest := ActionOf(p, once.machine).data;
    assert rest == data[a..];
    var k := Min(b, |rest|);
    assert data[..a] + rest[..k] == data[..Min(a + b, |data|)];
    Assoc(s.written, data[..a], rest[..k]);
  }

  /** A completion that answers and does not fail moves the upgrade on: more is written or more received. */
  lemma AnswersProgress<S>(p: Plan<S>, completions: seq<Completion>, c: Completion)
    requires Answers(ActionOf(p, Run(p, completions).machine), c)
    ensures var s := Run(p, completions);
      var s1 := Next(p, s, c);
      HasFailed(s1.machine) || |s1.written| + |s1.received| > |s.written| + |s.received|
  {
    OfferIsNext(p, completions);
    hide Run;
    var s := Run(p, completions);
    if HasFailed(On(p, s.machine, c)) {
      assert Settle(p, On(p, s.machine, c)) == On(p, s.machine, c);
    }
  }

  /** Any SETTINGS frame is taken, whole and alone: its flags, stream and contents are not looked at. */
  lemma AnySettingsFrameIsTaken<S>(m: Machine<S>, flags: byte, streamId: nat, payload: Bytes, rest: Bytes)
    requires |payload| < 0x100_0000 && m.buffer == FrameBytes(SETTINGS, flags, streamId, payload) + rest
    ensures ConsumeSettings(m) == (true, m.(buffer := rest, settings := FrameBytes(SETTINGS, flags, streamId, payload)))
  {
    hide Serialize, Deserialize;
    var h := Header(|payload|, SETTINGS, flags, streamId);
    HeaderOnTheWire(h);
    assert m.buffer[..HEADER_LENGTH] == Serialize(h);
    DeserializePrefix(Serialize(h), m.buffer);
  }

  // ----- the server's first frame, against section 3.4 of RFC 9113 -----

  datatype Setting = Setting(id: nat, value: nat)

  /** The largest frame before any other limit was announced (section 4.2 of RFC 9113). */
  const MAX_FRAME_SIZE: nat := 16384

  /** The values a server may announce (section 6.5.2 of RFC 9113); unknown settings are ignored. */
  predicate IsLegalSetting(s: Setting) {
    && s.id < 0x1_0000 && s.value < TWO32
    && (s.id == 2 ==> s.value == 0)                        // ENABLE_PUSH
    && (s.id == 4 ==> s.value < TWO31)                     // INITIAL_WINDOW_SIZE
    && (s.id == 5 ==> 16384 <= s.value < 0x100_0000)       // MAX_FRAME_SIZE
  }

  predicate AreLegalSettings(entries: seq<Setting>) {
    forall i :: 0 <= i < |entries| ==> IsLegalSetting(entries[i])
  }

  /** Sixteen bits of identifier and thirty-two of value each (section 6.5.1 of RFC 9113). */
  function SettingsPayload(entries: seq<Setting>): Bytes {
    if entries == [] then []
    else Octets(entries[0].id, 2) + Octets(entries[0].value, 4) + SettingsPayload(entries[1..])
  }

  /**
    * A legal preface of the server: a SETTINGS frame of the connection, within the frame size, that
    * lists legal settings and acknowledges nothing.
    */
  ghost predicate IsServerPreface(frame: Bytes) {
    && HEADER_LENGTH <= |frame| <= HEADER_LENGTH + MAX_FRAME_SIZE
    && exists flags: byte, entries ::
         && flags % 2 != ACK
         && AreLegalSettings(entries)
         && Deserialize(frame) == Header(6 * |entries|, SETTINGS, flags, 0)
         && frame[HEADER_LENGTH..] == SettingsPayload(entries)
  }

  /** The settings a payload lists. */
  function ReadSettings(payload: Bytes): seq<Setting>
    decreases |payload|
  {
    if |payload| < 6 then []
    else [Setting(Number(payload[..2]), Number(payload[2..6]))] + ReadSettings(payload[6..])
  }

  /** Writing the settings read gives the payload back. */
  lemma {:induction false} WriteOfRead(payload: Bytes)
    requires |payload| % 6 == 0
    ensures SettingsPayload(ReadSettings(payload)) == payload && 6 * |ReadSettings(payload)| == |payload|
    decreases |payload|
  {
    if payload != [] {
      WriteOfRead(payload[6..]);
      var entries := ReadSettings(payload);
      OctetsOfNumber(payload[..2]);
      OctetsOfNumber(payload[2..6]);
      assert entries[1..] == ReadSettings(payload[6..]);
      assert payload == payload[..2] + payload[2..6] + payload[6..];
    }
  }

  /** Reading the settings written gives them back, when they fit their fields. */
  lemma {:induction false} ReadOfWrite(entries: seq<Setting>)
    requires AreLegalSettings(entries)
    ensures ReadSettings(SettingsPayload(entries)) == entries
  {
    if entries != [] {
      var s, rest := entries[0], entries[1..];
      ReadOfWrite(rest);
      IdOctets(s.id);
      ValueOctets(s.value);
      var payload := SettingsPayload(entries);
      hide SettingsPayload, Octets, Number;
      assert payload[..2] == Octets(s.id, 2) && payload[2..6] == Octets(s.value, 4);
      assert payload[6..] == SettingsPayload(rest);
      assert entries == [s] + rest;
    }
  }

  lemma IdOctets(n: nat)
    requires n < 0x1_0000
    ensures Number(Octets(n, 2)) == n
  {
    var q := NumberOfOctets(n, 2);
    assert Pow256(2) == 0x1_0000;
    hide *;
    assert n == q * 0x1_0000 + Number(Octets(n, 2));
  }

  lemma ValueOctets(n: nat)
    requires n < TWO32
    ensures Number(Octets(n, 4)) == n
  {
    var q := NumberOfOctets(n, 4);
    Pow256Values();
    hide *;
    assert n == q * 0x1_0000_0000 + Number(Octets(n, 4));
  }

  /** What the header of a SETTINGS frame has to say for the frame to be a server's preface. */
  predicate HeaderOfPreface(h: Header) {
    h.flags % 2 != ACK && h.streamId == 0 && h.length % 6 == 0 && h.length <= MAX_FRAME_SIZE
  }

  lemma PrefaceIff(frame: Bytes)
    requires IsSettings(frame)
    ensures IsServerPreface(frame) <==>
      HeaderOfPreface(Deserialize(frame)) && AreLegalSettings(ReadSettings(frame[HEADER_LENGTH..]))
  {
    hide Deserialize, IsLegalSetting, ReadSettings, SettingsPayload;
    var h, payload := Deserialize(frame), frame[HEADER_LENGTH..];
    if HeaderOfPreface(h) && AreLegalSettings(ReadSettings(payload)) {
      WriteOfRead(payload);
      assert h == Header(6 * |ReadSettings(payload)|, SETTINGS, h.flags, 0);
    }
    if IsServerPreface(frame) {
      var flags: byte, entries :| flags % 2 != ACK && AreLegalSettings(entries) &&
        h == Header(6 * |entries|, SETTINGS, flags, 0) && payload == SettingsPayload(entries);
      ReadOfWrite(entries);
    }
  }

  /**
    * A successful upgrade has taken a legal server preface iff the frame's ACK flag was clear, its
    * stream zero, its length a multiple of six of at most 16384, and every setting in it legal; none
    * of this is asked by the machine.
    */
  lemma UpgradedOnPrefaceIff<S>(p: Plan<S>, completions: seq<Completion>)
    requires Run(p, completions).machine.result == Some(Upgraded)
    ensures var frame := Run(p, completions).machine.settings;
      && IsSettings(frame)
      && (IsServerPreface(frame) <==>
            HeaderOfPreface(Deserialize(frame)) && AreLegalSettings(ReadSettings(frame[HEADER_LENGTH..])))
  {
    RunIsSound(p, completions);
    SettingsAreWhole(Run(p, completions).machine.settings);
    hide Run, Deserialize, IsServerPreface, HeaderOfPreface, IsSettings, AreLegalSettings;
    PrefaceIff(Run(p, completions).machine.settings);
  }

  lemma SettingsAreWhole(frame: Bytes)
    requires IsSettings(frame)
    ensures |frame| >= HEADER_LENGTH
  {
  }

  /** A parser that takes any bytes for a 101 response to h2c. */
  function Agreeable(): Parser<bool> {
    Parser(true, (state, bytes) => Feeding(true, Parsed, |bytes|), state => Response(true, 101, Some("h2c")))
  }

  function AgreeablePlan(upgrade: Bytes, preface: Bytes, ack: Bytes): Plan<bool> {
    Plan(true, [], upgrade, preface, ack, 65536, Agreeable())
  }

  lemma AllWritten(p: Plan<bool>, s: Session<bool>, next: Phase)
    requires var m := s.machine;
      && m.result.None? && Sending(m.phase) && m.sendOffset == 0 && p.Payload(m.phase) != [] && m.buffer == []
      && next == match m.phase
                 case SendUpgrade => RecvUpgradeResponse
                 case SendPrefaceSettings => RecvSettings
                 case _ => Done
    requires p.capacity > 0
    ensures Next(p, s, Wrote(|p.Payload(s.machine.phase)|)).machine ==
      s.machine.(phase := next, result := if next.Done? then Some(Upgraded) else None)
  {
    var m := s.machine;
    var sent := m.(sendOffset := |p.Payload(m.phase)|);
    assert On(p, m, Wrote(|p.Payload(m.phase)|)) == sent;
    assert Settle(p, m.(phase := next)) == m.(phase := next) || next.Done?;
  }

  lemma AnswerTaken(p: Plan<bool>, s: Session<bool>, answer: Bytes)
    requires p.parser == Agreeable() && 0 < |answer| <= p.capacity && p.preface != []
    requires s.machine == Machine(RecvUpgradeResponse, 0, true, [], None, [], [])
    ensures Next(p, s, Received(answer)).machine == Machine(SendPrefaceSettings, 0, true, [], None, [answer], [])
  {
    assert [] + answer == answer && [] + [answer] == [answer] && answer[|answer|..] == [];
    var fed := Machine(RecvUpgradeResponse, 0, true, [], None, [answer], []);
    assert ParseResponse(p, On(p, s.machine, Received(answer))) == (true, fed);
    assert Settle(p, fed.(phase := SendPrefaceSettings)) == fed.(phase := SendPrefaceSettings);
  }

  lemma AckTaken(p: Plan<bool>, s: Session<bool>, frame: Bytes)
    requires IsSettings(frame) && |frame| <= p.capacity && p.ack != []
    requires var m := s.machine;
      m.phase.RecvSettings? && m.result.None? && m.buffer == [] && m.sendOffset == 0
    ensures Next(p, s, Received(frame)).machine == s.machine.(phase := SendAck, settings := frame)
  {
    hide Deserialize;
    assert [] + frame == frame && frame[..|frame|] == frame && frame[|frame|..] == [];
    var taken := s.machine.(settings := frame);
    assert ConsumeSettings(On(p, s.machine, Received(frame))) == (true, taken);
    assert Settle(p, taken.(phase := SendAck)) == taken.(phase := SendAck);
  }

  /** A run in which the server's first frame is an acknowledgement: it ends in success. */
  lemma AcknowledgementUpgrades(upgrade: Bytes, preface: Bytes, ack: Bytes, answer: Bytes)
    requires upgrade != [] && preface != [] && ack != [] && 0 < |answer| <= 65536
    ensures var p := AgreeablePlan(upgrade, preface, ack);
      var frame := Serialize(Header(0, SETTINGS, ACK, 0));
      var s := Run(p, [Wrote(|upgrade|), Received(answer), Wrote(|preface|), Received(frame), Wrote(|ack|)]);
      && s.machine.result == Some(Upgraded)
      && s.machine.settings == frame
      && !IsServerPreface(frame)
  {
    var p := AgreeablePlan(upgrade, preface, ack);
    var frame := Serialize(Header(0, SETTINGS, ACK, 0));
    var all := [Wrote(|upgrade|), Received(answer), Wrote(|preface|), Received(frame), Wrote(|ack|)];
    AckIsNoPreface();
    RunOfFive(p, all);
    FirstOffer(p);
    hide Run, Next, Settle, Serialize, IsServerPreface, IsSettings;
    FiveCompletions(p, Session(Start(p), [], []), answer, frame);
  }

  lemma AckIsNoPreface()
    ensures var frame := Serialize(Header(0, SETTINGS, ACK, 0));
      IsSettings(frame) && |frame| == HEADER_LENGTH && !IsServerPreface(frame)
  {
    HeaderOnTheWire(Header(0, SETTINGS, ACK, 0));
    hide Serialize, Deserialize;
    PrefaceIff(Serialize(Header(0, SETTINGS, ACK, 0)));
  }

  /** Each payload taken whole, the answer and the frame each in one piece. */
  lemma FiveCompletions(p: Plan<bool>, s0: Session<bool>, answer: Bytes, frame: Bytes)
    requires p.parser == Agreeable() && 0 < |answer| <= p.capacity && IsSettings(frame) && |frame| <= p.capacity
    requires p.upgrade != [] && p.preface != [] && p.ack != []
    requires s0.machine == Machine(SendUpgrade, 0, true, [], None, [], [])
    ensures var s2 := Next(p, Next(p, s0, Wrote(|p.upgrade|)), Received(answer));
      var s4 := Next(p, Next(p, s2, Wrote(|p.preface|)), Received(frame));
      Next(p, s4, Wrote(|p.ack|)).machine == Machine(Done, 0, true, [], Some(Upgraded), [answer], frame)
  {
    hide Next, Settle, IsSettings, Agreeable;
    AllWritten(p, s0, RecvUpgradeResponse);
    var s1 := Next(p, s0, Wrote(|p.upgrade|));
    AnswerTaken(p, s1, answer);
    var s2 := Next(p, s1, Received(answer));
    AllWritten(p, s2, RecvSettings);
    var s3 := Next(p, s2, Wrote(|p.preface|));
    AckTaken(p, s3, frame);
    AllWritten(p, Next(p, s3, Received(frame)), Done);
  }

  lemma FirstOffer<S>(p: Plan<S>)
    requires p.connected && p.upgrade != []
    ensures Settle(p, Start(p)) == Start(p)
  {
  }

  lemma RunOfFive<S>(p: Plan<S>, c: seq<Completion>)
    requires |c| == 5
    ensures var start := Session(Settle(p, Start(p)), [], p.buffered);
      Run(p, c) == Next(p, Next(p, Next(p, Next(p, Next(p, start, c[0]), c[1]), c[2]), c[3]), c[4])
  {
    hide Next, Settle;
    assert c[..5] == c;
    RunOnce(p, c, 0);
    RunOnce(p, c, 1);
    RunOnce(p, c, 2);
    RunOnce(p, c, 3);
    RunOnce(p, c, 4);
    assert c[..0] == [];
  }

  lemma RunOnce<S>(p: Plan<S>, completions: seq<Completion>, i: nat)
    requires i < |completions|
    ensures Run(p, completions[..i + 1]) == Next(p, Run(p, completions[..i]), completions[i])
  {
    assert completions[..i + 1][..i] == completions[..i];
  }

  // ----- the machine -----

  class H2cUpgradeMachine<S> {
    const plan: Plan<S>
    const ring: RingBuffer
    var phase: Phase
    var sendOffset: nat
    var response: S
    var result: Option<Outcome>
    ghost var feeds: seq<Bytes>
    ghost var settings: Bytes

    ghost predicate Valid()
      reads this, ring
    {
      ring.Valid() && ring.capacity == plan.capacity
    }

    ghost function State(): Machine<S>
      reads this, ring
    {
      Machine(phase, sendOffset, response, ring.contents, result, feeds, settings)
    }

    constructor (plan: Plan<S>, ring: RingBuffer)
      requires ring.Valid() && ring.capacity == plan.capacity && ring.contents == plan.buffered
      ensures Valid() && this.plan == plan && this.ring == ring && State() == Start(plan)
    {
      this.plan, this.ring := plan, ring;
      phase, sendOffset, response := SendUpgrade, 0, plan.parser.start;
      result := if plan.connected then None else Some(Failed(NotConnected));
      feeds, settings := [], [];
    }

    method SetResult(why: Failure)
      modifies this`result
      ensures State() == Fail(old(State()), why)
    {
      if result.None? {
        result := Some(Failed(why));
      }
    }

    /** The loop ends because every turn moves to a later phase. */
    method Advance() returns (action: Action)
      requires Valid()
      modifies this, ring
      ensures Valid() && State() == Settle(plan, old(State()))
      ensures action == ActionOf(plan, State())
    {
      hide ParseResponse, ConsumeSettings;
      if result.Some? {
        return Complete(result.value);
      }
      while true
        invariant Valid() && result.None?
        invariant Settle(plan, State()) == Settle(plan, old(State()))
        decreases Rank(phase)
      {
        match phase
        case SendUpgrade =>
          var sent := SendCompleted(plan.upgrade, RecvUpgradeResponse);
          if !sent {
            return WaitWrite(plan.upgrade[sendOffset..]);
          }
        case RecvUpgradeResponse =>
          var settled := ParseUpgradeResponse();
          if !settled {
            action := PrepareRecvWindow(FullBefore101);
            return;
          }
          if result.Some? {
            return Complete(result.value);
          }
          phase := SendPrefaceSettings;
        case SendPrefaceSettings =>
          var sent := SendCompleted(plan.preface, RecvSettings);
          if !sent {
            return WaitWrite(plan.preface[sendOffset..]);
          }
        case RecvSettings =>
          var settled := TryConsumeSettingsFrame();
          if !settled {
            action := PrepareRecvWindow(FullBeforeSettings);
            return;
          }
          if result.Some? {
            return Complete(result.value);
          }
          phase := SendAck;
        case SendAck =>
          var sent := SendCompleted(plan.ack, Done);
          if !sent {
            return WaitWrite(plan.ack[sendOffset..]);
          }
          result := Some(Upgraded);
          return Complete(Upgraded);
        case Done =>
          return Complete(Failed(Incomplete));
      }
    }

    method SendCompleted(payload: Bytes, next: Phase) returns (sent: bool)
      modifies this`sendOffset, this`phase
      ensures sent == (old(sendOffset) >= |payload|)
      ensures State() == if sent then old(State()).(sendOffset := 0, phase := next) else old(State())
    {
      if sendOffset < |payload| {
        return false;
      }
      sendOffset, phase := 0, next;
      return true;
    }

    method ParseUpgradeResponse() returns (settled: bool)
      requires Valid()
      modifies this, ring
      ensures Valid() && (settled, State()) == ParseResponse(plan, old(State()))
      ensures phase == old(phase) && (!settled ==> result == old(result))
    {
      var segments := ring.GetReadIovecs();
      var bytes := Flatten(segments);
      if bytes == [] {
        return false;
      }
      var fed := plan.parser.Feed(response, bytes);
      response := fed.state;
      feeds := feeds + [bytes];
      if fed.consumed > 0 {
        ring.Consume(fed.consumed);
      }
      if fed.status.NeedMore? {
        return false;
      }
      if fed.status.Malformed? {
        SetResult(ParseError);
        return true;
      }
      var answer := plan.parser.read(response);
      if !answer.complete {
        return false;
      }
      var refusal := Judge(answer);
      if refusal.Some? {
        SetResult(refusal.value);
      }
      return true;
    }

    method TryConsumeSettingsFrame() returns (settled: bool)
      requires Valid()
      modifies this, ring
      ensures Valid() && (settled, State()) == ConsumeSettings(old(State()))
      ensures phase == old(phase) && (!settled ==> result == old(result))
    {
      hide Deserialize;
      var segments := ring.GetReadIovecs();
      var available := Available(segments);
      if available < HEADER_LENGTH {
        return false;
      }
      var header := new byte[HEADER_LENGTH];
      var _ := CopyPrefix(segments, header, HEADER_LENGTH);
      var frameHeader := Deserialize(header[..]);
      assert header[..] == header[..HEADER_LENGTH];
      DeserializePrefix(header[..], ring.contents);
      var frameSize := HEADER_LENGTH + frameHeader.length;
      if available < frameSize {
        return false;
      }
      if frameHeader.kind != SETTINGS {
        SetResult(ExpectedSettings(frameHeader.kind));
        return true;
      }
      settings := ring.contents[..frameSize];
      ring.Consume(frameSize);
      return true;
    }

    /** Room to receive, or a failure when the buffer is full. */
    method PrepareRecvWindow(why: Failure) returns (action: Action)
      requires Valid() && result.None? && (phase.RecvUpgradeResponse? || phase.RecvSettings?)
      modifies this`result
      ensures State() == AwaitRead(plan, old(State()), why) && action == ActionOf(plan, State())
    {
      var room := ring.GetWriteIovecs();
      if room[0] == 0 && room[1] == 0 {
        SetResult(why);
        return Complete(result.value);
      }
      return WaitRead(room[0] + room[1]);
    }

    method OnRead(bytes: Bytes)
      requires Valid() && |ring.contents| + |bytes| <= ring.capacity
      modifies this`result, ring
      ensures Valid() && State() == AfterRead(old(State()), bytes)
    {
      if bytes == [] {
        SetResult(if phase.RecvUpgradeResponse? then PeerClosedBefore101 else PeerClosedBeforeSettings);
        return;
      }
      ring.Produce(bytes);
    }

    method OnReadFailed(disconnected: bool)
      modifies this`result
      ensures State() == On(plan, old(State()), ReadFailed(disconnected))
    {
      SetResult(if disconnected then ConnectionClosed else ReceiveFailed);
    }

    method OnWrite(n: nat)
      modifies this`result, this`sendOffset
      ensures State() == AfterWrite(plan, old(State()), n)
    {
      if n == 0 {
        SetResult(SendFailed);
        return;
      }
      sendOffset := sendOffset + n;
      if sendOffset > |plan.Payload(phase)| {
        SetResult(SendFailed);
      }
    }

    method OnWriteFailed()
      modifies this`result
      ensures State() == On(plan, old(State()), WriteFailed)
    {
      SetResult(SendFailed);
    }
  }

  method Available(segments: seq<Bytes>) returns (total: nat)
    ensures total == |Flatten(segments)|
  {
    total := 0;
    assert segments[0..] == segments;
    for i := 0 to |segments|
      invariant total + |Flatten(segments[i..])| == |Flatten(segments)|
    {
      FlattenFrom(segments, i);
      total := total + |segments[i]|;
    }
  }

  /** The socket side: whatever it completes, and however it cuts reads and writes, the run is sound. */
  method Serve<S>(machine: H2cUpgradeMachine<S>, completions: seq<Completion>) returns (written: Bytes, received: Bytes)
    requires machine.Valid() && machine.State() == Start(machine.plan)
    modifies machine, machine.ring
    ensures Session(machine.State(), written, received) == Run(machine.plan, completions)
    ensures written <= machine.plan.All()
  {
    hide Settle, ActionOf, WrittenSound, ReadSound;
    ghost var p := machine.plan;
    written, received := [], machine.plan.buffered;
    var action := machine.Advance();
    for i := 0 to |completions|
      invariant machine.Valid() && action == ActionOf(p, machine.State())
      invariant Session(machine.State(), written, received) == Run(p, completions[..i])
    {
      assert completions[..i + 1][..i] == completions[..i];
      var c := completions[i];
      RunIsSound(p, completions[..i]);
      OfferIsNext(p, completions[..i]);
      if Answers(action, c) {
        match c {
          case Wrote(n) =>
            machine.OnWrite(n);
            written := written + action.data[..Min(n, |action.data|)];
          case WriteFailed => machine.OnWriteFailed();
          case Received(bytes) =>
            machine.OnRead(bytes);
            received := received + bytes;
          case ReadFailed(disconnected) => machine.OnReadFailed(disconnected);
        }
        action := machine.Advance();
      }
    }
    assert completions[..|completions|] == completions;
    WrittenInOrder(p, completions);
  }
}
