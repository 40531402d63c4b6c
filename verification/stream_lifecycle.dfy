/**
  * The stream state machine as the implementation runs it, against section 5.1 of RFC 9113. Events
  * are applied whatever the state; the can* queries say which events a caller should allow. A push
  * promise reserves a stream that was just created.
  */
module StreamLifecycle {
  import opened Prelude

  datatype State = Idle | ReservedLocal | ReservedRemote | Open | HalfClosedLocal | HalfClosedRemote | Closed

  /** The state and the two END_STREAM flags. */
  datatype Life = Life(state: State, endReceived: bool, endSent: bool)

  const FRESH := Life(Idle, false, false)

  datatype Event =
    | HeadersReceived(end: bool)
    | DataReceived(end: bool)
    | HeadersSent(end: bool)
    | DataSent(end: bool)
    | RstReceived
    | RstSent
    | ReserveLocal
    | ReserveRemote

  predicate CanReceiveHeaders(s: State) {
    s.Idle? || s.ReservedRemote? || s.Open? || s.HalfClosedLocal?
  }

  predicate CanReceiveData(s: State) {
    s.Open? || s.HalfClosedLocal?
  }

  predicate CanSendHeaders(s: State) {
    s.Idle? || s.ReservedLocal? || s.Open? || s.HalfClosedRemote?
  }

  predicate CanSendData(s: State) {
    s.Open? || s.HalfClosedRemote?
  }

  predicate Guarded(s: State, e: Event) {
    match e
    case HeadersReceived(_) => CanReceiveHeaders(s)
    case DataReceived(_) => CanReceiveData(s)
    case HeadersSent(_) => CanSendHeaders(s)
    case DataSent(_) => CanSendData(s)
    case RstReceived => true
    case RstSent => true
    case ReserveLocal => s.Idle?
    case ReserveRemote => s.Idle?
  }

  function EndReceived(l: Life): Life {
    Life(if l.state.Open? then HalfClosedRemote else if l.state.HalfClosedLocal? then Closed else l.state,
         true, l.endSent)
  }

  function EndSent(l: Life): Life {
    Life(if l.state.Open? then HalfClosedLocal else if l.state.HalfClosedRemote? then Closed else l.state,
         l.endReceived, true)
  }

  function Step(l: Life, e: Event): Life {
    match e
    case HeadersReceived(end) =>
      var l' := if l.state.Idle? then l.(state := Open) else l;
      if end then EndReceived(l') else l'
    case DataReceived(end) => if end then EndReceived(l) else l
    case HeadersSent(end) =>
      var l' := if l.state.Idle? then l.(state := Open)
                else if l.state.ReservedLocal? then l.(state := HalfClosedRemote) else l;
      if end then EndSent(l') else l'
    case DataSent(end) => if end then EndSent(l) else l
    case RstReceived => l.(state := Closed)
    case RstSent => l.(state := Closed)
    case ReserveLocal => l.(state := State.ReservedLocal)
    case ReserveRemote => l.(state := State.ReservedRemote)
  }

  function Run(l: Life, events: seq<Event>): Life {
    if events == [] then l else Step(Run(l, events[..|events| - 1]), events[|events| - 1])
  }

  predicate GuardedRun(l: Life, events: seq<Event>) {
    events == [] ||
    (var n := |events| - 1;
     GuardedRun(l, events[..n]) && Guarded(Run(l, events[..n]).state, events[n]))
  }

  predicate HasRst(events: seq<Event>) {
    exists i :: 0 <= i < |events| && (events[i].RstReceived? || events[i].RstSent?)
  }

  predicate HasReserve(events: seq<Event>) {
    ReserveLocal in events || ReserveRemote in events
  }

  lemma InSnoc(events: seq<Event>)
    requires events != []
    ensures var n := |events| - 1; forall e :: e in events <==> e in events[..n] || e == events[n]
  {
    assert events == events[..|events| - 1] + [events[|events| - 1]];
  }

  // ----- all runs, guarded or not -----

  /** Only reserving could reopen a stream, and only new streams are reserved. */
  lemma {:induction false} ClosedIsAbsorbing(l: Life, events: seq<Event>)
    requires l.state.Closed? && !HasReserve(events)
    ensures Run(l, events).state.Closed?
  {
    if events != [] {
      InSnoc(events);
      ClosedIsAbsorbing(l, events[..|events| - 1]);
    }
  }

  lemma HasRstSnoc(events: seq<Event>)
    requires events != []
    ensures var n := |events| - 1;
      HasRst(events) <==> HasRst(events[..n]) || events[n].RstReceived? || events[n].RstSent?
  {
    var n := |events| - 1;
    assert forall i :: 0 <= i < n ==> events[..n][i] == events[i];
    if HasRst(events[..n]) {
      var i :| 0 <= i < n && (events[..n][i].RstReceived? || events[..n][i].RstSent?);
      assert events[i].RstReceived? || events[i].RstSent?;
    }
  }

  /** Whatever callers do with a fresh stream, a reserved, half-closed or closed state has its reason. */
  lemma {:induction false} StateHasItsReason(events: seq<Event>)
    ensures var l := Run(FRESH, events);
      && (l.state.HalfClosedRemote? ==> l.endReceived || ReserveLocal in events)
      && (l.state.HalfClosedLocal? ==> l.endSent)
      && (l.state.Closed? && !HasRst(events) ==> l.endSent && (l.endReceived || ReserveLocal in events))
      && (l.state.ReservedLocal? ==> ReserveLocal in events)
      && (l.state.ReservedRemote? ==> ReserveRemote in events)
  {
    if events != [] {
      StateHasItsReason(events[..|events| - 1]);
      HasRstSnoc(events);
      InSnoc(events);
    }
  }

  /** A promised stream reaches half-closed (remote) with nothing received. */
  lemma PushedStreamIsHalfClosed()
    ensures Run(FRESH, [ReserveLocal, HeadersSent(false)]) == Life(HalfClosedRemote, false, false)
  {
    var events := [ReserveLocal, HeadersSent(false)];
    assert events[..1] == [ReserveLocal] && events[..1][..0] == [];
  }

  // ----- guarded runs -----

  /** In a guarded run the state is a function of how the stream began and of the two flags. */
  function StateFor(events: seq<Event>, endReceived: bool, endSent: bool): State {
    if HasRst(events) then Closed
    else if events == [] then Idle
    else if events[0].ReserveRemote? then State.ReservedRemote
    else if events == [ReserveLocal] then State.ReservedLocal
    else
      var remoteDone := endReceived || events[0].ReserveLocal?;
      if remoteDone && endSent then Closed
      else if remoteDone then HalfClosedRemote
      else if endSent then HalfClosedLocal
      else Open
  }

  lemma {:induction false} StateIsTheFlags(events: seq<Event>)
    requires GuardedRun(FRESH, events)
    ensures var l := Run(FRESH, events); l.state == StateFor(events, l.endReceived, l.endSent)
    ensures events == [] || events == [ReserveLocal] ==>
      !Run(FRESH, events).endReceived && !Run(FRESH, events).endSent
    ensures events != [] && events[0].ReserveLocal? ==> !Run(FRESH, events).endReceived
    ensures events != [] && events[0].ReserveRemote? ==> !Run(FRESH, events).endSent
  {
    if events != [] {
      var n := |events| - 1;
      var init := events[..n];
      StateIsTheFlags(init);
      HasRstSnoc(events);
      assert n > 0 ==> init[0] == events[0];
      assert events == init + [events[n]];
      assert n == 1 ==> init == [init[0]];
    }
  }

  predicate EndsSending(e: Event) {
    (e.HeadersSent? || e.DataSent?) && e.end
  }

  predicate EndsReceiving(e: Event) {
    (e.HeadersReceived? || e.DataReceived?) && e.end
  }

  predicate IsSend(e: Event) {
    e.HeadersSent? || e.DataSent?
  }

  predicate IsReceive(e: Event) {
    e.HeadersReceived? || e.DataReceived?
  }

  lemma {:induction false} FlagsStick(l: Life, events: seq<Event>, i: nat)
    requires i < |events|
    ensures EndsSending(events[i]) ==> Run(l, events).endSent
    ensures EndsReceiving(events[i]) ==> Run(l, events).endReceived
  {
    var n := |events| - 1;
    if i < n {
      FlagsStick(l, events[..n], i);
    }
  }

  lemma {:induction false} GuardedPrefix(l: Life, events: seq<Event>, n: nat)
    requires n <= |events| && GuardedRun(l, events)
    ensures GuardedRun(l, events[..n])
    ensures n < |events| ==> Guarded(Run(l, events[..n]).state, events[n])
  {
    if n < |events| {
      var m := |events| - 1;
      if n < m {
        GuardedPrefix(l, events[..m], n);
        assert events[..m][..n] == events[..n];
      }
    } else {
      assert events[..n] == events;
    }
  }

  /**
    * After END_STREAM, or after a reset, nothing more goes in that direction. A stream reserved by
    * the peer is the exception: see PushedStreamsTakeHeadersForever.
    */
  lemma NothingAfterTheEnd(events: seq<Event>, i: nat, j: nat)
    requires GuardedRun(FRESH, events) && i < j < |events|
    ensures EndsSending(events[i]) ==> !IsSend(events[j])
    ensures EndsReceiving(events[i]) && !events[0].ReserveRemote? ==> !IsReceive(events[j])
    ensures events[i].RstReceived? || events[i].RstSent? ==> !IsSend(events[j]) && !IsReceive(events[j])
  {
    var before := events[..j];
    GuardedPrefix(FRESH, events, j);
    assert before[i] == events[i] && before[0] == events[0];
    FlagsStick(FRESH, before, i);
    StateIsTheFlags(before);
    assert before[i].RstReceived? || before[i].RstSent? ==> HasRst(before);
  }

  /** On a stream reserved by the peer every further HEADERS is allowed, after END_STREAM too. */
  lemma {:induction false} PushedStreamsTakeHeadersForever(headers: seq<Event>)
    requires forall i :: 0 <= i < |headers| ==> headers[i].HeadersReceived?
    ensures GuardedRun(FRESH, [ReserveRemote] + headers)
    ensures Run(FRESH, [ReserveRemote] + headers).state.ReservedRemote?
  {
    var events := [ReserveRemote] + headers;
    var n := |headers|;
    if n == 0 {
      assert events == [ReserveRemote] && events[..0] == [];
    } else {
      PushedStreamsTakeHeadersForever(headers[..n - 1]);
      assert events[..n] == [ReserveRemote] + headers[..n - 1];
    }
  }

  /** Without the guards an open stream can already carry END_STREAM. */
  lemma UnguardedOpenWithEnd()
    ensures var events := [DataReceived(true), HeadersReceived(false)];
      Run(FRESH, events) == Life(Open, true, false) && !GuardedRun(FRESH, events)
  {
    var events := [DataReceived(true), HeadersReceived(false)];
    assert events[..1] == [DataReceived(true)] && events[..1][..0] == [];
    assert Run(FRESH, events[..1]) == Life(Idle, true, false);
    assert GuardedRun(FRESH, events) ==> GuardedRun(FRESH, events[..1]);
  }

  // ----- against section 5.1 of RFC 9113 -----

  /** A stream as the RFC sees it; `discarding` marks one reset by us while the peer could still be sending. */
  datatype RfcLife = RfcLife(state: State, discarding: bool)

  /**
    * Figure 2 with the prose beneath it: the next state, or None where an endpoint must not send
    * the frame or must treat receiving it as an error. After our reset from open or half-closed
    * (local) any frame may still arrive and is discarded.
    */
  function RfcNext(r: RfcLife, e: Event): Option<RfcLife> {
    if r.discarding && IsReceive(e) then Some(r)
    else match RfcNextState(r.state, e)
      case None => None
      case Some(s) => Some(RfcLife(s, r.discarding || (e.RstSent? && (r.state.Open? || r.state.HalfClosedLocal?))))
  }

  function RfcNextState(s: State, e: Event): Option<State> {
    match s
    case Idle =>
      (match e
       case HeadersReceived(end) => Some(if end then HalfClosedRemote else Open)
       case HeadersSent(end) => Some(if end then HalfClosedLocal else Open)
       case ReserveLocal => Some(State.ReservedLocal)
       case ReserveRemote => Some(State.ReservedRemote)
       case _ => None)
    case ReservedLocal =>
      (match e
       case HeadersSent(end) => Some(if end then Closed else HalfClosedRemote)
       case RstReceived => Some(Closed)
       case RstSent => Some(Closed)
       case _ => None)
    case ReservedRemote =>
      (match e
       case HeadersReceived(end) => Some(if end then Closed else HalfClosedLocal)
       case RstReceived => Some(Closed)
       case RstSent => Some(Closed)
       case _ => None)
    case Open =>
      (match e
       case HeadersReceived(end) => Some(if end then HalfClosedRemote else Open)
       case DataReceived(end) => Some(if end then HalfClosedRemote else Open)
       case HeadersSent(end) => Some(if end then HalfClosedLocal else Open)
       case DataSent(end) => Some(if end then HalfClosedLocal else Open)
       case RstReceived => Some(Closed)
       case RstSent => Some(Closed)
       case _ => None)
    case HalfClosedLocal =>
      (match e
       case HeadersReceived(end) => Some(if end then Closed else HalfClosedLocal)
       case DataReceived(end) => Some(if end then Closed else HalfClosedLocal)
       case RstReceived => Some(Closed)
       case RstSent => Some(Closed)
       case _ => None)
    case HalfClosedRemote =>
      (match e
       case HeadersSent(end) => Some(if end then Closed else HalfClosedRemote)
       case DataSent(end) => Some(if end then Closed else HalfClosedRemote)
       case RstReceived => Some(Closed)
       case RstSent => Some(Closed)
       case _ => None)
    case Closed => if e.RstReceived? then Some(Closed) else None  // a late reset is ignored
  }

  /** The can* queries allow HEADERS and DATA exactly where the RFC does, but for what arrives after our own reset. */
  lemma GuardsAreTheRfcs(r: RfcLife, e: Event)
    requires IsSend(e) || IsReceive(e)
    requires r.discarding ==> r.state.Closed?
    ensures RfcNext(r, e).Some? <==> Guarded(r.state, e) || (r.discarding && IsReceive(e))
  {
  }

  /** Where the RFC has a next state it is the implementation's, except for HEADERS on a stream reserved by the peer. */
  lemma FollowsRfcIff(l: Life, r: RfcLife, e: Event)
    requires r.state == l.state && (r.discarding ==> r.state.Closed?) && RfcNext(r, e).Some?
    ensures Step(l, e).state == RfcNext(r, e).value.state <==> !(l.state.ReservedRemote? && e.HeadersReceived?)
    ensures RfcNext(r, e).value.discarding ==> RfcNext(r, e).value.state.Closed?
  {
  }

  function RfcRun(events: seq<Event>): Option<RfcLife> {
    if events == [] then Some(RfcLife(Idle, false))
    else match RfcRun(events[..|events| - 1])
      case None => None
      case Some(r) => RfcNext(r, events[|events| - 1])
  }

  /** The guards, with resets limited to streams that can be reset. */
  predicate StrictlyGuarded(s: State, e: Event) {
    && Guarded(s, e)
    && (e.RstReceived? ==> !s.Idle?)
    && (e.RstSent? ==> !s.Idle? && !s.Closed?)
  }

  predicate StrictRun(events: seq<Event>) {
    events == [] ||
    (var n := |events| - 1;
     StrictRun(events[..n]) && StrictlyGuarded(Run(FRESH, events[..n]).state, events[n]))
  }

  /** HEADERS arrive while the stream is reserved by the peer. */
  predicate HeadersWhilePushed(events: seq<Event>) {
    events != [] &&
    (var n := |events| - 1;
     HeadersWhilePushed(events[..n]) || (Run(FRESH, events[..n]).state.ReservedRemote? && events[n].HeadersReceived?))
  }

  /** We reset the stream while it was open or half-closed (local). */
  predicate ResetWhileReceiving(events: seq<Event>) {
    events != [] &&
    (var n := |events| - 1;
     var s := Run(FRESH, events[..n]).state;
     ResetWhileReceiving(events[..n]) || (events[n].RstSent? && (s.Open? || s.HalfClosedLocal?)))
  }

  /** HEADERS or DATA arrive after such a reset. */
  predicate ReceivesAfterReset(events: seq<Event>) {
    events != [] &&
    (var n := |events| - 1;
     ReceivesAfterReset(events[..n]) || (ResetWhileReceiving(events[..n]) && IsReceive(events[n])))
  }

  /** At every moment of the trace the implementation is in the state the RFC prescribes. */
  predicate AgreesThroughout(events: seq<Event>) {
    && RfcRun(events).Some? && RfcRun(events).value.state == Run(FRESH, events).state
    && (events == [] || AgreesThroughout(events[..|events| - 1]))
  }

  /** On a trace the RFC allows, the implementation follows it throughout iff no HEADERS arrive while pushed. */
  lemma {:induction false} LegalRunFollowsRfcIff(events: seq<Event>)
    requires RfcRun(events).Some?
    ensures AgreesThroughout(events) <==> !HeadersWhilePushed(events)
    ensures RfcRun(events).value.discarding ==> RfcRun(events).value.state.Closed?
  {
    if events != [] {
      var n := |events| - 1;
      LegalRunFollowsRfcIff(events[..n]);
      var l, r := Run(FRESH, events[..n]), RfcRun(events[..n]).value;
      FollowsRfcIff(Life(r.state, l.endReceived, l.endSent), r, events[n]);
      if AgreesThroughout(events[..n]) {
        FollowsRfcIff(l, r, events[n]);
      }
    }
  }

  /**
    * Without HEADERS while pushed, the traces that pass the guards, with resets only where there is
    * something to reset, are exactly the traces the RFC allows in which nothing more is received
    * after our own reset of a stream that could receive.
    */
  lemma {:induction false} GuardedRunIsLegalIff(events: seq<Event>)
    requires !HeadersWhilePushed(events)
    ensures StrictRun(events) <==> RfcRun(events).Some? && !ReceivesAfterReset(events)
    ensures RfcRun(events).Some? ==>
      RfcRun(events) == Some(RfcLife(Run(FRESH, events).state, ResetWhileReceiving(events)))
    ensures ResetWhileReceiving(events) && RfcRun(events).Some? ==> Run(FRESH, events).state.Closed?
  {
    if events != [] {
      var n := |events| - 1;
      GuardedRunIsLegalIff(events[..n]);
      var l := Run(FRESH, events[..n]);
      if RfcRun(events[..n]).Some? {
        OneMoreEvent(l, RfcRun(events[..n]).value, events[n]);
      }
    }
  }

  lemma OneMoreEvent(l: Life, r: RfcLife, e: Event)
    requires r.state == l.state && (r.discarding ==> l.state.Closed?)
    requires !(l.state.ReservedRemote? && e.HeadersReceived?)
    ensures StrictlyGuarded(l.state, e) <==> RfcNext(r, e).Some? && !(r.discarding && IsReceive(e))
    ensures RfcNext(r, e).Some? ==>
      RfcNext(r, e) == Some(RfcLife(Step(l, e).state,
                                    r.discarding || (e.RstSent? && (l.state.Open? || l.state.HalfClosedLocal?))))
  {
  }

  /** A legal trace the guards refuse: DATA that was under way when we reset an open stream. */
  lemma DataAfterReset()
    ensures var events := [HeadersReceived(false), RstSent, DataReceived(false)];
      RfcRun(events) == Some(RfcLife(Closed, true)) && !GuardedRun(FRESH, events)
  {
    var events := [HeadersReceived(false), RstSent, DataReceived(false)];
    assert events[..2] == [HeadersReceived(false), RstSent] && events[..2][..1] == [HeadersReceived(false)];
    assert events[..2][..1][..0] == [];
    assert Run(FRESH, events[..2][..1]) == Life(Open, false, false);
    assert RfcRun(events[..2][..1]) == Some(RfcLife(Open, false));
    assert Run(FRESH, events[..2]) == Life(Closed, false, false);
    assert RfcRun(events[..2]) == Some(RfcLife(Closed, true));
  }

  /** A stream reserved by the peer stays reserved, and unable to receive data, until it is reset. */
  lemma {:induction false} ReservedRemoteIsStuck(l: Life, events: seq<Event>)
    requires l.state.ReservedRemote? && !HasRst(events) && ReserveLocal !in events
    ensures Run(l, events).state.ReservedRemote? && !CanReceiveData(Run(l, events).state)
  {
    if events != [] {
      HasRstSnoc(events);
      InSnoc(events);
      ReservedRemoteIsStuck(l, events[..|events| - 1]);
    }
  }
}
