/** Why an h2c upgrade fails: every failure has exactly its cause, over every run. */
module H2cFailures {
  import opened Prelude
  import opened FrameHeader
  import opened H2cUpgrade

  // ----- what the server's answer amounts to -----

  datatype Verdict = Waiting | Taken | Refused(why: Failure)

  /** The verdict on everything the response parser has been given, by the last call of it. */
  function AnswerVerdict<S>(parser: Parser<S>, feeds: seq<Bytes>): Verdict {
    if feeds == [] then Waiting
    else
      var n := |feeds| - 1;
      var f := parser.Feed(Fed(parser, feeds[..n]), feeds[n]);
      var r := parser.read(f.state);
      if f.status == Malformed then Refused(ParseError)
      else if f.status == NeedMore || !r.complete then Waiting
      else if Accepted(r) then Taken
      else if r.code != 101 then Refused(Expected101(r.code))
      else match r.upgrade
        case None => Refused(MissingUpgrade)
        case Some(value) => Refused(InvalidUpgrade(value))
  }

  predicate IsAnswerFailure(why: Failure) {
    why.ParseError? || why.Expected101? || why.MissingUpgrade? || why.InvalidUpgrade?
  }

  /** An answer is refused at once and for good, and only refused answers end the upgrade that way. */
  ghost predicate AnswerExplained<S>(p: Plan<S>, m: Machine<S>) {
    match AnswerVerdict(p.parser, m.feeds)
    case Refused(why) => m.phase.RecvUpgradeResponse? && m.result == Some(Failed(why)) && IsAnswerFailure(why)
    case Taken => Rank(m.phase) < 4 && !AnswerFailed(m)
    case Waiting => Rank(m.phase) >= 4 && !AnswerFailed(m)
  }

  predicate AnswerFailed<S>(m: Machine<S>) {
    m.result.Some? && m.result.value.Failed? && IsAnswerFailure(m.result.value.why)
  }

  predicate FailedWith<S>(m: Machine<S>, why: Failure) {
    m.result == Some(Failed(why))
  }

  /** While the answer is awaited the parser has been offered every byte it did not consume. */
  ghost predicate AllOffered<S>(p: Plan<S>, m: Machine<S>) {
    if m.feeds == [] then m.buffer == []
    else
      var n := |m.feeds| - 1;
      m.buffer == m.feeds[n][p.parser.Feed(Fed(p.parser, m.feeds[..n]), m.feeds[n]).consumed..]
  }

  /** A whole frame never waits; one that is not SETTINGS is the failure. */
  ghost predicate FrameExplained<S>(m: Machine<S>) {
    forall kind: byte :: FailedWith(m, ExpectedSettings(kind)) <==>
      m.phase.RecvSettings? && HoldsFrame(m.buffer) && Deserialize(m.buffer).kind == kind
  }

  ghost predicate FullExplained<S>(p: Plan<S>, m: Machine<S>) {
    && (FailedWith(m, FullBefore101) <==>
          m.phase.RecvUpgradeResponse? && |m.buffer| >= p.capacity && AnswerVerdict(p.parser, m.feeds).Waiting?)
    && (FailedWith(m, FullBeforeSettings) <==>
          m.phase.RecvSettings? && |m.buffer| >= p.capacity && !HoldsFrame(m.buffer))
  }

  ghost predicate Explained<S>(p: Plan<S>, m: Machine<S>) {
    && AnswerExplained(p, m) && FrameExplained(m) && FullExplained(p, m)
    && (FailedWith(m, NotConnected) <==> !p.connected)
    && (m.phase.RecvUpgradeResponse? && m.result.None? ==> AllOffered(p, m))
    && (m.phase.SendUpgrade? ==> m.feeds == [])
  }

  /** Before settling: the answer is still awaited or has been taken, and nothing has failed. */
  ghost predicate Underway<S>(p: Plan<S>, m: Machine<S>) {
    && m.result.None? && p.connected && m.response == Fed(p.parser, m.feeds)
    && AnswerVerdict(p.parser, m.feeds) == (if Rank(m.phase) < 4 then Taken else Waiting)
    && (m.phase.RecvUpgradeResponse? && m.buffer == [] ==> AllOffered(p, m))
    && (m.phase.SendUpgrade? ==> m.feeds == [])
  }

  /** The parser is fed all that is buffered, and its verdict decides. */
  lemma ParseIsExplained<S>(p: Plan<S>, m: Machine<S>)
    requires Underway(p, m) && m.phase.RecvUpgradeResponse?
    ensures var (settled, m1) := ParseResponse(p, m);
      && m1.phase == m.phase && m1.response == Fed(p.parser, m1.feeds)
      && match AnswerVerdict(p.parser, m1.feeds)
         case Refused(why) => settled && FailedWith(m1, why) && IsAnswerFailure(why)
         case Taken => settled && m1.result.None?
         case Waiting => !settled && m1.result.None? && AllOffered(p, m1)
  {
    hide Fed, AnswerVerdict;
    if m.buffer != [] {
      FeedOnce(p.parser, m.feeds, m.buffer);
      VerdictOfLast(p.parser, m.feeds, m.buffer);
      var feeds := m.feeds + [m.buffer];
      assert feeds[..|feeds| - 1] == m.feeds;
    }
  }

  lemma VerdictOfLast<S>(parser: Parser<S>, feeds: seq<Bytes>, bytes: Bytes)
    ensures var f := parser.Feed(Fed(parser, feeds), bytes);
      var r, v := parser.read(f.state), AnswerVerdict(parser, feeds + [bytes]);
      && (f.status.Malformed? ==> v == Refused(ParseError))
      && (f.status.NeedMore? || (f.status.Parsed? && !r.complete) ==> v == Waiting)
      && (f.status.Parsed? && r.complete ==>
            v == match Judge(r) case None => Taken case Some(why) => Refused(why))
      && (v.Refused? ==> IsAnswerFailure(v.why))
  {
    hide Fed;
    assert (feeds + [bytes])[..|feeds|] == feeds;
  }

  lemma {:induction false} SettleExplains<S>(p: Plan<S>, m: Machine<S>)
    requires Underway(p, m)
    ensures Explained(p, Settle(p, m))
    decreases Rank(m.phase)
  {
    hide Fed, Deserialize, Accepted;
    if Sending(m.phase) {
      if m.sendOffset >= |p.Payload(m.phase)| {
        match m.phase
        case SendUpgrade => SettleExplains(p, m.(sendOffset := 0, phase := RecvUpgradeResponse));
        case SendPrefaceSettings => SettleExplains(p, m.(sendOffset := 0, phase := RecvSettings));
        case _ =>
      }
    } else if m.phase.RecvUpgradeResponse? {
      ParseIsExplained(p, m);
      var (settled, m1) := ParseResponse(p, m);
      if settled && m1.result.None? {
        SettleExplains(p, m1.(phase := SendPrefaceSettings));
      }
    } else if m.phase.RecvSettings? {
      var (settled, m1) := ConsumeSettings(m);
      if settled && m1.result.None? {
        SettleExplains(p, m1.(phase := SendAck));
      }
    }
  }

  /** A completion fails the upgrade by itself. */
  predicate Fatal(a: Action, c: Completion)
    requires Answers(a, c)
  {
    match c
    case Wrote(n) => n == 0 || n > |a.data|
    case WriteFailed => true
    case Received(bytes) => bytes == []
    case ReadFailed(_) => true
  }

  /** What a waiting machine becomes on a completion. */
  lemma OnWaiting<S>(p: Plan<S>, m: Machine<S>, c: Completion)
    requires Explained(p, m) && m.result.None? && Waits(p, m) && m.response == Fed(p.parser, m.feeds)
    requires p.connected && Answers(ActionOf(p, m), c)
    ensures var on := On(p, m, c);
      if Fatal(ActionOf(p, m), c) then Explained(p, on) && on.result.Some? && Settle(p, on) == on
      else Underway(p, on)
  {
    hide Fed, Deserialize, AnswerVerdict, Accepted, HoldsFrame;
  }

  /** Every failure of every run has its cause, and every cause its failure. */
  lemma {:induction false} RunIsExplained<S>(p: Plan<S>, completions: seq<Completion>)
    ensures Explained(p, Run(p, completions).machine)
  {
    hide Fed, Deserialize, Accepted, Settle, On, Explained, Underway, Fatal, WrittenSound;
    if completions == [] {
      StartIsExplained(p);
    } else {
      var n := |completions| - 1;
      RunIsExplained(p, completions[..n]);
      RunIsSound(p, completions[..n]);
      var m, c := Run(p, completions[..n]).machine, completions[n];
      if Answers(ActionOf(p, m), c) {
        ConnectedWhileWaiting(p, m);
        OnWaiting(p, m, c);
        if !Fatal(ActionOf(p, m), c) {
          SettleExplains(p, On(p, m, c));
        }
      }
    }
  }

  lemma ConnectedWhileWaiting<S>(p: Plan<S>, m: Machine<S>)
    requires Explained(p, m) && m.result.None?
    ensures p.connected
  {
  }

  lemma StartIsExplained<S>(p: Plan<S>)
    ensures Explained(p, Settle(p, Start(p)))
  {
    if p.connected {
      SettleExplains(p, Start(p));
    }
  }

  /**
    * The failures that completions cause by themselves: a write that fails or takes nothing or more
    * than was offered, a read that fails, a peer that closes.
    */
  lemma CompletionFailures<S>(p: Plan<S>, completions: seq<Completion>, c: Completion)
    requires Answers(ActionOf(p, Run(p, completions).machine), c)
    ensures var m := Run(p, completions).machine;
      var a, m1 := ActionOf(p, m), Next(p, Run(p, completions), c).machine;
      && (FailedWith(m1, SendFailed) <==> c == WriteFailed || c == Wrote(0) || (c.Wrote? && c.n > |a.data|))
      && (FailedWith(m1, ConnectionClosed) <==> c == ReadFailed(true))
      && (FailedWith(m1, ReceiveFailed) <==> c == ReadFailed(false))
      && (FailedWith(m1, PeerClosedBefore101) <==> c == Received([]) && m.phase.RecvUpgradeResponse?)
      && (FailedWith(m1, PeerClosedBeforeSettings) <==> c == Received([]) && m.phase.RecvSettings?)
  {
    RunIsExplained(p, completions);
    RunIsSound(p, completions);
    hide Run, Fed, Deserialize, Accepted, Explained, Underway, WrittenSound, Settle;
    var m := Run(p, completions).machine;
    ConnectedWhileWaiting(p, m);
    OnWaiting(p, m, c);
    if !Fatal(ActionOf(p, m), c) {
      SettleFailsOnlyByState(p, On(p, m, c));
    }
  }

  predicate ByState(why: Failure) {
    IsAnswerFailure(why) || why.FullBefore101? || why.FullBeforeSettings? || why.ExpectedSettings?
  }

  lemma {:induction false} SettleFailsOnlyByState<S>(p: Plan<S>, m: Machine<S>)
    requires m.result.None?
    ensures forall why :: FailedWith(Settle(p, m), why) ==> ByState(why)
    decreases Rank(m.phase)
  {
    hide Deserialize;
    if Sending(m.phase) {
      if m.sendOffset >= |p.Payload(m.phase)| {
        match m.phase
        case SendUpgrade => SettleFailsOnlyByState(p, m.(sendOffset := 0, phase := RecvUpgradeResponse));
        case SendPrefaceSettings => SettleFailsOnlyByState(p, m.(sendOffset := 0, phase := RecvSettings));
        case _ =>
      }
    } else if m.phase.RecvUpgradeResponse? {
      var (settled, m1) := ParseResponse(p, m);
      if settled && m1.result.None? {
        SettleFailsOnlyByState(p, m1.(phase := SendPrefaceSettings));
      }
    } else if m.phase.RecvSettings? {
      var (settled, m1) := ConsumeSettings(m);
      if settled && m1.result.None? {
        SettleFailsOnlyByState(p, m1.(phase := SendAck));
      }
    }
  }

  /** A complete answer that is no 101 for h2c ends the upgrade, whatever else happens, and says why. */
  lemma RefusedIff<S>(p: Plan<S>, completions: seq<Completion>, why: Failure)
    requires IsAnswerFailure(why)
    ensures var m := Run(p, completions).machine;
      FailedWith(m, why) <==> AnswerVerdict(p.parser, m.feeds) == Refused(why)
  {
    RunIsExplained(p, completions);
    hide Run, AnswerVerdict;
  }

  /** A wait for SETTINGS means that no whole frame is buffered, one for the answer that none was given yet. */
  lemma WaitsForMore<S>(p: Plan<S>, completions: seq<Completion>)
    requires Run(p, completions).machine.result.None?
    ensures var m := Run(p, completions).machine;
      && (m.phase.RecvSettings? ==> !HoldsFrame(m.buffer) && |m.buffer| < p.capacity)
      && (m.phase.RecvUpgradeResponse? ==>
            AnswerVerdict(p.parser, m.feeds).Waiting? && AllOffered(p, m) && |m.buffer| < p.capacity)
  {
    RunIsExplained(p, completions);
    hide Run, AnswerVerdict, AllOffered, Deserialize;
    var m := Run(p, completions).machine;
    assert m.phase.RecvSettings? && HoldsFrame(m.buffer) ==>
           FailedWith(m, ExpectedSettings(Deserialize(m.buffer).kind));
  }
}
