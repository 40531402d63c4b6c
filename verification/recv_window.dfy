/**
  * Receive-window replenishment with the default strategy, in the source's 32-bit arithmetic, over
  * whole runs of a peer that stays within its window.
  */
module RecvWindow {
  import opened Prelude

  const I32_MAX: nat := TWO31 - 1

  datatype Update = Update(connIncrement: uint32, streamIncrement: uint32)

  /** A configured value of zero selects the next fallback. */
  function ConnTarget(configured: uint32, localInitial: uint32): (t: uint32)
    ensures t > 0
  {
    if configured > 0 then configured else if localInitial > 0 then localInitial else DEFAULT_INITIAL_WINDOW
  }

  function StreamTarget(localInitial: uint32): (t: uint32)
    ensures t > 0
  {
    if localInitial > 0 then localInitial else DEFAULT_INITIAL_WINDOW
  }

  /** The first of a list that is not zero. */
  ghost predicate IsFirstPositive(t: uint32, settings: seq<uint32>) {
    exists k :: 0 <= k < |settings| && settings[k] == t > 0 && forall i :: 0 <= i < k ==> settings[i] == 0
  }

  /** Configured target, initial window, 65535: the first one set is the target, and no other. */
  lemma TargetsFallBack(configured: uint32, localInitial: uint32, t: uint32)
    ensures t == ConnTarget(configured, localInitial) <==> IsFirstPositive(t, [configured, localInitial, 65535])
    ensures t == StreamTarget(localInitial) <==> IsFirstPositive(t, [localInitial, 65535])
  {
    var conn, stream := [configured, localInitial, 65535], [localInitial, 65535];
    assert conn[0] == configured && conn[1] == localInitial && conn[2] == 65535;
    assert stream[0] == localInitial && stream[1] == 65535;
  }

  function LowWatermark(target: uint32): int32 {
    ToI32(ToU32(target * 3) / 4)
  }

  function Increment(window: int32, target: uint32): uint32 {
    if window < LowWatermark(target) then ToU32(target - ToU32(window)) else 0
  }

  /** The connection and the stream window are judged independently, each against its own target. */
  function EvaluateRecvWindowUpdate(configured: uint32, localInitial: uint32,
                                    connWindow: int32, streamWindow: int32): Update
  {
    Update(Increment(connWindow, ConnTarget(configured, localInitial)),
           Increment(streamWindow, StreamTarget(localInitial)))
  }

  // ----- one window -----

  /** Adding the increment the way the connection does, as a signed 32-bit delta. */
  function Replenish(window: int32, target: uint32): int {
    window + ToI32(Increment(window, target))
  }

  /** The watermark is three quarters of the target exactly when tripling does not wrap. */
  lemma WatermarkIff(target: uint32)
    ensures LowWatermark(target) == 3 * target / 4 <==> target <= 1431655765
  {
  }

  /** The windows for which one replenishment behaves as intended. */
  lemma ReplenishKeepsBand(window: int32, target: uint32)
    requires 2 <= target <= 1431655765 && window >= 0
    ensures var w := Replenish(window, target);
      && 1 <= 3 * target / 4 <= w <= Max(target, window)
      && w <= I32_MAX
      && (w == target || w == window)
    ensures Increment(window, target) <= I32_MAX
    ensures Increment(window, target) == if window < 3 * target / 4 then target - window else 0
  {
    hide LowWatermark, ToU32, ToI32;
    WatermarkIff(target);
    FitsThirtyOneBits(window);
    if window < target {
      FitsThirtyOneBits(target - window);
    }
    FitsThirtyOneBits(0);
  }

  lemma FitsThirtyOneBits(n: nat)
    requires n < TWO31
    ensures ToU32(n) == n && ToI32(n) == n
  {
  }

  // ----- runs -----

  /** The peer sends within the window, then the receiver replenishes. */
  predicate WithinWindow(window: int, target: uint32, sent: seq<nat>)
    decreases sent
  {
    sent == [] ||
    (sent[0] <= window <= I32_MAX && WithinWindow(Replenish(window - sent[0], target), target, sent[1..]))
  }

  function AfterRun(window: int, target: uint32, sent: seq<nat>): int
    requires WithinWindow(window, target, sent)
    decreases sent
  {
    if sent == [] then window else AfterRun(Replenish(window - sent[0], target), target, sent[1..])
  }

  /** In every such run the window never overflows and the peer always has room for at least a byte. */
  lemma {:induction false} RunKeepsBand(window: int32, target: uint32, sent: seq<nat>)
    requires 2 <= target <= 1431655765 && window >= 0 && sent != []
    requires WithinWindow(window, target, sent)
    ensures var w := AfterRun(window, target, sent);
      && 1 <= 3 * target / 4 <= w <= Max(target, window)
      && w <= I32_MAX
    decreases sent
  {
    hide Replenish, Increment, LowWatermark;
    ReplenishKeepsBand(window - sent[0], target);
    var next := Replenish(window - sent[0], target);
    if sent[1..] != [] {
      RunKeepsBand(next, target, sent[1..]);
    }
  }

  /** A stalled peer: a run it can reach that leaves it no window at all. */
  ghost predicate CanStall(target: uint32) {
    exists window: int32, sent: seq<nat> ::
      && window > 0 && sent != [] && WithinWindow(window, target, sent)
      && AfterRun(window, target, sent) <= 0
  }

  /** The targets, wrap-around included, for which a peer can never be stalled. */
  lemma NeverStallsIff(target: uint32)
    requires target > 0
    ensures !CanStall(target) <==> target <= I32_MAX && target * 3 % TWO32 >= 4
  {
    if target <= I32_MAX && target * 3 % TWO32 >= 4 {
      forall window: int32, sent: seq<nat> | window > 0 && sent != [] && WithinWindow(window, target, sent)
        ensures AfterRun(window, target, sent) > 0
      {
        AlwaysRoom(window, target, sent);
      }
    } else {
      var window: int32, sent: seq<nat> := 1, [1];
      EmptyWindowStays(target);
      assert sent[1..] == [];
      assert WithinWindow(window, target, sent) && AfterRun(window, target, sent) == Replenish(0, target);
    }
  }

  lemma EmptyWindowStays(target: uint32)
    requires target > 0 && (target > I32_MAX || target * 3 % TWO32 < 4)
    ensures Replenish(0, target) <= 0
  {
    assert ToU32(target - ToU32(0)) == target;
  }

  lemma RoomAfterOne(window: int32, target: uint32)
    requires 0 < target <= I32_MAX && target * 3 % TWO32 >= 4 && window >= 0
    ensures 1 <= Replenish(window, target) <= Max(window, target)
  {
    WatermarkBelow(target);
    FitsThirtyOneBits(window);
    FitsThirtyOneBits(0);
    hide LowWatermark, ToU32, ToI32;
    if window < LowWatermark(target) {
      FitsThirtyOneBits(target - window);
    }
  }

  lemma WatermarkBelow(target: uint32)
    requires 0 < target <= I32_MAX && target * 3 % TWO32 >= 4
    ensures 1 <= LowWatermark(target) <= target
  {
    assert target * 3 % TWO32 / 4 <= target;
  }

  lemma {:induction false} AlwaysRoom(window: int32, target: uint32, sent: seq<nat>)
    requires 0 < target <= I32_MAX && target * 3 % TWO32 >= 4
    requires window >= 0 && sent != [] && WithinWindow(window, target, sent)
    ensures 1 <= AfterRun(window, target, sent) <= Max(window, target)
    decreases sent
  {
    hide Replenish;
    RoomAfterOne(window - sent[0], target);
    if sent[1..] != [] {
      AlwaysRoom(Replenish(window - sent[0], target), target, sent[1..]);
    }
  }

  /** One target for which the watermark wraps to zero: a used-up window is never replenished. */
  lemma WrappedTargetStalls()
    ensures LowWatermark(1431655766) == 0 && CanStall(1431655766)
  {
    NeverStallsIff(1431655766);
  }

  // ----- the connection and all its streams in one run -----

  datatype Config = Config(configured: uint32, localInitial: uint32)

  datatype Receiver = Receiver(conn: int, streams: map<nat, int>)

  /** DATA of some size on a stream. */
  datatype Arrival = Arrival(stream: nat, size: nat)

  /** The peer keeps to both windows, which are signed 32-bit numbers. */
  predicate Allowed(r: Receiver, a: Arrival) {
    && a.stream in r.streams
    && a.size <= r.conn <= I32_MAX
    && a.size <= r.streams[a.stream] <= I32_MAX
  }

  /** Both windows go down by the size; then the increments are applied. */
  function Receive(c: Config, r: Receiver, a: Arrival): Receiver
    requires Allowed(r, a)
  {
    var conn, stream := r.conn - a.size, r.streams[a.stream] - a.size;
    var u := EvaluateRecvWindowUpdate(c.configured, c.localInitial, conn, stream);
    Receiver(conn + ToI32(u.connIncrement), r.streams[a.stream := stream + ToI32(u.streamIncrement)])
  }

  predicate AllowedRun(c: Config, r: Receiver, arrivals: seq<Arrival>)
    decreases |arrivals|, 0
  {
    arrivals == [] ||
    (var n := |arrivals| - 1;
     AllowedRun(c, r, arrivals[..n]) && Allowed(ReceiveAll(c, r, arrivals[..n]), arrivals[n]))
  }

  function ReceiveAll(c: Config, r: Receiver, arrivals: seq<Arrival>): Receiver
    requires AllowedRun(c, r, arrivals)
    decreases |arrivals|, 1
  {
    if arrivals == [] then r
    else Receive(c, ReceiveAll(c, r, arrivals[..|arrivals| - 1]), arrivals[|arrivals| - 1])
  }

  /** After an update a window lies between three quarters of its target and the larger of target and start. */
  predicate InBand(window: int, target: uint32, start: int) {
    1 <= 3 * target / 4 <= window <= Max(target, start) && window <= I32_MAX
  }

  /** Whether a stream took part in a run. */
  predicate Touched(arrivals: seq<Arrival>, stream: nat) {
    exists i :: 0 <= i < |arrivals| && arrivals[i].stream == stream
  }

  lemma TouchedSnoc(arrivals: seq<Arrival>)
    requires arrivals != []
    ensures var n := |arrivals| - 1;
      forall s :: Touched(arrivals, s) <==> Touched(arrivals[..n], s) || s == arrivals[n].stream
  {
    var n := |arrivals| - 1;
    forall s ensures Touched(arrivals, s) <==> Touched(arrivals[..n], s) || s == arrivals[n].stream {
      if Touched(arrivals[..n], s) {
        var i :| 0 <= i < n && arrivals[..n][i].stream == s;
        assert arrivals[i].stream == s;
      }
      if Touched(arrivals, s) && s != arrivals[n].stream {
        var i :| 0 <= i < |arrivals| && arrivals[i].stream == s;
        assert arrivals[..n][i].stream == s;
      }
    }
  }

  /**
    * In every run of a peer that keeps to both windows the connection and each stream that took part
    * stay in the band of their own target; the other streams keep their window.
    */
  lemma {:induction false} AllWindowsKeepTheirBands(c: Config, r: Receiver, arrivals: seq<Arrival>)
    requires 2 <= ConnTarget(c.configured, c.localInitial) <= 1431655765
    requires 2 <= StreamTarget(c.localInitial) <= 1431655765
    requires AllowedRun(c, r, arrivals)
    ensures var r' := ReceiveAll(c, r, arrivals);
      && r'.streams.Keys == r.streams.Keys
      && (if arrivals == [] then r'.conn == r.conn
          else InBand(r'.conn, ConnTarget(c.configured, c.localInitial), r.conn))
      && forall s :: s in r.streams ==>
           if Touched(arrivals, s) then InBand(r'.streams[s], StreamTarget(c.localInitial), r.streams[s])
           else r'.streams[s] == r.streams[s]
  {
    if arrivals != [] {
      hide InBand, Touched, Receive, ConnTarget, StreamTarget;
      var n := |arrivals| - 1;
      AllWindowsKeepTheirBands(c, r, arrivals[..n]);
      TouchedSnoc(arrivals);
      var before := ReceiveAll(c, r, arrivals[..n]);
      var a := arrivals[n];
      ReceiveReplenishesBoth(c, before, a);
      OneWindow(before.conn, a.size, ConnTarget(c.configured, c.localInitial), r.conn);
      OneWindow(before.streams[a.stream], a.size, StreamTarget(c.localInitial), r.streams[a.stream]);
    }
  }

  lemma ReceiveReplenishesBoth(c: Config, r: Receiver, a: Arrival)
    requires Allowed(r, a)
    ensures Receive(c, r, a) ==
      Receiver(Replenish(r.conn - a.size, ConnTarget(c.configured, c.localInitial)),
               r.streams[a.stream := Replenish(r.streams[a.stream] - a.size, StreamTarget(c.localInitial))])
  {
  }

  lemma OneWindow(window: int, size: nat, target: uint32, start: int)
    requires 2 <= target <= 1431655765 && size <= window <= I32_MAX
    requires window == start || InBand(window, target, start)
    ensures InBand(Replenish(window - size, target), target, start)
  {
    hide Replenish, Increment, LowWatermark;
    ReplenishKeepsBand(window - size, target);
  }
}
