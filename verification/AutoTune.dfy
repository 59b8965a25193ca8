/** Automatic input-delay tuning on the host: the delay is raised to a floor
    derived from the smoothed highest ping, raised by one before a resync under
    pressure, and lowered by one after 1200 stable frames. Smoothing is exact
    real arithmetic. */
module AutoTune {
  import opened Wrappers
  import opened NetplayTypes

  const MAX_AUTO_DELAY_FRAMES := 16
  const PING_SMOOTHING_ALPHA := 0.2
  const DELAY_DECAY_STABLE_FRAMES := 1200

  datatype ResyncReason = Unspecified | InitialSessionSync | ConfirmedDesync | HostStallRecovery | ClientStallRecovery
                        | AssignmentChanged | ManualForce | HostReset | HostLoadedState | ObserverVisibilityRestore

  datatype Participant = Participant(connected: bool, pingMs: nat)

  datatype Room = Room(
    sessionId: nat,
    state: SessionState,
    inputDelayFrames: nat,
    currentFrame: FrameNumber,
    inputModeNormal: bool,
    activeResyncId: nat,
    pendingResyncAckCount: nat,
    increaseBlockedUntilFrame: FrameNumber,
    participants: seq<Participant>)

  datatype Tuner = Tuner(
    enabled: bool,
    lastSessionId: nat,
    lastState: SessionState,
    recommendedDelay: nat,
    stableFrames: nat,
    lastEvaluatedFrame: FrameNumber,
    pingFloorDelay: nat,
    smoothedPingMs: real)

  const INITIAL: Tuner := Tuner(true, 0, Lobby, 1, 0, 0, 1, 0.0)

  // ---- What the calls do -----------------------------------------------------------

  function ClampDelay(frames: nat): (r: nat)
    ensures 1 <= r <= MAX_AUTO_DELAY_FRAMES
  {
    if frames < 1 then 1 else if frames > MAX_AUTO_DELAY_FRAMES then MAX_AUTO_DELAY_FRAMES else frames
  }

  /** The ping in frames, rounded to nearest. */
  function DelayForPing(fps: nat, pingMs: real): (r: nat)
    ensures 1 <= r <= MAX_AUTO_DELAY_FRAMES
  {
    var seconds := (if pingMs > 0.0 then pingMs else 0.0) / 1000.0;
    var frames := (Max(1, fps) as real * seconds + 0.5).Floor;
    ClampDelay(if frames < 0 then 0 else frames)
  }

  function HighestPing(ps: seq<Participant>): nat {
    if ps == [] then 0
    else
      var rest, last := HighestPing(ps[..|ps| - 1]), ps[|ps| - 1];
      if last.connected then Max(rest, last.pingMs) else rest
  }

  function Smooth(smoothed: real, ping: nat): real {
    if smoothed <= 0.0 then ping as real
    else smoothed * (1.0 - PING_SMOOTHING_ALPHA) + ping as real * PING_SMOOTHING_ALPHA
  }

  function UpdatePingFloor(t: Tuner, highest: nat, fps: nat): Tuner {
    if highest == 0 then (if t.smoothedPingMs == 0.0 then t.(pingFloorDelay := 1) else t)
    else
      var smoothed := Smooth(t.smoothedPingMs, highest);
      t.(smoothedPingMs := smoothed, pingFloorDelay := DelayForPing(fps, smoothed))
  }

  predicate SessionChanged(t: Tuner, room: Room) { t.lastSessionId != room.sessionId || t.lastState != room.state }

  function ForSession(t: Tuner, room: Room): Tuner {
    if SessionChanged(t, room)
    then t.(lastSessionId := room.sessionId, lastState := room.state, stableFrames := 0, lastEvaluatedFrame := 0,
            smoothedPingMs := 0.0, pingFloorDelay := 1)
    else t
  }

  predicate Stable(room: Room) {
    room.state == Running && room.inputModeNormal && room.activeResyncId == 0 && room.pendingResyncAckCount == 0
  }

  function Restarted(t: Tuner, frame: FrameNumber): Tuner { t.(stableFrames := 0, lastEvaluatedFrame := frame) }

  function Update(t: Tuner, room: Room, fps: nat): (Tuner, Option<nat>) {
    if !t.enabled then (Restarted(t, room.currentFrame).(recommendedDelay := room.inputDelayFrames), None)
    else Decide(UpdatePingFloor(ForSession(t, room), HighestPing(room.participants), fps), room)
  }

  /** What to recommend once the ping floor is known. */
  function Decide(t: Tuner, room: Room): (Tuner, Option<nat>) {
    var t1 := t.(recommendedDelay := ClampDelay(room.inputDelayFrames));
    if room.inputDelayFrames < t.pingFloorDelay then
      (Restarted(t1, room.currentFrame).(recommendedDelay := t.pingFloorDelay), Some(t.pingFloorDelay))
    else if !Stable(room) then (Restarted(t1, room.currentFrame), None)
    else if t.lastEvaluatedFrame == 0 && room.currentFrame == 0 then (t1, None)
    else if t.lastEvaluatedFrame != 0 && room.currentFrame <= t.lastEvaluatedFrame then (t1, None)
    else
      Decay(t1.(stableFrames := t.stableFrames + room.currentFrame - t.lastEvaluatedFrame,
                lastEvaluatedFrame := room.currentFrame), room)
  }

  /** Lowers the delay by one after enough stable frames, not below the floor. */
  function Decay(t: Tuner, room: Room): (Tuner, Option<nat>) {
    if room.inputDelayFrames > t.pingFloorDelay && t.stableFrames >= DELAY_DECAY_STABLE_FRAMES then
      var target := ClampDelay(room.inputDelayFrames - 1);
      if t.pingFloorDelay <= target < room.inputDelayFrames
      then (t.(stableFrames := 0, recommendedDelay := target), Some(target))
      else (t, None)
    else (t, None)
  }

  predicate UnderPressure(reason: ResyncReason) {
    reason == ConfirmedDesync || reason == HostStallRecovery || reason == ClientStallRecovery
  }

  function RecommendForResync(t: Tuner, room: Room, reason: ResyncReason): (Tuner, Option<nat>) {
    if !t.enabled || !UnderPressure(reason) || room.currentFrame < room.increaseBlockedUntilFrame then (t, None)
    else
      var current := ClampDelay(room.inputDelayFrames);
      var target := ClampDelay(Max(t.pingFloorDelay, current + 1));
      var t1 := Restarted(t, room.currentFrame);
      if target > current then (t1.(recommendedDelay := target), Some(target))
      else (t1.(recommendedDelay := current), None)
  }

  datatype Call =
    | SetEnabled(enabled: bool)
    | UpdateCall(room: Room, fps: nat)
    | ResyncCall(room: Room, reason: ResyncReason)

  function Step(t: Tuner, call: Call): (Tuner, Option<nat>) {
    match call
    case SetEnabled(enabled) => (t.(enabled := enabled), None)
    case UpdateCall(room, fps) => Update(t, room, fps)
    case ResyncCall(room, reason) => RecommendForResync(t, room, reason)
  }

  function Run(calls: seq<Call>): Tuner {
    if calls == [] then INITIAL else Step(Run(calls[..|calls| - 1]), calls[|calls| - 1]).0
  }

  // ---- Bounds of every recommendation ---------------------------------------------------

  lemma {:induction false} FloorIsBounded(calls: seq<Call>)
    ensures 1 <= Run(calls).pingFloorDelay <= 16
  {
    if calls != [] {
      FloorIsBounded(calls[..|calls| - 1]);
    }
  }

  /** Every recommended delay lies between the ping floor and 16. */
  lemma RecommendationsAreBounded(calls: seq<Call>, call: Call)
    ensures var (t, r) := Step(Run(calls), call);
            r.Some? ==> t.pingFloorDelay <= r.value <= 16 && t.recommendedDelay == r.value
  {
    FloorIsBounded(calls);
    FloorIsBounded(calls + [call]);
    assert (calls + [call])[..|calls|] == calls;
  }

  // ---- The smoothed ping ------------------------------------------------------------------

  predicate Resets(t: Tuner, call: Call) {
    call.UpdateCall? && t.enabled && SessionChanged(t, call.room)
  }

  /** The non-zero highest pings seen since the last reset. */
  function Observed(calls: seq<Call>): seq<nat> {
    if calls == [] then []
    else
      var before, call := calls[..|calls| - 1], calls[|calls| - 1];
      var kept := if Resets(Run(before), call) then [] else Observed(before);
      if call.UpdateCall? && Run(before).enabled && HighestPing(call.room.participants) != 0
      then kept + [HighestPing(call.room.participants)] else kept
  }

  lemma SmoothBetween(smoothed: real, ping: nat, lo: nat, hi: nat)
    requires smoothed > 0.0 ==> lo as real <= smoothed <= hi as real
    requires lo <= ping <= hi && ping > 0
    ensures lo as real <= Smooth(smoothed, ping) <= hi as real && Smooth(smoothed, ping) > 0.0
  {
    if smoothed > 0.0 {
      var a, p := 0.2, ping as real;
      assert smoothed * 0.8 >= lo as real * 0.8 && p * a >= lo as real * a;
      assert smoothed * 0.8 <= hi as real * 0.8 && p * a <= hi as real * a;
    }
  }

  /** The smoothed ping stays between the least and the greatest non-zero ping
      observed since the last reset, and is 0 when there was none. */
  lemma {:induction false} SmoothedWithinObserved(calls: seq<Call>, lo: nat, hi: nat)
    requires forall p :: p in Observed(calls) ==> lo <= p <= hi
    ensures Observed(calls) == [] <==> Run(calls).smoothedPingMs == 0.0
    ensures Observed(calls) != [] ==>
              Run(calls).smoothedPingMs > 0.0 && lo as real <= Run(calls).smoothedPingMs <= hi as real
  {
    if calls != [] {
      var before, call := calls[..|calls| - 1], calls[|calls| - 1];
      var t := Run(before);
      if call.UpdateCall? && t.enabled {
        var ping := HighestPing(call.room.participants);
        if Resets(t, call) {
          if ping != 0 {
            assert Observed(calls) == [ping];
            assert ping in Observed(calls);
            SmoothBetween(0.0, ping, lo, hi);
          }
        } else {
          assert forall p :: p in Observed(before) ==> p in Observed(calls);
          SmoothedWithinObserved(before, lo, hi);
          if ping != 0 {
            assert ping in Observed(calls);
            SmoothBetween(t.smoothedPingMs, ping, lo, hi);
          }
        }
      } else {
        assert Observed(calls) == Observed(before);
        SmoothedWithinObserved(before, lo, hi);
      }
    }
  }

  // ---- Exactly what is recommended -----------------------------------------------------------

  /** The delay for a ping reaches n frames, up to 16, exactly when the ping is at
      least n - 1/2 frame times; it is never below 1. */
  lemma DelayForPingExactly(fps: nat, pingMs: real, n: nat)
    requires 2 <= n <= 16
    ensures DelayForPing(fps, pingMs) >= n <==>
            pingMs > 0.0 && (if fps == 0 then 1 else fps) as real * (pingMs / 1000.0) >= n as real - 0.5
  {
    var x := Max(1, fps) as real * ((if pingMs > 0.0 then pingMs else 0.0) / 1000.0) + 0.5;
    assert n <= x.Floor <==> n as real <= x;
    if pingMs <= 0.0 {
      assert x == 0.5;
    }
  }

  /** The highest ping of the connected participants, 0 if there is none. */
  lemma {:induction false} HighestPingExactly(ps: seq<Participant>)
    ensures forall p :: p in ps && p.connected ==> p.pingMs <= HighestPing(ps)
    ensures HighestPing(ps) != 0 ==> exists p :: p in ps && p.connected && p.pingMs == HighestPing(ps)
  {
    if ps != [] {
      var front, last := ps[..|ps| - 1], ps[|ps| - 1];
      HighestPingExactly(front);
      assert ps == front + [last];
    }
  }

  /** Pings weighted with age: each new one counts for a fifth. */
  function Weighted(pings: seq<nat>): real {
    if pings == [] then 0.0
    else if |pings| == 1 then pings[0] as real
    else Weighted(pings[..|pings| - 1]) * 0.8 + pings[|pings| - 1] as real * 0.2
  }

  /** In every run the smoothed ping is the weighted mean of the pings since the
      last reset. */
  lemma {:induction false} SmoothedIsWeighted(calls: seq<Call>)
    ensures Run(calls).smoothedPingMs == Weighted(Observed(calls))
  {
    if calls != [] {
      var before, call := calls[..|calls| - 1], calls[|calls| - 1];
      SmoothedIsWeighted(before);
      PositiveWhenObserved(before);
      if call.UpdateCall? && Run(before).enabled && HighestPing(call.room.participants) != 0 {
        var kept := if Resets(Run(before), call) then [] else Observed(before);
        WeightedSnoc(kept, HighestPing(call.room.participants));
      }
    }
  }

  lemma WeightedSnoc(pings: seq<nat>, ping: nat)
    ensures Weighted(pings + [ping]) ==
            if pings == [] then ping as real else Weighted(pings) * 0.8 + ping as real * 0.2
  {
    assert (pings + [ping])[..|pings|] == pings;
  }

  lemma PositiveWhenObserved(calls: seq<Call>)
    ensures Observed(calls) == [] <==> Run(calls).smoothedPingMs == 0.0
    ensures Run(calls).smoothedPingMs >= 0.0
  {
    var hi := Bound(Observed(calls));
    SmoothedWithinObserved(calls, 0, hi);
  }

  lemma {:induction false} Bound(pings: seq<nat>) returns (hi: nat)
    ensures forall p :: p in pings ==> 0 <= p <= hi
  {
    if pings == [] {
      hi := 0;
    } else {
      var h := Bound(pings[..|pings| - 1]);
      hi := Max(h, pings[|pings| - 1]);
      assert pings == pings[..|pings| - 1] + [pings[|pings| - 1]];
    }
  }

  /** After an update the floor is the delay for the smoothed ping, if a ping was
      seen; without one it stays, or is 1 if none was ever seen. */
  lemma FloorExactly(t: Tuner, room: Room, fps: nat)
    requires t.enabled
    ensures var t', highest := Step(t, UpdateCall(room, fps)).0, HighestPing(room.participants);
            var reset := t.lastSessionId != room.sessionId || t.lastState != room.state;
            t'.pingFloorDelay ==
            if highest != 0 then DelayForPing(fps, t'.smoothedPingMs)
            else if reset || t.smoothedPingMs == 0.0 then 1
            else t.pingFloorDelay
    ensures var t' := Step(t, UpdateCall(room, fps)).0;
            t'.enabled && t'.lastSessionId == room.sessionId && t'.lastState == room.state
  {}

  /** Stable frames counted so far and the frame they were counted through; a
      session or state change starts both from 0. */
  function Counted(t: Tuner, room: Room): (nat, FrameNumber) {
    if t.lastSessionId != room.sessionId || t.lastState != room.state then (0, 0)
    else (t.stableFrames, t.lastEvaluatedFrame)
  }

  /** An update recommends the floor exactly when the delay is below it. Otherwise
      it recommends one frame less, and at most 16, exactly when the delay is
      above the floor, the session runs undisturbed, the frame is a new one, and
      1200 frames have been counted. */
  lemma RecommendsExactly(t: Tuner, room: Room, fps: nat)
    requires t.enabled && 1 <= t.pingFloorDelay <= 16
    ensures var (t', r) := Step(t, UpdateCall(room, fps));
            var (count, through) := Counted(t, room);
            var floor, delay := t'.pingFloorDelay, room.inputDelayFrames;
            if delay < floor then r == Some(floor)
            else if && delay > floor && room.state == Running && room.inputModeNormal && room.activeResyncId == 0
                    && room.pendingResyncAckCount == 0 && room.currentFrame > through
                    && count + (room.currentFrame - through) >= 1200
            then r == Some(if delay - 1 > 16 then 16 else delay - 1)
            else r == None
  {}

  /** What is counted afterwards: nothing after a recommendation or a disturbance,
      else all frames up to the current one, if it is a new one. */
  lemma CountsExactly(t: Tuner, room: Room, fps: nat)
    requires t.enabled && 1 <= t.pingFloorDelay <= 16
    ensures var (t', r) := Step(t, UpdateCall(room, fps));
            var (count, through) := Counted(t, room);
            var undisturbed := room.state == Running && room.inputModeNormal && room.activeResyncId == 0 &&
                               room.pendingResyncAckCount == 0;
            if r.Some? || !undisturbed then t'.stableFrames == 0 && t'.lastEvaluatedFrame == room.currentFrame
            else if room.currentFrame > through
            then t'.stableFrames == count + (room.currentFrame - through) && t'.lastEvaluatedFrame == room.currentFrame
            else t'.stableFrames == count && t'.lastEvaluatedFrame == through
  {}

  /** Before a resync the delay is raised exactly for a desync or a stall, when
      increases are not blocked and the delay is below 16: by one frame, or to
      the floor. */
  lemma RaisesExactly(t: Tuner, room: Room, reason: ResyncReason)
    requires 1 <= t.pingFloorDelay <= 16
    ensures var delay := if room.inputDelayFrames < 1 then 1 else room.inputDelayFrames;
            Step(t, ResyncCall(room, reason)).1 ==
            if && t.enabled
               && (reason == ConfirmedDesync || reason == HostStallRecovery || reason == ClientStallRecovery)
               && room.currentFrame >= room.increaseBlockedUntilFrame && delay < 16
            then Some(if delay + 1 < t.pingFloorDelay then t.pingFloorDelay else delay + 1)
            else None
  {}

  /** A tuner that is off recommends nothing; an update restarts its count. */
  lemma OffMeansNothing(t: Tuner, call: Call)
    requires !t.enabled
    ensures Step(t, call).1 == None
    ensures var t' := Step(t, call).0;
            && t'.smoothedPingMs == t.smoothedPingMs && t'.pingFloorDelay == t.pingFloorDelay
            && (call.UpdateCall? ==> t'.stableFrames == 0 && t'.lastEvaluatedFrame == call.room.currentFrame &&
                                     t'.recommendedDelay == call.room.inputDelayFrames)
            && (call.ResyncCall? ==> t' == t)
  {}

  /** The delay shown after an update is the recommended one, else the current one
      held between 1 and 16. */
  lemma StateAfterUpdate(t: Tuner, room: Room, fps: nat)
    requires t.enabled
    ensures var (t', r), delay := Step(t, UpdateCall(room, fps)), room.inputDelayFrames;
            t'.recommendedDelay ==
            if r.Some? then r.value else if delay < 1 then 1 else if delay > 16 then 16 else delay
  {}

  /** A resync that raises the delay, or would but for the limit of 16, restarts
      the count; any other changes nothing. */
  lemma StateAfterResync(t: Tuner, room: Room, reason: ResyncReason)
    ensures var (t', r), delay := Step(t, ResyncCall(room, reason)), room.inputDelayFrames;
            if && t.enabled
               && (reason == ConfirmedDesync || reason == HostStallRecovery || reason == ClientStallRecovery)
               && room.currentFrame >= room.increaseBlockedUntilFrame
            then && t'.stableFrames == 0 && t'.lastEvaluatedFrame == room.currentFrame
                 && t'.recommendedDelay == (if r.Some? then r.value else 16)
                 && t'.smoothedPingMs == t.smoothedPingMs && t'.pingFloorDelay == t.pingFloorDelay && t'.enabled
            else t' == t
  {}

  /** Switching the tuner on or off changes nothing else and recommends nothing. */
  lemma SwitchesExactly(t: Tuner, on: bool)
    ensures var (t', r) := Step(t, SetEnabled(on));
            r.None? && t'.enabled == on && t'.(enabled := t.enabled) == t
  {}

  // ---- Reductions are rare -------------------------------------------------------------------

  predicate Reduces(t: Tuner, call: Call) {
    call.UpdateCall? && Step(t, call).1.Some? && Step(t, call).1.value < call.room.inputDelayFrames
  }

  /** Stable frames are counted from `frame` at the earliest. */
  predicate CountsFrom(t: Tuner, frame: FrameNumber, now: FrameNumber) {
    0 < frame <= t.lastEvaluatedFrame <= now && t.stableFrames <= t.lastEvaluatedFrame - frame
  }

  function FrameOf(call: Call, now: FrameNumber): FrameNumber {
    if call.SetEnabled? then now else call.room.currentFrame
  }

  lemma StepKeepsCount(t: Tuner, call: Call, frame: FrameNumber, now: FrameNumber)
    requires CountsFrom(t, frame, now) && now <= FrameOf(call, now) && !Resets(t, call)
    ensures CountsFrom(Step(t, call).0, frame, FrameOf(call, now))
    ensures Reduces(t, call) ==> call.room.currentFrame >= frame + 1200
  {}

  lemma ReductionStartsCount(t: Tuner, call: Call)
    requires Reduces(t, call)
    ensures CountsFrom(Step(t, call).0, call.room.currentFrame, call.room.currentFrame)
  {}

  function After(t: Tuner, calls: seq<Call>): Tuner
    decreases calls
  {
    if calls == [] then t else After(Step(t, calls[0]).0, calls[1..])
  }

  /** Frames do not go back and no session or state change intervenes. */
  predicate Steady(t: Tuner, calls: seq<Call>, now: FrameNumber)
    decreases calls
  {
    calls == [] || (now <= FrameOf(calls[0], now) && !Resets(t, calls[0]) &&
                    Steady(Step(t, calls[0]).0, calls[1..], FrameOf(calls[0], now)))
  }

  lemma {:induction false} ReductionAfterCount(t: Tuner, calls: seq<Call>, last: Call, frame: FrameNumber,
                                               now: FrameNumber)
    requires CountsFrom(t, frame, now) && Steady(t, calls + [last], now)
    requires Reduces(After(t, calls), last)
    ensures last.room.currentFrame >= frame + 1200
    decreases calls
  {
    if calls == [] {
      assert calls + [last] == [last];
      StepKeepsCount(t, last, frame, now);
    } else {
      assert (calls + [last])[1..] == calls[1..] + [last];
      StepKeepsCount(t, calls[0], frame, now);
      ReductionAfterCount(Step(t, calls[0]).0, calls[1..], last, frame, FrameOf(calls[0], now));
    }
  }

  /** Two reductions with no reset between them are at least 1200 frames apart. */
  lemma ReductionsAreSpaced(t: Tuner, first: Call, calls: seq<Call>, last: Call)
    requires Reduces(t, first)
    requires Steady(Step(t, first).0, calls + [last], first.room.currentFrame)
    requires Reduces(After(Step(t, first).0, calls), last)
    ensures last.room.currentFrame >= first.room.currentFrame + 1200
  {
    ReductionStartsCount(t, first);
    ReductionAfterCount(Step(t, first).0, calls, last, first.room.currentFrame, first.room.currentFrame);
  }

  /** A reset lets the count start from frame 0: a reduction at frame 1200 of one
      session and another at frame 1201 of the next. */
  lemma ReductionsAcrossReset(first: Call, second: Call)
    requires first == UpdateCall(Room(1, Running, 3, 1200, true, 0, 0, 0, []), 60)
    requires second == UpdateCall(Room(2, Running, 2, 1201, true, 0, 0, 0, []), 60)
    ensures Reduces(INITIAL, first) && Reduces(Step(INITIAL, first).0, second)
  {
    assert HighestPing([]) == 0;
  }

  // ---- The tuner itself ------------------------------------------------------------------------

  class NetplayAutoTune {
    var enabled: bool
    var lastSessionId: nat
    var lastState: SessionState
    var recommendedDelay: nat
    var stableFrames: nat
    var lastEvaluatedFrame: FrameNumber
    var pingFloorDelay: nat
    var smoothedPingMs: real

    ghost function State(): Tuner
      reads this
    {
      Tuner(enabled, lastSessionId, lastState, recommendedDelay, stableFrames, lastEvaluatedFrame, pingFloorDelay,
            smoothedPingMs)
    }

    constructor ()
      ensures State() == INITIAL
    {
      enabled, lastSessionId, lastState, recommendedDelay := true, 0, Lobby, 1;
      stableFrames, lastEvaluatedFrame, pingFloorDelay, smoothedPingMs := 0, 0, 1, 0.0;
    }

    method HighestPeerPing(ps: seq<Participant>) returns (highest: nat)
      ensures highest == HighestPing(ps)
      ensures forall p :: p in ps && p.connected ==> p.pingMs <= highest
    {
      highest := 0;
      for i := 0 to |ps|
        invariant highest == HighestPing(ps[..i])
        invariant forall p :: p in ps[..i] && p.connected ==> p.pingMs <= highest
      {
        assert ps[..i + 1][..i] == ps[..i];
        if ps[i].connected && ps[i].pingMs != 0 {
          highest := Max(highest, ps[i].pingMs);
        }
      }
      assert ps[..|ps|] == ps;
    }

    method UpdateSmoothedPingFloor(room: Room, fps: nat)
      modifies this
      ensures State() == UpdatePingFloor(old(State()), HighestPing(room.participants), fps)
    {
      var highest := HighestPeerPing(room.participants);
      if highest == 0 {
        if smoothedPingMs == 0.0 {
          pingFloorDelay := 1;
        }
        return;
      }
      if smoothedPingMs <= 0.0 {
        smoothedPingMs := highest as real;
      } else {
        smoothedPingMs := smoothedPingMs * (1.0 - PING_SMOOTHING_ALPHA) + highest as real * PING_SMOOTHING_ALPHA;
      }
      pingFloorDelay := DelayForPing(fps, smoothedPingMs);
    }

    method RestartCount(frame: FrameNumber)
      modifies this
      ensures State() == Restarted(old(State()), frame)
    {
      stableFrames, lastEvaluatedFrame := 0, frame;
    }

    method UpdateDelay(room: Room, fps: nat) returns (recommended: Option<nat>)
      modifies this
      ensures (State(), recommended) == Step(old(State()), UpdateCall(room, fps))
    {
      recommended := None;
      if !enabled {
        recommendedDelay := room.inputDelayFrames;
        RestartCount(room.currentFrame);
        return;
      }
      if lastSessionId != room.sessionId || lastState != room.state {
        lastSessionId, lastState := room.sessionId, room.state;
        stableFrames, lastEvaluatedFrame, smoothedPingMs, pingFloorDelay := 0, 0, 0.0, 1;
      }
      UpdateSmoothedPingFloor(room, fps);
      recommended := DecideDelay(room);
    }

    method DecideDelay(room: Room) returns (recommended: Option<nat>)
      modifies this
      ensures (State(), recommended) == Decide(old(State()), room)
    {
      recommended := None;
      recommendedDelay := ClampDelay(room.inputDelayFrames);
      if room.inputDelayFrames < pingFloorDelay {
        recommendedDelay := pingFloorDelay;
        RestartCount(room.currentFrame);
        return Some(pingFloorDelay);
      }
      if room.state != Running || !room.inputModeNormal || room.activeResyncId != 0 || room.pendingResyncAckCount != 0 {
        RestartCount(room.currentFrame);
        return;
      }
      if lastEvaluatedFrame == 0 {
        lastEvaluatedFrame := room.currentFrame;
        if room.currentFrame == 0 {
          return;
        }
        stableFrames := stableFrames + room.currentFrame;
      } else if room.currentFrame <= lastEvaluatedFrame {
        return;
      } else {
        stableFrames := stableFrames + room.currentFrame - lastEvaluatedFrame;
        lastEvaluatedFrame := room.currentFrame;
      }
      if room.inputDelayFrames > pingFloorDelay && stableFrames >= DELAY_DECAY_STABLE_FRAMES {
        var target := ClampDelay(room.inputDelayFrames - 1);
        if target >= pingFloorDelay && target < room.inputDelayFrames {
          recommendedDelay := target;
          stableFrames := 0;
          return Some(target);
        }
      }
    }

    method RecommendForImpendingResync(room: Room, reason: ResyncReason) returns (recommended: Option<nat>)
      modifies this
      ensures (State(), recommended) == Step(old(State()), ResyncCall(room, reason))
    {
      recommended := None;
      if !enabled {
        return;
      }
      if !UnderPressure(reason) {
        return;
      }
      if room.currentFrame < room.increaseBlockedUntilFrame {
        return;
      }
      var current := ClampDelay(room.inputDelayFrames);
      var target := ClampDelay(Max(pingFloorDelay, current + 1));
      RestartCount(room.currentFrame);
      if target > current {
        recommendedDelay := target;
        return Some(target);
      }
      recommendedDelay := current;
    }
  }
}
