/** Catching up: a lagging client simulates confirmed frames against the shared
    clock, an observer simulates them up to what the host has shown. The
    emulator is a step function of its state and the input of one frame. */
module CatchUp {
  import opened Wrappers
  import opened NetplayTypes

  /** The emulated machine: its state and the number of the next frame. */
  datatype Machine<State> = Machine(state: State, frame: FrameNumber)

  /** What the coordinator answers during one call. */
  datatype View<Input> = View(
    confirmedThrough: FrameNumber,
    playback: FrameNumber -> Option<Input>,
    frameStartMicros: FrameNumber -> nat)

  /** Answers that may differ in every iteration: the shared clock, and whether
      the console took the input and ran the frame. */
  datatype Answers = Answers(sharedNowMicros: nat -> nat, queued: nat -> bool, updated: nat -> bool)

  // ---- What the loops do -----------------------------------------------------------

  function SharedClockLoop<State, Input>(step: (State, Input) -> State, m: Machine<State>, v: View<Input>, a: Answers,
                                         maxFrames: nat, advanced: nat): Machine<State>
    decreases maxFrames - advanced
  {
    if advanced >= maxFrames || Due(v, a, m.frame, advanced).None? then m
    else
      var next := Machine(step(m.state, Due(v, a, m.frame, advanced).value), m.frame + 1);
      SharedClockLoop(step, next, v, a, maxFrames, advanced + 1)
  }

  /** The input with which the frame is run now: it is confirmed, its start has
      passed on the shared clock, and the console takes it. */
  function Due<Input>(v: View<Input>, a: Answers, frame: FrameNumber, advanced: nat): Option<Input> {
    var start, now := v.frameStartMicros(frame), a.sharedNowMicros(advanced);
    var ready := frame <= v.confirmedThrough && start != 0 && now != 0 && now >= start;
    if ready && a.queued(advanced) && a.updated(advanced) then v.playback(frame) else None
  }

  function ObserverLoop<State, Input>(step: (State, Input) -> State, m: Machine<State>, v: View<Input>, a: Answers,
                                      target: FrameNumber, advanced: nat): Machine<State>
    decreases target - m.frame
  {
    if m.frame >= target || v.playback(m.frame).None? || !a.queued(advanced) || !a.updated(advanced) then m
    else ObserverLoop(step, Machine(step(m.state, v.playback(m.frame).value), m.frame + 1), v, a, target, advanced + 1)
  }

  datatype Call<Input> =
    | SharedClock(view: View<Input>, answers: Answers, maxFrames: nat)
    | Observer(view: View<Input>, answers: Answers, maxFrames: nat, visibleFrame: Option<FrameNumber>)
    | Idle

  /** How far an observer may go: hosts up to the confirmed frontier, others no
      further than the frame the host has reported. */
  function ObserverTarget<Input>(v: View<Input>, localFrame: FrameNumber, maxFrames: nat,
                                 visibleFrame: Option<FrameNumber>): FrameNumber
  {
    var visible := if visibleFrame.Some? then Min(visibleFrame.value, v.confirmedThrough) else v.confirmedThrough;
    if visible < localFrame + maxFrames then visible else localFrame + maxFrames
  }

  function Step<State, Input>(step: (State, Input) -> State, m: Machine<State>, call: Call<Input>): Machine<State> {
    match call
    case SharedClock(v, a, maxFrames) => SharedClockLoop(step, m, v, a, maxFrames, 0)
    case Observer(v, a, maxFrames, visibleFrame) =>
      ObserverLoop(step, m, v, a, ObserverTarget(v, m.frame, maxFrames, visibleFrame), 0)
    case Idle => m
  }

  function Run<State, Input>(step: (State, Input) -> State, m: Machine<State>, calls: seq<Call<Input>>): Machine<State>
    decreases calls
  {
    if calls == [] then m else Run(step, Step(step, m, calls[0]), calls[1..])
  }

  // ---- Replaying the confirmed log ------------------------------------------------------

  /** The state after simulating frames [first, end) of the log, one after the other. */
  function Replay<State, Input>(step: (State, Input) -> State, log: FrameNumber -> Input, s: State,
                                first: FrameNumber, end: FrameNumber): State
    decreases end
  {
    if end <= first then s else step(Replay(step, log, s, first, end - 1), log(end - 1))
  }

  /** The coordinator builds frames only with the inputs of the agreed log. */
  ghost predicate Agrees<Input>(v: View<Input>, log: FrameNumber -> Input) {
    forall f: FrameNumber :: v.playback(f).Some? ==> v.playback(f).value == log(f)
  }

  ghost predicate CallAgrees<Input>(call: Call<Input>, log: FrameNumber -> Input) {
    call.Idle? || Agrees(call.view, log)
  }

  lemma {:induction false} ReplayFirst<State, Input>(step: (State, Input) -> State, log: FrameNumber -> Input, s: State,
                                                     first: FrameNumber, end: FrameNumber)
    requires first < end
    ensures Replay(step, log, s, first, end) == Replay(step, log, step(s, log(first)), first + 1, end)
    decreases end
  {
    if first + 1 < end {
      ReplayFirst(step, log, s, first, end - 1);
    } else {
      assert Replay(step, log, s, first, first) == s;
    }
  }

  lemma {:induction false} ReplayCompose<State, Input>(step: (State, Input) -> State, log: FrameNumber -> Input,
                                                       s: State,
                                                       a: FrameNumber, b: FrameNumber, c: FrameNumber)
    requires a <= b <= c
    ensures Replay(step, log, Replay(step, log, s, a, b), b, c) == Replay(step, log, s, a, c)
    decreases c
  {
    if b < c {
      ReplayCompose(step, log, s, a, b, c - 1);
    }
  }

  /** The machine moved forward by replaying the log, one frame at a time, by at
      most `most` frames, none of them beyond `last`. */
  ghost predicate Replayed<State, Input>(step: (State, Input) -> State, log: FrameNumber -> Input,
                                         m: Machine<State>, m': Machine<State>, most: nat, last: FrameNumber)
  {
    && m.frame <= m'.frame <= m.frame + most
    && (m.frame < m'.frame ==> m'.frame - 1 <= last)
    && m'.state == Replay(step, log, m.state, m.frame, m'.frame)
  }

  lemma ReplayedCons<State, Input>(step: (State, Input) -> State, log: FrameNumber -> Input,
                                   m: Machine<State>, m': Machine<State>, most: nat, last: FrameNumber)
    requires most > 0 && m.frame <= last
    requires Replayed(step, log, Machine(step(m.state, log(m.frame)), m.frame + 1), m', most - 1, last)
    ensures Replayed(step, log, m, m', most, last)
  {
    ReplayFirst(step, log, m.state, m.frame, m'.frame);
  }

  lemma {:induction false} SharedClockReplays<State, Input>(step: (State, Input) -> State, m: Machine<State>,
                                                            v: View<Input>, a: Answers,
                                                            maxFrames: nat, advanced: nat, log: FrameNumber -> Input)
    requires Agrees(v, log) && advanced <= maxFrames
    ensures Replayed(step, log, m, SharedClockLoop(step, m, v, a, maxFrames, advanced), maxFrames - advanced,
              v.confirmedThrough)
    decreases maxFrames - advanced
  {
    var m' := SharedClockLoop(step, m, v, a, maxFrames, advanced);
    if m' != m {
      var next := Machine(step(m.state, log(m.frame)), m.frame + 1);
      SharedClockReplays(step, next, v, a, maxFrames, advanced + 1, log);
      ReplayedCons(step, log, m, m', maxFrames - advanced, v.confirmedThrough);
    }
  }

  lemma {:induction false} ObserverReplays<State, Input>(step: (State, Input) -> State, m: Machine<State>,
                                                         v: View<Input>, a: Answers,
                                                         target: FrameNumber, advanced: nat, log: FrameNumber -> Input)
    requires Agrees(v, log)
    ensures var most := if m.frame < target then target - m.frame else 0;
            var last := if target > 0 then target - 1 else 0;
            Replayed(step, log, m, ObserverLoop(step, m, v, a, target, advanced), most, last)
    decreases target - m.frame
  {
    var m' := ObserverLoop(step, m, v, a, target, advanced);
    if m' != m {
      var next := Machine(step(m.state, log(m.frame)), m.frame + 1);
      ObserverReplays(step, next, v, a, target, advanced + 1, log);
      ReplayedCons(step, log, m, m', target - m.frame, target - 1);
    }
  }

  // ---- Exactly how far the loops get ------------------------------------------------------

  /** The j-th iteration of a call that began at frame `first` may run its frame:
      the frame is confirmed, has a start time that the shared clock has reached,
      can be built, and the console takes its input and runs it. */
  predicate MayRun<Input>(v: View<Input>, a: Answers, first: FrameNumber, j: nat) {
    && first + j <= v.confirmedThrough
    && 0 < v.frameStartMicros(first + j) <= a.sharedNowMicros(j)
    && v.playback(first + j).Some? && a.queued(j) && a.updated(j)
  }

  /** The shared-clock loop runs its k-th frame exactly when k is within the
      budget and that frame and every one before it may run. */
  lemma SharedClockRunsExactly<State, Input>(step: (State, Input) -> State, m: Machine<State>, v: View<Input>,
                                             a: Answers, maxFrames: nat, k: nat)
    ensures m.frame + k < Step(step, m, SharedClock(v, a, maxFrames)).frame <==>
            k < maxFrames && forall j :: 0 <= j <= k ==> MayRun(v, a, m.frame, j)
  {
    SharedClockReaches(step, m, v, a, maxFrames, m.frame, 0, k);
  }

  lemma {:induction false} SharedClockReaches<State, Input>(step: (State, Input) -> State, m: Machine<State>,
                                                            v: View<Input>, a: Answers, maxFrames: nat,
                                                            first: FrameNumber, i: nat, k: nat)
    requires m.frame == first + i
    ensures m.frame <= SharedClockLoop(step, m, v, a, maxFrames, i).frame
    ensures i <= k ==> (first + k < SharedClockLoop(step, m, v, a, maxFrames, i).frame <==>
                        k < maxFrames && forall j :: i <= j <= k ==> MayRun(v, a, first, j))
    decreases maxFrames - i
  {
    if i < maxFrames && MayRun(v, a, first, i) {
      var next := Machine(step(m.state, v.playback(m.frame).value), m.frame + 1);
      SharedClockReaches(step, next, v, a, maxFrames, first, i + 1, k);
    }
  }

  predicate MayShow<Input>(v: View<Input>, a: Answers, first: FrameNumber, j: nat) {
    v.playback(first + j).Some? && a.queued(j) && a.updated(j)
  }

  /** The observer loop runs its k-th frame exactly when k is within the budget,
      the frame is below the confirmed frontier and the frame the host has shown,
      and it and every one before it can be built, is taken and is run. */
  lemma ObserverRunsExactly<State, Input>(step: (State, Input) -> State, m: Machine<State>, v: View<Input>, a: Answers,
                                          maxFrames: nat, visibleFrame: Option<FrameNumber>, k: nat)
    ensures m.frame + k < Step(step, m, Observer(v, a, maxFrames, visibleFrame)).frame <==>
            && k < maxFrames && m.frame + k < v.confirmedThrough
            && (visibleFrame.Some? ==> m.frame + k < visibleFrame.value)
            && forall j :: 0 <= j <= k ==> MayShow(v, a, m.frame, j)
  {
    ObserverReaches(step, m, v, a, ObserverTarget(v, m.frame, maxFrames, visibleFrame), m.frame, 0, k);
  }

  lemma {:induction false} ObserverReaches<State, Input>(step: (State, Input) -> State, m: Machine<State>,
                                                         v: View<Input>, a: Answers, target: FrameNumber,
                                                         first: FrameNumber, i: nat, k: nat)
    requires m.frame == first + i
    ensures m.frame <= ObserverLoop(step, m, v, a, target, i).frame
    ensures i <= k ==> (first + k < ObserverLoop(step, m, v, a, target, i).frame <==>
                        first + k < target && forall j :: i <= j <= k ==> MayShow(v, a, first, j))
    decreases target - m.frame
  {
    if m.frame < target && MayShow(v, a, first, i) {
      var next := Machine(step(m.state, v.playback(m.frame).value), m.frame + 1);
      ObserverReaches(step, next, v, a, target, first, i + 1, k);
    }
  }

  /** One call simulates consecutive frames, each once with its confirmed
      input, at most maxFrames of them and none past the confirmed frontier. */
  lemma StepReplays<State, Input>(step: (State, Input) -> State, m: Machine<State>, call: Call<Input>,
                                  log: FrameNumber -> Input)
    requires CallAgrees(call, log)
    ensures call.Idle? ==> Step(step, m, call) == m
    ensures !call.Idle? ==> Replayed(step, log, m, Step(step, m, call), call.maxFrames, call.view.confirmedThrough)
    ensures m.frame <= Step(step, m, call).frame
    ensures Step(step, m, call).state == Replay(step, log, m.state, m.frame, Step(step, m, call).frame)
  {
    match call
    case SharedClock(v, a, maxFrames) => SharedClockReplays(step, m, v, a, maxFrames, 0, log);
    case Observer(v, a, maxFrames, visible) =>
      ObserverReplays(step, m, v, a, ObserverTarget(v, m.frame, maxFrames, visible), 0, log);
    case Idle =>
  }

  lemma {:induction false} RunReplays<State, Input>(step: (State, Input) -> State, m: Machine<State>,
                                                    calls: seq<Call<Input>>,
                                                    log: FrameNumber -> Input)
    requires forall c :: c in calls ==> CallAgrees(c, log)
    ensures m.frame <= Run(step, m, calls).frame
    ensures Run(step, m, calls).state == Replay(step, log, m.state, m.frame, Run(step, m, calls).frame)
    decreases calls
  {
    if calls != [] {
      var m1 := Step(step, m, calls[0]);
      StepReplays(step, m, calls[0], log);
      RunReplays(step, m1, calls[1..], log);
      ReplayCompose(step, log, m.state, m.frame, m1.frame, Run(step, m, calls).frame);
    }
  }

  /** Two peers that start from one state and frame and follow the same
      confirmed log agree whenever they reach the same frame, however their
      catch-up calls were mixed, cut short or refused. */
  lemma PeersAgree<State, Input>(step: (State, Input) -> State, m: Machine<State>, log: FrameNumber -> Input,
                                 a: seq<Call<Input>>, b: seq<Call<Input>>)
    requires forall c :: c in a ==> CallAgrees(c, log)
    requires forall c :: c in b ==> CallAgrees(c, log)
    ensures Run(step, m, a).frame == Run(step, m, b).frame ==> Run(step, m, a) == Run(step, m, b)
  {
    RunReplays(step, m, a, log);
    RunReplays(step, m, b, log);
  }

  // ---- The catch-up calls -------------------------------------------------------------

  class Console<State, Input> {
    const step: (State, Input) -> State
    var state: State
    var frameCount: FrameNumber

    ghost function Current(): Machine<State>
      reads this
    {
      Machine(state, frameCount)
    }

    constructor (step: (State, Input) -> State, state: State, frameCount: FrameNumber)
      ensures this.step == step && Current() == Machine(state, frameCount)
    {
      this.step, this.state, this.frameCount := step, state, frameCount;
    }

    /** Queues the input of the next frame and runs it; either may be refused. */
    method RunFrame(input: Input, queued: bool, updated: bool) returns (ran: bool)
      modifies this
      ensures ran == (queued && updated)
      ensures Current() == if ran then Machine(step(old(state), input), old(frameCount) + 1) else old(Current())
    {
      if !queued {
        return false;
      }
      if !updated {
        return false;
      }
      state, frameCount := step(state, input), frameCount + 1;
      ran := true;
    }
  }

  datatype Room = Room(
    active: bool,
    running: bool,
    hosting: bool,
    hasLocalSlots: bool,
    timelineEpoch: nat,
    currentFrame: FrameNumber,
    lastAuthoritativeClockFrame: FrameNumber,
    lastAuthoritativeClockMicros: nat,
    sharedClockSynchronized: bool)

  const MILLISECOND := 1_000_000
  const LAG_TRIGGER_FRAMES := 2
  const LAG_PERSISTENCE := 250 * MILLISECOND
  const RESYNC_REQUEST_COOLDOWN := 1500 * MILLISECOND

  function FrameMicros(fps: nat): (r: nat)
    ensures r > 0
  {
    var micros := 1000000 / (if fps == 0 then 1 else fps);
    if micros == 0 then 1 else micros
  }

  /** How many frames the host is estimated to be ahead, by the shared clock. */
  function EstimatedLag(room: Room, sharedNowMicros: nat, fps: nat, localFrame: FrameNumber): nat {
    if room.lastAuthoritativeClockFrame == 0 || room.lastAuthoritativeClockMicros == 0 || !room.sharedClockSynchronized
       || sharedNowMicros <= room.lastAuthoritativeClockMicros then 0
    else
      var elapsed := (sharedNowMicros - room.lastAuthoritativeClockMicros) / FrameMicros(fps);
      var host := room.lastAuthoritativeClockFrame + elapsed;
      if host > localFrame then host - localFrame else 0
  }

  // ---- Catching up or asking for a resync --------------------------------------------

  /** What a shared-clock call finds: times are nanoseconds, `accepted` is the
      coordinator's answer to a resync request. */
  datatype Query = Query(
    room: Room,
    sharedNowMicros: nat,
    now: nat,
    consoleValid: bool,
    fps: nat,
    maxFrames: nat,
    requireLagTrigger: bool,
    accepted: bool,
    localFrame: FrameNumber,
    confirmedThrough: FrameNumber)
  {
    function Lag(): nat { EstimatedLag(room, sharedNowMicros, fps, localFrame) }

    function ConfirmedLag(): nat { if confirmedThrough > localFrame then confirmedThrough - localFrame else 0 }

    predicate Eligible() { maxFrames > 0 && !room.hosting && room.active && room.running && consoleValid }

    /** The lag trigger sends the call home before it looks at the budget. */
    predicate TurnedAway() {
      Eligible() && requireLagTrigger && (Lag() < LAG_TRIGGER_FRAMES || localFrame >= confirmedThrough)
    }

    predicate Engaged() { Eligible() && !TurnedAway() }

    predicate WithinBudget() { Engaged() && Lag() <= maxFrames }

    /** Both the clock and the confirmed input are further ahead than the budget. */
    predicate OverBudget() { Eligible() && Lag() > maxFrames && ConfirmedLag() > maxFrames }
  }

  /** Time 0 stands for "not set". */
  datatype Requests = Requests(lagOverBudgetSince: nat, lastRequestAt: nat, pending: bool, epoch: nat)

  const NO_REQUESTS: Requests := Requests(0, 0, false, 0)

  /** The request state after a call, and whether it asked for a resync. */
  function Decide(c: Requests, q: Query): (Requests, bool) {
    if !q.Eligible() then (c, false)
    else
      var resynced := c.pending && q.room.timelineEpoch != c.epoch;
      var c1 := if resynced then c.(pending := false, lagOverBudgetSince := 0) else c;
      if !q.Engaged() then (c1, false)
      else if !q.OverBudget() then (c1.(lagOverBudgetSince := 0), false)
      else
        var c2 := c1.(lagOverBudgetSince := if c1.lagOverBudgetSince == 0 then q.now else c1.lagOverBudgetSince);
        if q.now - c2.lagOverBudgetSince < LAG_PERSISTENCE then (c2, false)
        else if c2.lastRequestAt != 0 && q.now - c2.lastRequestAt < RESYNC_REQUEST_COOLDOWN then (c2, false)
        else if q.accepted then (c2.(pending := true, epoch := q.room.timelineEpoch, lastRequestAt := q.now), true)
        else (c2.(pending := false), true)
  }

  // ---- Exactly when a call catches up or asks --------------------------------------------

  /** Whole frames fit into a time: the quotient reaches n exactly when n frames do. */
  lemma QuotientReaches(time: nat, d: nat, n: nat)
    requires d > 0
    ensures n <= time / d <==> n * d <= time
  {
    var q := time / d;
    assert time == q * d + time % d;
    if n <= q {
      MultiplesAscend(n, q, d);
    } else {
      MultiplesAscend(q + 1, n, d);
    }
  }

  lemma {:induction false} MultiplesAscend(a: nat, b: nat, d: nat)
    requires a <= b
    ensures a * d <= b * d
    decreases b
  {
    if a < b {
      MultiplesAscend(a, b - 1, d);
    }
  }

  /** The estimated lag is at least n exactly when the shared clock is known and
      synchronised, has passed the host's last report, and enough frame times
      have gone by since for the host to be n frames ahead. */
  lemma LagExactly(q: Query, n: nat)
    requires n > 0
    ensures var frameMicros := if q.fps == 0 then 1_000_000 else if q.fps > 1_000_000 then 1 else 1_000_000 / q.fps;
            var ahead := q.localFrame + n - q.room.lastAuthoritativeClockFrame;
            q.Lag() >= n <==>
            && q.room.lastAuthoritativeClockFrame != 0 && q.room.lastAuthoritativeClockMicros != 0
            && q.room.sharedClockSynchronized && q.sharedNowMicros > q.room.lastAuthoritativeClockMicros
            && (ahead <= 0 || ahead * frameMicros <= q.sharedNowMicros - q.room.lastAuthoritativeClockMicros)
  {
    var frameMicros := if q.fps == 0 then 1_000_000 else if q.fps > 1_000_000 then 1 else 1_000_000 / q.fps;
    FrameMicrosExactly(q.fps);
    var ahead := q.localFrame + n - q.room.lastAuthoritativeClockFrame;
    if q.sharedNowMicros > q.room.lastAuthoritativeClockMicros && ahead > 0 {
      QuotientReaches(q.sharedNowMicros - q.room.lastAuthoritativeClockMicros, frameMicros, ahead);
    }
  }

  lemma FrameMicrosExactly(fps: nat)
    ensures FrameMicros(fps) == if fps == 0 then 1_000_000 else if fps > 1_000_000 then 1 else 1_000_000 / fps
  {
    if 0 < fps <= 1_000_000 {
      QuotientReaches(1_000_000, fps, 1);
    } else if fps > 1_000_000 {
      QuotientReaches(1_000_000, fps, 1);
    }
  }

  /** A call runs the loop exactly when it is a running client's, the lag is
      within the budget, and the trigger, if required, sees at least 2 frames of
      lag and a confirmed frame to run. */
  lemma CatchesUpExactly(q: Query)
    ensures q.WithinBudget() <==>
            && q.maxFrames > 0 && !q.room.hosting && q.room.active && q.room.running && q.consoleValid
            && q.Lag() <= q.maxFrames
            && (q.requireLagTrigger ==> q.Lag() >= 2 && q.localFrame < q.confirmedThrough)
  {}

  /** A call asks for a resync exactly when it is a running client's, host and
      confirmed input are further ahead than the budget, that has been so for 250
      ms (not counting from before a resync), and the last accepted request is
      1500 ms old. */
  lemma AsksExactly(c: Requests, q: Query)
    ensures Decide(c, q).1 <==>
            && q.maxFrames > 0 && !q.room.hosting && q.room.active && q.room.running && q.consoleValid
            && q.Lag() > q.maxFrames && q.confirmedThrough > q.localFrame + q.maxFrames
            && c.lagOverBudgetSince != 0 && !(c.pending && q.room.timelineEpoch != c.epoch)
            && q.now - c.lagOverBudgetSince >= 250_000_000
            && (c.lastRequestAt == 0 || q.now - c.lastRequestAt >= 1_500_000_000)
  {}

  /** What a call remembers: the start of a lag over budget, and its own time and
      epoch if its request was accepted. */
  lemma RemembersExactly(c: Requests, q: Query)
    ensures var d := Decide(c, q).0;
            && (q.OverBudget() ==>
                  d.lagOverBudgetSince ==
                  if c.lagOverBudgetSince == 0 || (c.pending && q.room.timelineEpoch != c.epoch) then q.now
                  else c.lagOverBudgetSince)
            && d.lastRequestAt == (if Decide(c, q).1 && q.accepted then q.now else c.lastRequestAt)
            && (Decide(c, q).1 && q.accepted ==> d.pending && d.epoch == q.room.timelineEpoch)
            && (Decide(c, q).1 && !q.accepted ==> !d.pending)
            && (!Decide(c, q).1 ==>
                  && d.epoch == c.epoch
                  && (d.pending <==>
                        c.pending && !(q.maxFrames > 0 && !q.room.hosting && q.room.active && q.room.running &&
                                       q.consoleValid && q.room.timelineEpoch != c.epoch)))
  {}

  function After(qs: seq<Query>): Requests {
    if qs == [] then NO_REQUESTS else Decide(After(qs[..|qs| - 1]), qs[|qs| - 1]).0
  }

  predicate Asks(qs: seq<Query>, i: nat)
    requires i < |qs|
  {
    Decide(After(qs[..i]), qs[i]).1
  }

  lemma AfterStep(qs: seq<Query>, i: nat)
    requires i < |qs|
    ensures After(qs[..i + 1]) == Decide(After(qs[..i]), qs[i]).0
  {
    var longer := qs[..i + 1];
    assert longer[..|longer| - 1] == qs[..i];
  }

  lemma {:induction false} LastRequestKept(qs: seq<Query>, i: nat, n: nat)
    requires i < n <= |qs| && Asks(qs, i) && qs[i].accepted && qs[i].now > 0
    requires forall k :: i <= k < n ==> qs[i].now <= qs[k].now
    ensures After(qs[..n]).lastRequestAt >= qs[i].now
    decreases n
  {
    AfterStep(qs, n - 1);
    if i + 1 < n {
      LastRequestKept(qs, i, n - 1);
    }
  }

  /** While time does not go back, a resync is asked for again only 1500 ms
      after the last accepted request. */
  lemma RequestsAreSpaced(qs: seq<Query>, i: nat, j: nat)
    requires i < j < |qs| && Asks(qs, i) && qs[i].accepted && qs[i].now > 0 && Asks(qs, j)
    requires forall k :: i <= k < j ==> qs[i].now <= qs[k].now
    ensures qs[j].now - qs[i].now >= 1_500_000_000
  {
    LastRequestKept(qs, i, j);
  }

  /** A call that finds the lag within budget, by the clock or by the confirmed
      input, forgets since when it has been over budget if and only if the lag
      trigger does not turn the call away or a requested resync has begun. */
  lemma ForgottenExactly(c: Requests, q: Query)
    requires q.Eligible() && !q.OverBudget() && c.lagOverBudgetSince != 0
    ensures Decide(c, q).0.lagOverBudgetSince == 0 <==>
            !q.TurnedAway() || (c.pending && q.room.timelineEpoch != c.epoch)
  {}

  /** Call b was over budget, and any eligible call from b to before n that was
      not had been turned away by the lag trigger. */
  predicate BehindSince(qs: seq<Query>, b: nat, n: nat) {
    && b < n <= |qs| && qs[b].OverBudget()
    && forall k :: b <= k < n && qs[k].Eligible() && !qs[k].OverBudget() ==> qs[k].TurnedAway()
  }

  /** Every eligible call from b to before n was over budget. */
  predicate Uninterrupted(qs: seq<Query>, b: nat, n: nat) {
    b < n <= |qs| && forall k :: b <= k < n && qs[k].Eligible() ==> qs[k].OverBudget()
  }

  lemma {:induction false} LagIsWitnessed(qs: seq<Query>, n: nat) returns (b: nat)
    requires n <= |qs| && After(qs[..n]).lagOverBudgetSince != 0
    ensures BehindSince(qs, b, n) && qs[b].now == After(qs[..n]).lagOverBudgetSince
    decreases n
  {
    AfterStep(qs, n - 1);
    var before, q := After(qs[..n - 1]), qs[n - 1];
    if before.lagOverBudgetSince == After(qs[..n]).lagOverBudgetSince {
      b := LagIsWitnessed(qs, n - 1);
    } else {
      b := n - 1;
    }
  }

  /** A resync is asked for only if a call at least 250 ms ago was over budget.
      The lag was uninterrupted since then if and only if no call in between was
      turned away by the lag trigger. */
  lemma RequestsAreWitnessed(qs: seq<Query>, j: nat) returns (b: nat)
    requires j < |qs| && Asks(qs, j)
    ensures BehindSince(qs, b, j + 1) && qs[j].now - qs[b].now >= 250_000_000 && qs[j].OverBudget()
    ensures Uninterrupted(qs, b, j + 1) <==> forall k :: b <= k < j ==> !qs[k].TurnedAway()
  {
    AfterStep(qs, j);
    b := LagIsWitnessed(qs, j + 1);
    forall k | b <= k <= j && qs[k].TurnedAway() ensures qs[k].Eligible() && !qs[k].OverBudget() {}
  }

  /** Without the lag trigger, every request follows 250 ms of uninterrupted lag. */
  lemma UntriggeredRequestsPersist(qs: seq<Query>, j: nat) returns (b: nat)
    requires j < |qs| && Asks(qs, j) && forall k :: 0 <= k < j ==> !qs[k].requireLagTrigger
    ensures Uninterrupted(qs, b, j + 1) && qs[j].now - qs[b].now >= 250_000_000
  {
    b := RequestsAreWitnessed(qs, j);
  }

  /** A triggered call at frame 0 with a budget of 8 frames and 100 frames of
      confirmed input, `elapsed` frames after the host was at frame 1. */
  function Sample(now: nat, elapsed: nat): Query {
    var room := Room(true, true, false, false, 0, 0, 1, 1, true);
    Query(room, 1 + elapsed * FrameMicros(60), now, true, 60, 8, true, true, 0, 100)
  }

  /** With the trigger the lag can be interrupted: calls find 20, 0 and 20 frames
      of lag, the one in the middle is turned away, and the last asks. */
  lemma InterruptedLagStillAsks(qs: seq<Query>)
    requires qs == [Sample(1, 19), Sample(100 * MILLISECOND, 0), Sample(300 * MILLISECOND, 19)]
    ensures qs[1].Eligible() && qs[1].Lag() == 0 && Asks(qs, 2)
  {
    assert FrameMicros(60) == 16666;
    assert qs[0].Lag() == 20 && qs[2].Lag() == 20;
    AfterStep(qs, 0);
    assert qs[..0] == [];
    assert After(qs[..1]).lagOverBudgetSince == 1;
    AfterStep(qs, 1);
    assert After(qs[..2]) == After(qs[..1]);
  }

  class SharedClockCatchup {
    var lagOverBudgetSince: nat
    var lastResyncRequestAt: nat
    var resyncRequestPending: bool
    var resyncRequestEpoch: nat

    ghost function State(): Requests
      reads this
    {
      Requests(lagOverBudgetSince, lastResyncRequestAt, resyncRequestPending, resyncRequestEpoch)
    }

    constructor ()
      ensures State() == NO_REQUESTS
    {
      lagOverBudgetSince, lastResyncRequestAt, resyncRequestPending, resyncRequestEpoch := 0, 0, false, 0;
    }

    /** Runs the catch-up loop exactly when the lag is within the budget, and
        asks the host for a resync exactly when `Decide` does. */
    method AdvanceIfNeeded<State, Input>(console: Console<State, Input>, q: Query, v: View<Input>, a: Answers)
      returns (advanced: nat, requested: bool, ghost call: Call<Input>)
      requires q.localFrame == console.frameCount && q.confirmedThrough == v.confirmedThrough
      modifies this, console
      ensures call == if q.WithinBudget() then SharedClock(v, a, q.maxFrames) else Idle
      ensures console.Current() == Step(console.step, old(console.Current()), call)
      ensures advanced == console.frameCount - old(console.frameCount)
      ensures (State(), requested) == Decide(old(State()), q)
    {
      advanced, requested, call := 0, false, Idle;
      if q.maxFrames == 0 || q.room.hosting || !q.room.active || !q.room.running || !q.consoleValid {
        return;
      }
      if resyncRequestPending && q.room.timelineEpoch != resyncRequestEpoch {
        resyncRequestPending, lagOverBudgetSince := false, 0;
      }
      var lag := q.Lag();
      if q.requireLagTrigger {
        if lag < LAG_TRIGGER_FRAMES {
          return;
        }
        if q.localFrame >= v.confirmedThrough {
          return;
        }
      }
      if lag > q.maxFrames {
        if lagOverBudgetSince == 0 {
          lagOverBudgetSince := q.now;
        }
        if q.ConfirmedLag() <= q.maxFrames {
          lagOverBudgetSince := 0;
          return;
        }
        if q.now - lagOverBudgetSince < LAG_PERSISTENCE {
          return;
        }
        if lastResyncRequestAt != 0 && q.now - lastResyncRequestAt < RESYNC_REQUEST_COOLDOWN {
          return;
        }
        resyncRequestPending := false;
        requested := true;
        if q.accepted {
          resyncRequestPending, resyncRequestEpoch, lastResyncRequestAt := true, q.room.timelineEpoch, q.now;
        }
        return;
      }
      lagOverBudgetSince := 0;
      call := SharedClock(v, a, q.maxFrames);
      advanced := RunSharedClockLoop(console, v, a, q.maxFrames);
    }
  }

  method RunSharedClockLoop<State, Input>(console: Console<State, Input>, v: View<Input>, a: Answers, maxFrames: nat)
    returns (advanced: nat)
    modifies console
    ensures console.Current() == SharedClockLoop(console.step, old(console.Current()), v, a, maxFrames, 0)
    ensures advanced == console.frameCount - old(console.frameCount)
  {
    advanced := 0;
    ghost var end := SharedClockLoop(console.step, console.Current(), v, a, maxFrames, 0);
    while advanced < maxFrames
      invariant console.frameCount == old(console.frameCount) + advanced
      invariant SharedClockLoop(console.step, console.Current(), v, a, maxFrames, advanced) == end
    {
      var frame := console.frameCount;
      if frame > v.confirmedThrough {
        break;
      }
      var start := v.frameStartMicros(frame);
      if start == 0 {
        break;
      }
      var now := a.sharedNowMicros(advanced);
      if now == 0 || now < start {
        break;
      }
      var input := v.playback(frame);
      if input.None? {
        break;
      }
      var ran := console.RunFrame(input.value, a.queued(advanced), a.updated(advanced));
      if !ran {
        break;
      }
      advanced := advanced + 1;
    }
  }

  method AdvanceObserverIfNeeded<State, Input>(console: Console<State, Input>, room: Room, v: View<Input>, a: Answers,
                                               consoleValid: bool, maxFrames: nat)
    returns (advanced: nat, ghost call: Call<Input>)
    modifies console
    ensures var behind := old(console.frameCount) < v.confirmedThrough &&
                          (room.hosting || old(console.frameCount) < room.currentFrame);
            call == if maxFrames > 0 && room.active && room.running && consoleValid && !room.hasLocalSlots && behind
                    then Observer(v, a, maxFrames, if room.hosting then None else Some(room.currentFrame)) else Idle
    ensures console.Current() == Step(console.step, old(console.Current()), call)
    ensures advanced == console.frameCount - old(console.frameCount)
  {
    advanced, call := 0, Idle;
    if maxFrames == 0 || !room.active || !room.running || !consoleValid || room.hasLocalSlots {
      return;
    }
    var localFrame := console.frameCount;
    if v.confirmedThrough <= localFrame {
      return;
    }
    var visible := if room.hosting then v.confirmedThrough
                   else if room.currentFrame < v.confirmedThrough then room.currentFrame else v.confirmedThrough;
    if visible <= localFrame {
      return;
    }
    call := Observer(v, a, maxFrames, if room.hosting then None else Some(room.currentFrame));
    var target := if visible < localFrame + maxFrames then visible else localFrame + maxFrames;
    while console.frameCount < target
      invariant console.frameCount == localFrame + advanced
      invariant ObserverLoop(console.step, console.Current(), v, a, target, advanced) ==
                ObserverLoop(console.step, old(console.Current()), v, a, target, 0)
      decreases target - console.frameCount
    {
      var input := v.playback(console.frameCount);
      if input.None? {
        break;
      }
      var ran := console.RunFrame(input.value, a.queued(advanced), a.updated(advanced));
      if !ran {
        break;
      }
      advanced := advanced + 1;
    }
  }
}
