/** A whole peer in lockstep: the driver hands confirmed frames to the console's
    input queue, the emulator plays the queued input of each frame, and catch-up
    calls run frames of their own. Whatever the mix, a peer's state is that of
    simulating the agreed log frame by frame. */
module Lockstep {
  import opened Wrappers
  import opened NetplayTypes
  import PlaybackDriver
  import CatchUp

  datatype Peer<State, Input> = Peer(
    driver: PlaybackDriver.DriverState<Input>,
    queued: map<FrameNumber, Input>,
    machine: CatchUp.Machine<State>)

  /** `takes` says whether the console accepts an input into its queue, `ran`
      whether it simulated the frame, `left` whether a catch-up call ended with
      an input queued and not run. */
  datatype Op<Input> =
    | Drive(driverCall: PlaybackDriver.Call<Input>, takes: FrameNumber -> bool)
    | QueueCurrent(playback: FrameNumber -> Option<Input>, taken: bool)
    | Advance(catchUpCall: CatchUp.Call<Input>, left: bool)
    | Play(ran: bool)
    | DiscardAfter(frame: FrameNumber)

  function Start<State, Input>(m: CatchUp.Machine<State>): Peer<State, Input> {
    Peer(PlaybackDriver.Fresh(), map[], m)
  }

  // ---- What each step does ------------------------------------------------------------

  /** The queue after the frames were offered to it in order. */
  function Offered<Input>(queued: map<FrameNumber, Input>, frames: seq<PlaybackDriver.ConfirmedFrame<Input>>,
                          takes: FrameNumber -> bool): map<FrameNumber, Input>
  {
    if frames == [] then queued
    else
      var rest, last := Offered(queued, frames[..|frames| - 1], takes), frames[|frames| - 1];
      if takes(last.frame) then rest[last.frame := last.input] else rest
  }

  /** What a catch-up call leaves in the queue. */
  function LeftBy<Input>(queued: map<FrameNumber, Input>, call: CatchUp.Call<Input>, left: bool,
                         frame: FrameNumber): map<FrameNumber, Input>
  {
    if !left || call.Idle? || call.view.playback(frame).None? then queued
    else queued[frame := call.view.playback(frame).value]
  }

  function Step<State, Input>(step: (State, Input) -> State, p: Peer<State, Input>, op: Op<Input>): Peer<State, Input> {
    match op
    case Drive(call, takes) =>
      p.(driver := PlaybackDriver.Step(p.driver, call),
         queued := Offered(p.queued, PlaybackDriver.Delivered(p.driver, call), takes))
    case QueueCurrent(playback, taken) =>
      var f := p.machine.frame;
      if f in p.queued || playback(f).None? || !taken then p else p.(queued := p.queued[f := playback(f).value])
    case Advance(call, left) =>
      var m := CatchUp.Step(step, p.machine, call);
      p.(machine := m, queued := LeftBy(p.queued, call, left, m.frame))
    case Play(ran) =>
      var s, f := p.machine.state, p.machine.frame;
      if ran && f in p.queued then p.(machine := CatchUp.Machine(step(s, p.queued[f]), f + 1)) else p
    case DiscardAfter(frame) => p.(queued := map f | f in p.queued && f <= frame :: p.queued[f])
  }

  function Run<State, Input>(step: (State, Input) -> State, p: Peer<State, Input>,
                             ops: seq<Op<Input>>): Peer<State, Input>
    decreases ops
  {
    if ops == [] then p else Run(step, Step(step, p, ops[0]), ops[1..])
  }

  // ---- The log ----------------------------------------------------------------------------

  /** The coordinator builds frames only with the inputs of the agreed log. */
  ghost predicate Builds<Input>(playback: FrameNumber -> Option<Input>, log: FrameNumber -> Input) {
    forall f: FrameNumber :: playback(f).Some? ==> playback(f).value == log(f)
  }

  ghost predicate OpAgrees<Input>(op: Op<Input>, log: FrameNumber -> Input) {
    match op
    case Drive(call, _) => call.Prepare? ==> Builds(call.coordinator.playback, log)
    case QueueCurrent(playback, _) => Builds(playback, log)
    case Advance(call, _) => CatchUp.CallAgrees(call, log)
    case _ => true
  }

  ghost predicate FramesAgree<Input>(frames: seq<PlaybackDriver.ConfirmedFrame<Input>>, log: FrameNumber -> Input) {
    forall e :: e in frames ==> e.input == log(e.frame)
  }

  ghost predicate QueueAgrees<Input>(queued: map<FrameNumber, Input>, log: FrameNumber -> Input) {
    forall f :: f in queued ==> queued[f] == log(f)
  }

  /** Nothing waits, in the driver or in the console, but inputs of the log. */
  ghost predicate Synced<State, Input>(p: Peer<State, Input>, log: FrameNumber -> Input) {
    && PlaybackDriver.Contiguous(p.driver.pending) && FramesAgree(p.driver.pending, log)
    && QueueAgrees(p.queued, log)
  }

  // ---- Every step keeps to the log ----------------------------------------------------------

  lemma DriverKeepsLog<Input>(s: PlaybackDriver.DriverState<Input>, call: PlaybackDriver.Call<Input>,
                              log: FrameNumber -> Input)
    requires PlaybackDriver.Contiguous(s.pending) && FramesAgree(s.pending, log)
    requires call.Prepare? ==> Builds(call.coordinator.playback, log)
    ensures PlaybackDriver.Contiguous(PlaybackDriver.Step(s, call).pending)
    ensures FramesAgree(PlaybackDriver.Step(s, call).pending, log)
  {
    if call.Prepare? && PlaybackDriver.RunningCall(call) {
      PlaybackDriver.RunningPrepareQueue(s, call);
    } else if call.Consume? {
      var k := PlaybackDriver.NotBeforeIsSuffix(s.pending, call.currentFrame);
    }
  }

  lemma DeliveredKeepsLog<Input>(s: PlaybackDriver.DriverState<Input>, call: PlaybackDriver.Call<Input>,
                                 log: FrameNumber -> Input)
    requires PlaybackDriver.Contiguous(s.pending) && FramesAgree(s.pending, log)
    ensures FramesAgree(PlaybackDriver.Delivered(s, call), log)
  {
    if call.Consume? {
      var k := PlaybackDriver.NotBeforeIsSuffix(s.pending, call.currentFrame);
      var q := PlaybackDriver.NotBefore(s.pending, call.currentFrame);
      var m := PlaybackDriver.NotAfterIsPrefix(q, call.queueLimit);
    }
  }

  lemma {:induction false} OfferedKeepsLog<Input>(queued: map<FrameNumber, Input>,
                                                  frames: seq<PlaybackDriver.ConfirmedFrame<Input>>,
                                                  takes: FrameNumber -> bool, log: FrameNumber -> Input)
    requires QueueAgrees(queued, log) && FramesAgree(frames, log)
    ensures QueueAgrees(Offered(queued, frames, takes), log)
  {
    if frames != [] {
      assert frames[|frames| - 1] in frames;
      OfferedKeepsLog(queued, frames[..|frames| - 1], takes, log);
    }
  }

  lemma StepKeepsSynced<State, Input>(step: (State, Input) -> State, p: Peer<State, Input>, op: Op<Input>,
                                      log: FrameNumber -> Input)
    requires Synced(p, log) && OpAgrees(op, log)
    ensures Synced(Step(step, p, op), log)
  {
    if op.Drive? {
      DriverKeepsLog(p.driver, op.driverCall, log);
      DeliveredKeepsLog(p.driver, op.driverCall, log);
      OfferedKeepsLog(p.queued, PlaybackDriver.Delivered(p.driver, op.driverCall), op.takes, log);
    }
  }

  /** One step simulates consecutive frames of the log, if any. */
  lemma StepReplays<State, Input>(step: (State, Input) -> State, p: Peer<State, Input>, op: Op<Input>,
                                  log: FrameNumber -> Input)
    requires Synced(p, log) && OpAgrees(op, log)
    ensures var m, m' := p.machine, Step(step, p, op).machine;
            m.frame <= m'.frame && m'.state == CatchUp.Replay(step, log, m.state, m.frame, m'.frame)
  {
    if op.Advance? {
      CatchUp.StepReplays(step, p.machine, op.catchUpCall, log);
    } else if op.Play? && op.ran && p.machine.frame in p.queued {
      var m := p.machine;
      assert CatchUp.Replay(step, log, m.state, m.frame, m.frame) == m.state;
    }
  }

  /** Every run of a peer simulates the log, frame by frame, from where it was. */
  lemma {:induction false} RunReplays<State, Input>(step: (State, Input) -> State, p: Peer<State, Input>,
                                                    ops: seq<Op<Input>>,
                                                    log: FrameNumber -> Input)
    requires Synced(p, log) && forall op :: op in ops ==> OpAgrees(op, log)
    ensures Synced(Run(step, p, ops), log)
    ensures var m, m' := p.machine, Run(step, p, ops).machine;
            m.frame <= m'.frame && m'.state == CatchUp.Replay(step, log, m.state, m.frame, m'.frame)
    decreases ops
  {
    if ops == [] {
      assert CatchUp.Replay(step, log, p.machine.state, p.machine.frame, p.machine.frame) == p.machine.state;
    } else {
      var p1 := Step(step, p, ops[0]);
      StepKeepsSynced(step, p, ops[0], log);
      StepReplays(step, p, ops[0], log);
      RunReplays(step, p1, ops[1..], log);
      CatchUp.ReplayCompose(step, log, p.machine.state, p.machine.frame, p1.machine.frame,
                            Run(step, p, ops).machine.frame);
    }
  }

  /** Two peers that start from one state and frame, each playing, preparing,
      consuming and catching up in its own order, are in the same state whenever
      they have reached the same frame of the same log. */
  lemma PeersAgree<State, Input>(step: (State, Input) -> State, m: CatchUp.Machine<State>, log: FrameNumber -> Input,
                                 a: seq<Op<Input>>, b: seq<Op<Input>>)
    requires forall op :: op in a ==> OpAgrees(op, log)
    requires forall op :: op in b ==> OpAgrees(op, log)
    ensures var p, q := Run(step, Start(m), a).machine, Run(step, Start(m), b).machine;
            p.frame == q.frame ==> p == q
  {
    RunReplays(step, Start(m), a, log);
    RunReplays(step, Start(m), b, log);
  }

  // ---- Exactly what is queued and played --------------------------------------------------------

  /** Offering queues exactly the frames that the console takes. */
  lemma {:induction false} OfferedExactly<Input>(queued: map<FrameNumber, Input>,
                                                 frames: seq<PlaybackDriver.ConfirmedFrame<Input>>,
                                                 takes: FrameNumber -> bool, f: FrameNumber)
    ensures f in Offered(queued, frames, takes) <==>
            f in queued || (takes(f) && exists i :: 0 <= i < |frames| && frames[i].frame == f)
  {
    if frames != [] {
      var front := frames[..|frames| - 1];
      OfferedExactly(queued, front, takes, f);
      assert forall i :: 0 <= i < |front| ==> front[i] == frames[i];
    }
  }

  /** The current frame is queued afterwards exactly if it was before, or can be
      built and is taken. */
  lemma QueuesCurrentExactly<State, Input>(step: (State, Input) -> State, p: Peer<State, Input>,
                                           playback: FrameNumber -> Option<Input>, taken: bool, f: FrameNumber)
    ensures f in Step(step, p, QueueCurrent(playback, taken)).queued <==>
            f in p.queued || (f == p.machine.frame && playback(f).Some? && taken)
  {}

  /** A frame is played exactly when its input is queued and the console runs it. */
  lemma PlaysExactly<State, Input>(step: (State, Input) -> State, p: Peer<State, Input>, ran: bool)
    ensures Step(step, p, Play(ran)).machine.frame ==
            p.machine.frame + (if ran && p.machine.frame in p.queued then 1 else 0)
  {}

  /** Discarding keeps exactly the inputs up to the frame. */
  lemma DiscardsExactly<State, Input>(step: (State, Input) -> State, p: Peer<State, Input>, frame: FrameNumber,
                                      f: FrameNumber)
    ensures var p' := Step(step, p, DiscardAfter(frame));
            && (f in p'.queued <==> f in p.queued && f <= frame)
            && (f in p'.queued ==> p'.queued[f] == p.queued[f])
            && p'.machine == p.machine && p'.driver == p.driver
  {}

  /** A catch-up call can leave queued only the input it built for the frame it
      stopped at, and does so exactly when the console took that and did not run. */
  lemma LeavesExactly<State, Input>(step: (State, Input) -> State, p: Peer<State, Input>,
                                    call: CatchUp.Call<Input>, left: bool, f: FrameNumber)
    ensures var p' := Step(step, p, Advance(call, left));
            var built := left && !call.Idle? && f == p'.machine.frame && call.view.playback(f).Some?;
            && (f in p'.queued <==> f in p.queued || built)
            && (f in p'.queued ==> p'.queued[f] == if built then call.view.playback(f).value else p.queued[f])
            && p'.driver == p.driver
  {}

  function Plays<Input>(n: nat): seq<Op<Input>> { if n == 0 then [] else [Play(true)] + Plays(n - 1) }

  /** Queued frames play one after the other. */
  lemma {:induction false} QueuedFramesPlay<State, Input>(step: (State, Input) -> State, p: Peer<State, Input>, n: nat)
    requires forall f :: p.machine.frame <= f < p.machine.frame + n ==> f in p.queued
    ensures Run(step, p, Plays(n)).machine.frame == p.machine.frame + n
    decreases n
  {
    if n > 0 {
      var p1 := Step(step, p, Play(true));
      assert Plays<Input>(n)[1..] == Plays(n - 1);
      QueuedFramesPlay(step, p1, n - 1);
    }
  }
}
