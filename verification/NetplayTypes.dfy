/** Types and small functions shared by the models. */
module NetplayTypes {
  type FrameNumber = nat

  datatype SessionState = Lobby | ValidatingRom | ReadyCheck | Starting | Running | Resyncing | Paused | Ended

  function Min(a: nat, b: nat): nat { if a < b then a else b }

  function Max(a: nat, b: nat): nat { if a < b then b else a }
}
