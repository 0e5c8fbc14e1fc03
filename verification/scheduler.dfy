/**
 The open-loop, bang-bang thruster scheduler `SimpleTestControl` of the AOCS
 example, as immutable values: a strategy is its configuration plus a step
 counter, and each `compute` call maps a strategy to its successor and one
 six-slot actuation command.

 Arithmetic is on Dafny `real`, which is exact; the original divides IEEE
 doubles.
 */
module Scheduler {

  /** Seconds during which the primary thruster is commanded on. */
  const FiringTime: real := 1.0

  /** Slots of an actuation command: [F1, F2, gamma1, gamma2, delta1, delta2]. */
  const ChannelCount: nat := 6

  /** Index of F1, the only slot this strategy ever sets. */
  const PrimaryThrust: nat := 0

  type Command = seq<int>

  /** The command during the firing window: F1 on, everything else off. */
  const Thrust: Command := [1, 0, 0, 0, 0, 0]

  /** The command once the firing window is over. */
  const Off: Command := [0, 0, 0, 0, 0, 0]

  /** The only way construction fails: dividing by a zero sample rate. */
  datatype Error = ZeroDivisionError

  datatype Result<T> = Ok(value: T) | Err(error: Error)

  /**
   The controller's state: `dt` is the sample period, `totalSteps` the
   (possibly non-integral) step count at which firing ends, `step` the number
   of `compute` calls made so far.
   */
  datatype Strategy = Strategy(firingTime: real, dt: real, totalSteps: real, step: nat)

  /** One `compute` call's outcome: the successor state and the command issued. */
  datatype Tick = Tick(after: Strategy, action: Command)

  /** What every constructed strategy satisfies, whatever its step. */
  ghost predicate Valid(s: Strategy) {
    s.firingTime == FiringTime && s.dt != 0.0 && s.totalSteps == s.firingTime / s.dt
  }

  /**
   The firing test of `compute`, judged on the counter value before the call:
   would the next step still lie inside the firing window?
   */
  predicate Fires(step: nat, totalSteps: real) {
    (step + 1) as real <= totalSteps
  }

  /** The command issued by the call that finds the counter at `step`. */
  function CommandAt(step: nat, totalSteps: real): (c: Command) {
    if Fires(step, totalSteps) then Thrust else Off
  }

  /**
   Construction: the sample period is the inverse of the sample rate and the
   firing window, measured in steps, is the firing time over that period.
   A zero rate is the one input the division rejects; a negative rate is
   accepted and yields a window no call ever falls into.
   */
  function Create(sampleRate: real): (r: Result<Strategy>)
    ensures r.Err? <==> sampleRate == 0.0
    ensures r.Ok? ==> Valid(r.value)
    ensures r.Ok? ==> r.value.step == 0
    ensures r.Ok? ==> r.value.dt * sampleRate == 1.0
    ensures r.Ok? ==> r.value.totalSteps == FiringTime * sampleRate
  {
    if sampleRate == 0.0 then
      Err(ZeroDivisionError)
    else
      var dt := 1.0 / sampleRate;
      assert dt * sampleRate == 1.0;
      Ok(Strategy(FiringTime, dt, FiringTime / dt, 0))
  }

  /**
   One `compute` call. The observation is accepted and never inspected. Only
   F1 can be non-zero, and it is 1 exactly when `step + 1 <= totalSteps` for
   the counter value on entry; the counter then rises by one whatever the
   outcome, and nothing else in the state changes.
   */
  function Compute<O>(s: Strategy, obs: O): (r: Tick)
    ensures |r.action| == ChannelCount
    ensures forall i :: 0 <= i < |r.action| && i != PrimaryThrust ==> r.action[i] == 0
    ensures r.action[PrimaryThrust] == 1 <==> (s.step + 1) as real <= s.totalSteps
    ensures r.action[PrimaryThrust] == 0 <==> (s.step + 1) as real > s.totalSteps
    ensures r.after.step == s.step + 1
    ensures r.after.firingTime == s.firingTime && r.after.dt == s.dt
    ensures r.after.totalSteps == s.totalSteps
    ensures Valid(s) ==> Valid(r.after)
  {
    Tick(s.(step := s.step + 1), CommandAt(s.step, s.totalSteps))
  }

  /**
   The driver's loop: one `compute` call per observation, in order, threading
   the state through. The i-th command is the one for counter value
   `s.step + i`, so the whole run is fixed by the start state and the number
   of calls.
   */
  function Run<O>(s: Strategy, obs: seq<O>): (r: (Strategy, seq<Command>))
    ensures |r.1| == |obs|
    ensures r.0 == s.(step := s.step + |obs|)
    ensures forall i :: 0 <= i < |obs| ==> r.1[i] == CommandAt(s.step + i, s.totalSteps)
    decreases |obs|
  {
    if |obs| == 0 then
      (s, [])
    else
      var t := Compute(s, obs[0]);
      var rest := Run(t.after, obs[1..]);
      (rest.0, [t.action] + rest.1)
  }
}
