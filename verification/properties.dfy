/**
 Properties of whole runs of the scheduler: the firing window is one
 contiguous pulse from the first call, it lasts floor(totalSteps) calls, it is
 never re-armed, and nothing an observation contains changes any command.
 */
module StrategyProperties {
  import opened Scheduler

  function Min(a: int, b: int): (m: int) { if a <= b then a else b }

  function Max(a: int, b: int): (m: int) { if a <= b then b else a }

  /** The number of commands in `cs` with the primary thruster on. */
  function CountFiring(cs: seq<Command>): (n: nat) {
    if |cs| == 0 then 0
    else (if |cs[0]| > PrimaryThrust && cs[0][PrimaryThrust] == 1 then 1 else 0) + CountFiring(cs[1..])
  }

  /**
   The real-valued test `step + 1 <= totalSteps` fires exactly on the counter
   values below floor(totalSteps): a fractional part of the window is never
   used.
   */
  lemma FiresIffBelowFloor(step: nat, totalSteps: real)
    ensures Fires(step, totalSteps) <==> step < totalSteps.Floor
  {
  }

  /** Two calls in the same state agree, whatever the two observations are. */
  lemma ComputeIgnoresObservation<O>(s: Strategy, a: O, b: O)
    ensures Compute(s, a) == Compute(s, b)
  {
  }

  /**
   Runs of equal length from the same state produce the same commands and the
   same final state: the observations are never read, and two instances built
   alike share no hidden state.
   */
  lemma RunIgnoresObservations<O>(s: Strategy, a: seq<O>, b: seq<O>)
    requires |a| == |b|
    ensures Run(s, a) == Run(s, b)
  {
    var ra, rb := Run(s, a), Run(s, b);
    assert forall i :: 0 <= i < |a| ==> ra.1[i] == rb.1[i];
    assert ra.1 == rb.1;
    assert ra.0 == rb.0;
  }

  /**
   Once a call leaves the primary thruster off, every later call of the run
   issues the all-zero command.
   */
  lemma NeverRearmed<O>(s: Strategy, obs: seq<O>, i: nat, j: nat)
    requires i <= j < |obs|
    requires Run(s, obs).1[i][PrimaryThrust] == 0
    ensures Run(s, obs).1[j] == Off
  {
  }

  /**
   In a run of |obs| calls starting with counter value k, the primary thruster
   fires on exactly the calls whose counter lies in [k, floor(totalSteps)),
   so the count is the size of that interval intersected with the run.
   */
  lemma {:induction false} FiringCount<O>(s: Strategy, obs: seq<O>)
    ensures CountFiring(Run(s, obs).1) == Max(0, Min(s.step + |obs|, s.totalSteps.Floor) - s.step)
    decreases |obs|
  {
    if |obs| == 0 {
    } else {
      var t := Compute(s, obs[0]);
      var rest := Run(t.after, obs[1..]);
      assert Run(s, obs).1 == [t.action] + rest.1;
      assert ([t.action] + rest.1)[1..] == rest.1;
      FiringCount(t.after, obs[1..]);
      FiresIffBelowFloor(s.step, s.totalSteps);
    }
  }

  /**
   From any valid state whose counter is still 0 and whose sample period is
   positive, the i-th call issues the thrust command exactly while i is below
   floor(firing time / sample period), and the zero command ever after.
   */
  lemma PulseFromValidStart<O>(s: Strategy, obs: seq<O>)
    requires Valid(s) && s.step == 0 && s.dt > 0.0
    ensures forall i :: 0 <= i < |obs| ==>
              Run(s, obs).1[i] == (if i < (FiringTime / s.dt).Floor then Thrust else Off)
  {
  }

  /**
   From construction with a positive sample rate, the i-th call issues the
   thrust command exactly while i < floor(sampleRate), and the zero command
   ever after: one contiguous pulse starting at the first call.
   */
  lemma PulseFromConstruction<O>(sampleRate: real, obs: seq<O>)
    requires sampleRate > 0.0
    ensures Create(sampleRate).Ok?
    ensures forall i :: 0 <= i < |obs| ==>
              Run(Create(sampleRate).value, obs).1[i] == (if i < sampleRate.Floor then Thrust else Off)
  {
  }

  /**
   From construction with a positive sample rate, a run of n calls fires
   min(n, floor(sampleRate)) times; with firing time 1 s that is the number
   of whole sample periods in the firing time.
   */
  lemma FiringWindowLength<O>(sampleRate: real, obs: seq<O>)
    requires sampleRate > 0.0
    ensures Create(sampleRate).Ok?
    ensures CountFiring(Run(Create(sampleRate).value, obs).1) == Min(|obs|, sampleRate.Floor)
  {
    var s := Create(sampleRate).value;
    FiringCount(s, obs);
  }

  /** A negative sample rate is accepted at construction, and no call ever fires. */
  lemma NegativeRateNeverFires<O>(sampleRate: real, obs: seq<O>)
    requires sampleRate < 0.0
    ensures Create(sampleRate).Ok?
    ensures forall i :: 0 <= i < |obs| ==> Run(Create(sampleRate).value, obs).1[i] == Off
  {
  }

  /**
   At 10 Hz the window is 10 steps: calls 1 to 10 issue [1,0,0,0,0,0] and
   every later call issues zeros.
   */
  lemma TenHertz<O>(obs: seq<O>)
    ensures Create(10.0).Ok? && Create(10.0).value.totalSteps == 10.0
    ensures forall i :: 0 <= i < |obs| ==>
              Run(Create(10.0).value, obs).1[i] == (if i < 10 then Thrust else Off)
  {
  }

  /** At 1 Hz only the first call fires. */
  lemma OneHertz<O>(obs: seq<O>)
    ensures Create(1.0).Ok? && Create(1.0).value.totalSteps == 1.0
    ensures forall i :: 0 <= i < |obs| ==>
              Run(Create(1.0).value, obs).1[i] == (if i == 0 then Thrust else Off)
  {
  }

  /**
   A fractional window is cut down, not rounded up: at 2.5 Hz the window is
   2.5 steps and only the first two calls fire.
   */
  lemma FractionalWindow<O>(obs: seq<O>)
    ensures Create(2.5).Ok? && Create(2.5).value.totalSteps == 2.5
    ensures forall i :: 0 <= i < |obs| ==>
              Run(Create(2.5).value, obs).1[i] == (if i < 2 then Thrust else Off)
  {
  }
}
