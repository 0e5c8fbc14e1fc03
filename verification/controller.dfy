/**
 The scheduler as the simulation driver sees it: one mutable object per run,
 whose `Compute` is called once per tick and advances its own counter.
 Every step delegates to the value-level model in module Scheduler.
 */
module Controller {
  import opened Scheduler

  class SimpleTestControl {
    var state: Strategy

    /** Construction; a zero sample rate is the one finite rate the original rejects, by dividing by zero. */
    constructor(sampleRate: real)
      requires sampleRate != 0.0
      ensures Valid(state) && state.step == 0
      ensures state.totalSteps == FiringTime * sampleRate
    {
      state := Create(sampleRate).value;
    }

    /**
     One tick: returns the six-slot command for the counter value on entry and
     moves the counter on by exactly one.
     */
    method Compute<O>(obs: O) returns (action: Command)
      modifies this
      ensures |action| == ChannelCount
      ensures action == CommandAt(old(state).step, old(state).totalSteps)
      ensures state == old(state).(step := old(state).step + 1)
    {
      var t := Scheduler.Compute(state, obs);
      state := t.after;
      action := t.action;
    }
  }
}
