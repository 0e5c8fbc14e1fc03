# SimpleTestControl — an open-loop bang-bang thruster scheduler

This project models `SimpleTestControl` from the AOCS challenge example. It is the
strategy that a spacecraft digital-twin simulation calls once per sample period.

On construction the strategy fixes a firing time of 1 s. It sets the sample period to
`dt = 1 / sample_rate` and the firing window to `total_steps = firing_time / dt`,
and starts its counter `step` at 0. Each `compute(obs)` call returns a six-slot command
`[F1, F2, γ1, γ2, δ1, δ2]` in which only `F1` can be 1. `F1` is 1 exactly when
`step + 1 <= total_steps` for the counter value on entry. The call then increments
`step` unconditionally. The observation is accepted but never read.

Files:

- `scheduler.dfy`, module `Scheduler`: the strategy as an immutable value.
  - `Create` is the constructor.
  - `Compute` is one call.
  - `Run` is a sequence of calls, as the simulation driver makes them.
- `properties.dfy`, module `StrategyProperties`: lemmas about whole runs.
  - The firing window is one contiguous pulse from the first call.
  - It lasts `floor(total_steps)` calls and is never re-armed.
  - Observations change nothing.
  - Concrete 10 Hz, 1 Hz and 2.5 Hz scenarios.
- `controller.dfy`, module `Controller`: the class `SimpleTestControl` with a mutable
  `state`. It mirrors the original object and delegates every step to `Scheduler`.

The sample rate is a constructor argument of type `real`. In the original it is read
from the global `pyaocs.parameters` module. The observation is a type parameter `O`
that no operation inspects.

Two edge cases of the code:

- A negative sample rate. For a finite rate, the code rejects only zero, through
  Python's `ZeroDivisionError`. A negative rate gives a negative `total_steps`, so no
  call ever fires. `Create` returns `Err(ZeroDivisionError)` exactly for a zero rate.
- A non-integral `total_steps`. The test `step + 1 <= total_steps` fires for exactly
  `floor(total_steps)` calls, so a fractional window is rounded down; see
  `FiresIffBelowFloor` and `FractionalWindow`.

## Model

| member | source | states |
|---|---|---|
| Scheduler.Create | example.py:8-15 | Over exact reals, construction fails exactly when the sample rate is zero. Otherwise the counter starts at 0, `dt` is the inverse of the rate, and the firing window `total_steps` equals firing time × sample rate. In exact arithmetic that is the rate itself, since the firing time is 1 s. |
| Scheduler.Compute | example.py:17-33 | The command always has 6 slots. Every slot but F1 is 0. F1 is 1 if and only if `step + 1 <= total_steps` on entry, and 0 otherwise. The counter rises by exactly 1 whatever the outcome. Firing time, `dt` and `total_steps` are unchanged, so a valid strategy stays valid. |
| Scheduler.Run | example.py:26-31 | After n calls the counter has risen by exactly n and nothing else in the state has changed. The i-th command is the one for counter value `step + i`. |
| StrategyProperties.FiresIffBelowFloor | example.py:26 | The real-valued test `step + 1 <= total_steps` holds exactly for counter values below `floor(total_steps)`. |
| StrategyProperties.ComputeIgnoresObservation | example.py:17-33 | Two calls in the same state return the same command and successor, whatever the observations. |
| StrategyProperties.RunIgnoresObservations | example.py:17-33 | Two runs of equal length from the same state produce identical command sequences and final states. So two instances built alike behave alike, and observation content never matters. |
| StrategyProperties.NeverRearmed | example.py:26-31 | Once a call returns F1 = 0, every later call in the run returns the all-zero command. |
| StrategyProperties.FiringCount | example.py:26-31 | A run of n calls starting at counter k fires exactly `max(0, min(k + n, floor(total_steps)) - k)` times. |
| StrategyProperties.PulseFromValidStart | example.py:13-31 | From any valid state with counter 0 and a positive sample period, the i-th call returns `[1,0,0,0,0,0]` if `i < floor(firing_time / dt)` and all zeros otherwise. |
| StrategyProperties.PulseFromConstruction | example.py:8-31 | With a positive sample rate, the i-th call after construction returns `[1,0,0,0,0,0]` if `i < floor(sample_rate)` and all zeros otherwise. This is one contiguous pulse from the first call. It holds in exact arithmetic; see `## Left out` for rates where doubles round below the rate. |
| StrategyProperties.FiringWindowLength | example.py:8-31 | With a positive sample rate, n calls after construction fire `min(n, floor(sample_rate))` times. This is exact arithmetic, as for `PulseFromConstruction`. |
| StrategyProperties.NegativeRateNeverFires | example.py:11-13 | A negative sample rate is accepted at construction, and no call ever fires. |
| StrategyProperties.TenHertz | example.py:8-31 | At 10 Hz, `total_steps` is 10. Calls 1 to 10 return `[1,0,0,0,0,0]` and every later call returns zeros. |
| StrategyProperties.OneHertz | example.py:8-31 | At 1 Hz, `total_steps` is 1. Only the first call fires. |
| StrategyProperties.FractionalWindow | example.py:8-31 | At 2.5 Hz, `total_steps` is 2.5. Only the first two calls fire, so the fraction is rounded down. |
| Controller.SimpleTestControl.constructor | example.py:8-15 | Requires a non-zero sample rate; zero is the only finite rate for which the original constructor raises. The new object holds a valid state with counter 0 and `total_steps` equal to firing time × sample rate. |
| Controller.SimpleTestControl.Compute | example.py:17-33 | Returns a 6-slot command: the one for the counter value on entry and the unchanged `total_steps`. It then advances the object's counter by exactly one and leaves the rest of its state unchanged. |

## Left out

- `plot()` (example.py:35-36): an empty no-op with no behaviour to state.
- The `__main__` block and `digital_twin.run` (example.py:39-47): the simulation driver, its rendering, real-time pacing, disturbance and noise options. Its source is not part of this model. `Scheduler.Run` stands in for its tick loop.
- The global `pyaocs.parameters` module (example.py:3, 11): replaced by an explicit `sampleRate` argument.
- The numpy array of the command (example.py:29): modelled as a `seq<int>` of length 6.
- IEEE double rounding of `1 / sample_rate` and `firing_time / dt`: the model's `real` arithmetic is exact, so `total_steps` is exactly the sample rate. In doubles, some ordinary integer rates round just below themselves. For example, `1 / (1 / 93)` is 92.99999999999999, so at 93 Hz the original fires 92 times, not 93. For such rates the original fires `floor(sample_rate) - 1` times, whereas `PulseFromConstruction` and `FiringWindowLength` promise `floor(sample_rate)`. Rates such as 10, 1 and 2.5 Hz are exact in doubles, so `TenHertz`, `OneHertz` and `FractionalWindow` are unaffected.
- Non-finite and extreme rates: an infinite rate, or one so large that `1 / sample_rate` underflows to `0.0`, makes the original raise `ZeroDivisionError` at example.py:13. A NaN rate is accepted and never fires. The model's rates are finite reals, so neither case arises.
- Controller.SimpleTestControl.constructor: requires a non-zero rate instead of raising, because a constructor cannot return an error value. The `ZeroDivisionError` path is modelled by `Scheduler.Create`.
