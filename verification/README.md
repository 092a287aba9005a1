# log-debounce: the per-callsite debounce gate

The `log-debounce` crate provides ten logging macros. `info_debounce!`,
`warn_debounce!`, `error_debounce!`, `debug_debounce!` and `trace_debounce!`
log at most once per given duration from each callsite. `info_once!`,
`warn_once!` and the others log only the first time a callsite is reached.

All ten macros expand to the same gate. Each expansion declares a static
`Mutex<Option<Instant>>` that starts as `None`. A call does three things:

- It takes the lock. If the lock is poisoned, the call does nothing.
- It decides `should_log`. This holds if there is no earlier emission, or if
  the time since the last emission is at least the duration.
- Only if `should_log` holds, it stores the current instant and emits.

The `*_once!` macros pass `Duration::MAX` as the duration.

This project models that gate in three modules:

- `Gate` (`gate.dfy`): the gate state `Option<Timestamp>`, one call, and the
  step function.
- `Trace` (`trace.dfy`): runs of successive calls at one callsite. It proves
  the monotonicity, spacing, zero-window and once properties.
- `Callsites` (`callsites.dfy`): a map from an abstract callsite key to gate
  state. It proves that callsites are isolated from each other.

Modelling choices:

- Clock readings and durations are natural numbers counting nanoseconds.
  `Duration::MAX` is `MaxDuration`, which is (2^64 - 1) seconds plus
  999,999,999 nanoseconds.
- Elapsed time saturates at zero when the clock reads earlier than the stored
  instant. This is what `Instant::duration_since` does.
- A `Call` carries three values: the duration expression's value on that call,
  the clock reading, and whether the lock could be taken. The macro evaluates
  its duration expression inside the closure passed to `Option::map`
  (src/lib.rs:44-46). So the expression is evaluated on every call that takes
  the lock and finds an earlier emission, and the window may differ between
  such calls. On the first call at a callsite, and on a call whose lock fails,
  the expression is not evaluated, and `Step` ignores `window` in exactly those
  cases. The spacing lemma is stated for the general case, and
  `SameWindowSpacing` specialises it to one fixed window.
- The clock is read after the lock is taken (src/lib.rs:42-43). So in the
  order in which calls get the lock, the readings of a monotonic clock never
  decrease. This is the `Sorted` hypothesis of the run lemmas. Each call is
  treated as atomic.
- Some run lemmas also assume `StartsBefore`: the stored instant is no later
  than any call's reading. Every reachable state meets it, because the stored
  instant is always the reading of an earlier call. The spacing lemmas do not
  need it and hold from any starting state.

## Model

| member | source | states |
|---|---|---|
| `Gate.Step` | src/lib.rs:42-52 | With a poisoned lock, a call emits nothing and leaves the state alone. A fresh gate always emits and records `now`. An armed gate at `l` emits exactly when the window is zero or `l + window <= now`. An emission records exactly `now`. A suppressed call leaves the state unchanged. |
| `Gate.StepIsTransition` | src/lib.rs:39-52 | The step function agrees exactly with the gate's life-cycle relation: unused to armed(now); armed to re-armed when due; armed stays armed and silent inside its window; a failed lock changes nothing. |
| `Gate.Once` | src/lib.rs:69-72 | A `*_once!` call on an unused gate emits exactly when the lock is available. An armed gate emits exactly when the lock is available and the time since its emission is at least `Duration::MAX`. An emission records exactly `now`. A silent call, whether its lock failed or it was not due, keeps the state. |
| `Gate.ZeroWindowAlwaysDue` | src/lib.rs:44-46 | With a zero duration, a call emits exactly when it can take the lock, because the comparison is `>=`. |
| `Trace.RunAppend` | src/lib.rs:39-52 | The gate remembers nothing but its stored instant. Running two batches of calls one after the other equals running the second batch from the state the first batch left. |
| `Trace.FinalIsLastOutcome` | src/lib.rs:48-51 | The cell's contents after a run are the state recorded by its last call, or the starting state when there are no calls. |
| `Trace.SilentRunKeepsState` | src/lib.rs:48-51 | Until the first emission of a run, the cell keeps the state the run started from. Suppressed and lock-failed calls do not change it. |
| `Trace.RunRecordsLastEmission` | src/lib.rs:48-51 | After every call, the cell holds the clock reading of the latest emission so far. Only emissions change the cell. |
| `Trace.StoredNeverDecreases` | src/lib.rs:42-49 | With non-decreasing clock readings, the stored instant never decreases along a run. It is never earlier than the starting state and never later than the current call's reading. |
| `Trace.EmitsAfterWindow` | src/lib.rs:44-46 | Starting from a gate armed at `l`, every emitting call is at least its own window after `l`. |
| `Trace.EmissionsAreSpaced` | src/lib.rs:17-20 | From any starting state, with non-decreasing clock readings, any two emissions `i < j` of one callsite satisfy `now_i + window_j <= now_j`. No call inside the window of an earlier emission gets through. |
| `Trace.SameWindowSpacing` | src/lib.rs:44-49 | With one fixed duration `d`, any two emissions of a run are at least `d` apart. |
| `Trace.ZeroWindowEmitsEveryLockedCall` | src/lib.rs:44-46 | With a zero duration, every call of a run emits exactly when it takes the lock, whatever the clock reads. |
| `Trace.OnceArmedStaysSilent` | src/lib.rs:56-58 | Once a `*_once!` gate is armed, no later call emits and the stored instant never changes. |
| `Trace.OnceEmitsOnlyFirst` | src/lib.rs:56-72 | A fresh `*_once!` callsite emits at call `i` exactly when call `i` takes the lock and no earlier call did. So it emits at most once. |
| `Trace.WindowPair` | src/lib.rs:17-20 | Two calls with duration `d` at a fresh callsite, at `t0 <= t1`: the first emits, and the second emits exactly when `t1 - t0 >= d`. |
| `Trace.ThirtySecondScenario` | src/lib.rs:29-30 | With a 30-second duration and calls at 0 s, 10 s, 35 s and 40 s, the emissions are `[true, false, true, false]`. |
| `Trace.OnceFiveCalls` | src/lib.rs:56-72 | A `*_once!` callsite reached five times emits on the first call only. |
| `Callsites.Invoke` | src/lib.rs:20 | A call at one callsite is decided by that callsite's own gate. It creates the callsite's cell on first use. Every other callsite's state stays exactly as it was. |
| `Callsites.SiteSeesOnlyItsOwnCalls` | src/lib.rs:39-40 | In any interleaving of calls across callsites, the outcomes and final state at callsite `k` equal running `k`'s gate alone on `k`'s own calls. |
| `Callsites.SitesWithSameCallsAgree` | src/lib.rs:39-40 | Two callsites that start alike and receive the same calls make the same decisions and end in the same state, however their calls interleave. |
| `Callsites.UntouchedSiteKeepsState` | src/lib.rs:39-40 | A callsite that no call reaches keeps its state, and it has no outcomes. |
| `Callsites.TwoOnceCallsitesBothEmit` | src/lib.rs:319-323 | Two `*_once!` invocations at two different callsites, each reached once, both emit, because each expansion owns its own cell. |

## Left out

- Emission: the `log::info!`, `log::warn!`, `log::error!`, `log::debug!` and `log::trace!` sink calls and message formatting. An emission is the `emit` flag of an outcome.
- The five severity levels are not modelled separately. Their macros are identical apart from the sink call (src/lib.rs:100-110, 158-168, 216-226, 274-284).
- Concurrency: the `Mutex`, the `LazyLock` and thread interleavings. Each call is atomic, and the runs follow the order in which calls take the lock.
- Lock poisoning is a per-call `lockOk` flag. A poisoned `Mutex` stays poisoned, so in practice every later call at that callsite has the flag false. The model allows any pattern of flags.
- `Instant::now()` is not modelled. The clock reading is a parameter of each call.
- Macro expansion is not modelled. A callsite is an abstract key, and the creation of its static cell is the first write of that key into the map.
- `Duration` is bounded by `Duration::MAX` in the source. In the model, durations are unbounded natural numbers.
- `Trace.OnceArmedStaysSilent`: proved only for clock readings below `Duration::MAX`. A monotonic clock reading never comes near `Duration::MAX`, which is about 5.8·10^11 years. So `duration_since(l) >= Duration::MAX` never holds in practice, and the hypothesis excludes no real run.
- `Trace.OnceEmitsOnlyFirst`: proved only for clock readings below `Duration::MAX`, for the same reason as `Trace.OnceArmedStaysSilent`.

## Findings

| source | as written | input that shows it | evidently intended | confidence | as-written member | corrected member |
|---|---|---|---|---|---|---|
| src/lib.rs:319-323 | The test calls `info_once!` on two separate lines, and its comment says the second call is dropped. Each expansion declares its own static cell (src/lib.rs:39-40, 71), so the two calls use two different gates. | A fresh process that runs `test_once_macro`: the call on line 320 is the first at its callsite and emits, and the call on line 321 is the first at its own callsite and also emits. | Only a second call at the same callsite is dropped. That is what the doc comment at src/lib.rs:56-58 says. | not executed | `Callsites.TwoOnceCallsitesBothEmit` | `Trace.OnceEmitsOnlyFirst` |

## Notes

- When the clock reads earlier than the stored instant, the elapsed time is zero. A call is then due only when its duration is zero. This follows the saturating `Instant::duration_since`.
- A poisoned lock makes a call do nothing, silently (src/lib.rs:42). The model covers that case through the `lockOk` flag.
