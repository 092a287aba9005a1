/**
 The debounce gate that every logging macro of the crate expands to.

 Each expansion of `info_debounce!`, `warn_debounce!`, `error_debounce!`,
 `debug_debounce!` or `trace_debounce!` owns one static cell holding the time
 of its last emission. A call takes the cell's lock, decides whether enough
 time has passed, and, only if so, records the current time and emits. The
 `*_once!` macros are the same gate with the window `Duration::MAX`.

 The lock is abstracted to a flag saying whether it could be taken, the clock
 to the reading passed in, and the emission itself to the returned boolean.
 */
module Gate {

  datatype Option<+T> = None | Some(value: T)

  /** A reading of the monotonic clock, in nanoseconds since its origin. */
  type Timestamp = nat

  /** A span of time, in nanoseconds. */
  type Duration = nat

  /** The contents of one callsite's static cell: when it last emitted, if ever. */
  type State = Option<Timestamp>

  /** The state every callsite's cell is created in. */
  const Unused: State := None

  /** `Duration::MAX`: `u64::MAX` seconds plus 999,999,999 nanoseconds. */
  const MaxDuration: Duration := 18_446_744_073_709_551_615 * 1_000_000_000 + 999_999_999

  /**
   One invocation of a debounce macro: the value of its duration expression,
   the clock reading taken once the lock is held, and whether the lock could
   be taken at all (a poisoned lock cannot). The macro evaluates the duration
   expression only when it holds the lock and finds an earlier emission;
   when the lock fails or the cell is empty, `window` plays no part.
   */
  datatype Call = Call(window: Duration, now: Timestamp, lockOk: bool)

  /** What one invocation does: whether it emits, and the cell's new contents. */
  datatype Outcome = Outcome(emit: bool, next: State)

  /**
   The time from `since` to `now`, saturating at zero when the clock reads
   earlier than `since` (the behaviour of `Instant::duration_since`).
   */
  function Elapsed(now: Timestamp, since: Timestamp): Duration
  {
    if since <= now then now - since else 0
  }

  /** The macro's `should_log`: no earlier emission, or the window has passed. */
  predicate ShouldLog(last: State, window: Duration, now: Timestamp)
  {
    match last
    case None => true
    case Some(l) => Elapsed(now, l) >= window
  }

  /**
   One invocation of the gate. A failed lock does nothing; otherwise the call
   emits when `ShouldLog` holds, and then records exactly its own clock reading.
   */
  function Step(last: State, c: Call): (r: Outcome)
    ensures !c.lockOk ==> r == Outcome(false, last)
    ensures c.lockOk && last.None? ==> r == Outcome(true, Some(c.now))
    ensures c.lockOk && last.Some? ==>
              (r.emit <==> c.window == 0 || last.value + c.window <= c.now)
    ensures r.emit ==> r.next == Some(c.now)
    ensures !r.emit ==> r.next == last
  {
    if c.lockOk && ShouldLog(last, c.window, c.now) then Outcome(true, Some(c.now))
    else Outcome(false, last)
  }

  /**
   The gate's life cycle as a relation between a state, a call, a decision
   and the following state: an unused gate is armed at the call's time and
   emits; an armed gate whose window has passed is re-armed at the call's
   time and emits; an armed gate inside its window stays as it is and is
   silent; a call that cannot take the lock is silent and changes nothing.
   */
  ghost predicate Transition(s: State, c: Call, emit: bool, s': State)
  {
    if !c.lockOk then
      !emit && s' == s
    else
      match s
      case None => emit && s' == Some(c.now)
      case Some(t) =>
        if Elapsed(c.now, t) >= c.window then emit && s' == Some(c.now)
        else !emit && s' == s
  }

  /** `Step` is exactly the life cycle: it takes every allowed transition and no other. */
  lemma StepIsTransition(s: State, c: Call, emit: bool, s': State)
    ensures Step(s, c) == Outcome(emit, s') <==> Transition(s, c, emit, s')
  {
  }

  /** The call a `*_once!` macro makes: the debounce gate with window `Duration::MAX`. */
  function OnceCall(now: Timestamp, lockOk: bool): Call
  {
    Call(MaxDuration, now, lockOk)
  }

  /**
   A `*_once!` invocation: an unused gate emits whenever the lock can be
   taken; an armed gate emits only if a full `Duration::MAX` has passed since
   its emission, and otherwise keeps its state.
   */
  function Once(last: State, now: Timestamp, lockOk: bool): (r: Outcome)
    ensures last.None? ==> (r.emit <==> lockOk)
    ensures last.Some? ==> (r.emit <==> lockOk && Elapsed(now, last.value) >= MaxDuration)
    ensures last.Some? && Elapsed(now, last.value) < MaxDuration ==> r == Outcome(false, last)
    ensures r.emit ==> r.next == Some(now)
    ensures !r.emit ==> r.next == last
  {
    Step(last, OnceCall(now, lockOk))
  }

  /** With a zero window the comparison `>=` always holds: every call that takes the lock emits. */
  lemma ZeroWindowAlwaysDue(last: State, now: Timestamp, lockOk: bool)
    ensures Step(last, Call(0, now, lockOk)).emit <==> lockOk
  {
  }
}
