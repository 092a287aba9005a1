/**
 Successive invocations of one callsite's gate.

 A run feeds a sequence of calls through `Gate.Step`, threading the cell's
 contents from each call to the next, exactly as repeated executions of one
 macro expansion share its static cell.
 */
module Trace {
  import opened Gate

  /** The outcome of every call, in order, starting from state `s`. */
  function Run(s: State, calls: seq<Call>): (outs: seq<Outcome>)
    ensures |outs| == |calls|
    decreases |calls|
  {
    if |calls| == 0 then []
    else
      var o := Step(s, calls[0]);
      [o] + Run(o.next, calls[1..])
  }

  /** The cell's contents after all of `calls`. */
  function Final(s: State, calls: seq<Call>): State
    decreases |calls|
  {
    if |calls| == 0 then s else Final(Step(s, calls[0]).next, calls[1..])
  }

  /** Which calls emitted. */
  function Emits(outs: seq<Outcome>): seq<bool>
  {
    seq(|outs|, i requires 0 <= i < |outs| => outs[i].emit)
  }

  /** Calls arrive with non-decreasing clock readings. */
  ghost predicate Sorted(calls: seq<Call>)
  {
    forall i, j :: 0 <= i < j < |calls| ==> calls[i].now <= calls[j].now
  }

  /** The recorded emission, if any, is no later than any call's clock reading. */
  ghost predicate StartsBefore(s: State, calls: seq<Call>)
  {
    s.Some? ==> forall i :: 0 <= i < |calls| ==> s.value <= calls[i].now
  }

  /** State `a` is no later than state `b`: nothing recorded yet, or both recorded and in order. */
  predicate NoLater(a: State, b: State)
  {
    a.None? || (b.Some? && a.value <= b.value)
  }

  /** A single emission window for every call. */
  ghost predicate Window(calls: seq<Call>, d: Duration)
  {
    forall i :: 0 <= i < |calls| ==> calls[i].window == d
  }

  /** Every call comes from a `*_once!` macro, before the clock could reach `Duration::MAX`. */
  ghost predicate OnceCalls(calls: seq<Call>)
  {
    forall i :: 0 <= i < |calls| ==> calls[i].window == MaxDuration && calls[i].now < MaxDuration
  }

  /** The state after the last call is the one the last outcome recorded. */
  lemma {:induction false} FinalIsLastOutcome(s: State, calls: seq<Call>)
    ensures |calls| == 0 ==> Final(s, calls) == s
    ensures |calls| > 0 ==> Final(s, calls) == Run(s, calls)[|calls| - 1].next
    decreases |calls|
  {
    if |calls| > 1 {
      FinalIsLastOutcome(Step(s, calls[0]).next, calls[1..]);
    }
  }

  /**
   The gate remembers nothing but its state: running `a` then `b` is running
   `a` and then running `b` from where `a` left the cell.
   */
  lemma {:induction false} RunAppend(s: State, a: seq<Call>, b: seq<Call>)
    ensures Run(s, a + b) == Run(s, a) + Run(Final(s, a), b)
    ensures Final(s, a + b) == Final(Final(s, a), b)
    decreases |a|
  {
    if |a| > 0 {
      var o := Step(s, a[0]);
      assert (a + b)[1..] == a[1..] + b;
      RunAppend(o.next, a[1..], b);
    } else {
      assert a + b == b;
    }
  }

  /** No outcome strictly after index `lo` and up to index `hi` is an emission. */
  ghost predicate SilentBetween(outs: seq<Outcome>, lo: int, hi: int)
  {
    forall m :: lo < m <= hi && 0 <= m < |outs| ==> !outs[m].emit
  }

  /** Silence in a run carries over to the run of its remaining calls, one index earlier. */
  lemma SilentInRest(o: Outcome, rest: seq<Outcome>, lo: int, hi: int)
    requires SilentBetween([o] + rest, lo, hi)
    ensures SilentBetween(rest, lo - 1, hi - 1)
  {
    forall m | lo - 1 < m <= hi - 1 && 0 <= m < |rest|
      ensures !rest[m].emit
    {
      assert rest[m] == ([o] + rest)[m + 1];
    }
  }

  /**
   Until the first emission, the cell keeps the state the run started from.
   */
  lemma {:induction false} SilentRunKeepsState(s: State, calls: seq<Call>)
    ensures forall i :: 0 <= i < |calls| && SilentBetween(Run(s, calls), -1, i) ==>
              Run(s, calls)[i].next == s
    decreases |calls|
  {
    if |calls| > 0 {
      var outs := Run(s, calls);
      var o := Step(s, calls[0]);
      var rest := Run(o.next, calls[1..]);
      assert outs == [o] + rest;
      SilentRunKeepsState(o.next, calls[1..]);
      forall i | 0 <= i < |calls| && SilentBetween(outs, -1, i)
        ensures outs[i].next == s
      {
        assert !outs[0].emit;
        if i > 0 {
          SilentInRest(o, rest, -1, i);
          assert SilentBetween(rest, -1, i - 1);
          assert outs[i] == rest[i - 1];
        }
      }
    }
  }

  /**
   Nothing but an emission changes the cell: after each call it holds the
   clock reading of the latest emission so far.
   */
  lemma {:induction false} RunRecordsLastEmission(s: State, calls: seq<Call>)
    ensures forall k, i ::
              (0 <= k <= i < |calls| && Run(s, calls)[k].emit && SilentBetween(Run(s, calls), k, i)) ==>
              Run(s, calls)[i].next == Some(calls[k].now)
    decreases |calls|
  {
    if |calls| > 0 {
      var outs := Run(s, calls);
      var o := Step(s, calls[0]);
      var rest := Run(o.next, calls[1..]);
      assert outs == [o] + rest;
      RunRecordsLastEmission(o.next, calls[1..]);
      SilentRunKeepsState(o.next, calls[1..]);
      forall k, i | 0 <= k <= i < |calls| && outs[k].emit && SilentBetween(outs, k, i)
        ensures outs[i].next == Some(calls[k].now)
      {
        if i > 0 {
          SilentInRest(o, rest, k, i);
          assert outs[i] == rest[i - 1];
        }
        if k > 0 {
          assert outs[k] == rest[k - 1];
          assert calls[1..][k - 1] == calls[k];
        }
      }
    }
  }

  /**
   With clock readings that never go backwards, the recorded timestamp never
   decreases, never precedes the starting state, and never runs ahead of the
   call that produced it.
   */
  lemma {:induction false} StoredNeverDecreases(s: State, calls: seq<Call>)
    requires Sorted(calls)
    requires StartsBefore(s, calls)
    ensures forall i :: 0 <= i < |calls| ==> NoLater(s, Run(s, calls)[i].next)
    ensures forall i :: 0 <= i < |calls| && Run(s, calls)[i].next.Some? ==>
              Run(s, calls)[i].next.value <= calls[i].now
    ensures forall i, j :: 0 <= i < j < |calls| ==>
              NoLater(Run(s, calls)[i].next, Run(s, calls)[j].next)
    decreases |calls|
  {
    if |calls| > 0 {
      var outs := Run(s, calls);
      var o := Step(s, calls[0]);
      var rest := Run(o.next, calls[1..]);
      assert outs == [o] + rest;
      assert Sorted(calls[1..]);
      assert StartsBefore(o.next, calls[1..]);
      StoredNeverDecreases(o.next, calls[1..]);
      forall i | 0 < i < |calls|
        ensures outs[i] == rest[i - 1]
        ensures calls[i] == calls[1..][i - 1]
      {
      }
    }
  }

  /**
   Measured from an armed gate at time `l`, an emitting call is at least its
   own window after `l`.
   */
  lemma {:induction false} EmitsAfterWindow(l: Timestamp, calls: seq<Call>)
    requires Sorted(calls)
    requires StartsBefore(Some(l), calls)
    ensures forall j :: 0 <= j < |calls| && Run(Some(l), calls)[j].emit ==>
              l + calls[j].window <= calls[j].now
    decreases |calls|
  {
    if |calls| > 0 {
      var outs := Run(Some(l), calls);
      var o := Step(Some(l), calls[0]);
      var rest := Run(o.next, calls[1..]);
      assert outs == [o] + rest;
      assert Sorted(calls[1..]);
      assert StartsBefore(o.next, calls[1..]);
      EmitsAfterWindow(o.next.value, calls[1..]);
      forall j | 0 < j < |calls| && outs[j].emit
        ensures l + calls[j].window <= calls[j].now
      {
        assert outs[j] == rest[j - 1];
        assert calls[j] == calls[1..][j - 1];
        assert l <= o.next.value;
      }
    }
  }

  /**
   Any two emissions of a run with non-decreasing clock readings are at least
   the later call's window apart: no call inside the window of the last
   emission gets through.
   */
  lemma {:induction false} EmissionsAreSpaced(s: State, calls: seq<Call>)
    requires Sorted(calls)
    ensures forall i, j :: 0 <= i < j < |calls| && Run(s, calls)[i].emit && Run(s, calls)[j].emit ==>
              calls[i].now + calls[j].window <= calls[j].now
    decreases |calls|
  {
    if |calls| > 0 {
      var outs := Run(s, calls);
      var o := Step(s, calls[0]);
      var rest := Run(o.next, calls[1..]);
      assert outs == [o] + rest;
      assert Sorted(calls[1..]);
      EmissionsAreSpaced(o.next, calls[1..]);
      if o.emit {
        assert StartsBefore(Some(calls[0].now), calls[1..]);
        EmitsAfterWindow(calls[0].now, calls[1..]);
      }
      forall i, j | 0 <= i < j < |calls| && outs[i].emit && outs[j].emit
        ensures calls[i].now + calls[j].window <= calls[j].now
      {
        assert outs[j] == rest[j - 1];
        assert calls[j] == calls[1..][j - 1];
        if i > 0 {
          assert outs[i] == rest[i - 1];
          assert calls[i] == calls[1..][i - 1];
        }
      }
    }
  }

  /** With a single window `d`, any two emissions are at least `d` apart. */
  lemma SameWindowSpacing(s: State, calls: seq<Call>, d: Duration)
    requires Sorted(calls)
    requires Window(calls, d)
    ensures forall i, j :: 0 <= i < j < |calls| && Run(s, calls)[i].emit && Run(s, calls)[j].emit ==>
              calls[j].now - calls[i].now >= d
  {
    EmissionsAreSpaced(s, calls);
  }

  /** With a zero window every call that takes the lock emits, whatever the clock reads. */
  lemma {:induction false} ZeroWindowEmitsEveryLockedCall(s: State, calls: seq<Call>)
    requires Window(calls, 0)
    ensures forall i :: 0 <= i < |calls| ==> (Run(s, calls)[i].emit <==> calls[i].lockOk)
    decreases |calls|
  {
    if |calls| > 0 {
      var o := Step(s, calls[0]);
      assert Run(s, calls) == [o] + Run(o.next, calls[1..]);
      assert Window(calls[1..], 0);
      ZeroWindowEmitsEveryLockedCall(o.next, calls[1..]);
      forall i | 0 < i < |calls|
        ensures Run(s, calls)[i] == Run(o.next, calls[1..])[i - 1]
        ensures calls[i] == calls[1..][i - 1]
      {
      }
    }
  }

  /** Once a `*_once!` gate is armed, no later call emits and the state stays put. */
  lemma {:induction false} OnceArmedStaysSilent(l: Timestamp, calls: seq<Call>)
    requires OnceCalls(calls)
    ensures forall i :: 0 <= i < |calls| ==> Run(Some(l), calls)[i] == Outcome(false, Some(l))
    decreases |calls|
  {
    if |calls| > 0 {
      var o := Step(Some(l), calls[0]);
      assert o == Outcome(false, Some(l));
      assert Run(Some(l), calls) == [o] + Run(Some(l), calls[1..]);
      assert OnceCalls(calls[1..]);
      OnceArmedStaysSilent(l, calls[1..]);
      forall i | 0 < i < |calls|
        ensures Run(Some(l), calls)[i] == Run(Some(l), calls[1..])[i - 1]
      {
      }
    }
  }

  /**
   A fresh `*_once!` callsite emits exactly at its first call that takes the
   lock, and at no other call.
   */
  lemma {:induction false} OnceEmitsOnlyFirst(calls: seq<Call>)
    requires OnceCalls(calls)
    ensures forall i :: 0 <= i < |calls| ==>
              (Run(Unused, calls)[i].emit <==> calls[i].lockOk && forall k :: 0 <= k < i ==> !calls[k].lockOk)
    ensures forall i, j ::
              (0 <= i < |calls| && 0 <= j < |calls| &&
               Run(Unused, calls)[i].emit && Run(Unused, calls)[j].emit) ==> i == j
    decreases |calls|
  {
    if |calls| > 0 {
      var o := Step(Unused, calls[0]);
      var rest := Run(o.next, calls[1..]);
      assert Run(Unused, calls) == [o] + rest;
      assert OnceCalls(calls[1..]);
      if calls[0].lockOk {
        OnceArmedStaysSilent(calls[0].now, calls[1..]);
      } else {
        OnceEmitsOnlyFirst(calls[1..]);
      }
      forall i | 0 < i < |calls|
        ensures Run(Unused, calls)[i] == rest[i - 1]
        ensures calls[i] == calls[1..][i - 1]
      {
      }
    }
  }

  /**
   Two calls at one fresh callsite with the same window `d`: the first emits,
   and the second emits exactly when `d` has passed since the first.
   */
  lemma WindowPair(d: Duration, t0: Timestamp, t1: Timestamp)
    requires t0 <= t1
    ensures Emits(Run(Unused, [Call(d, t0, true), Call(d, t1, true)])) == [true, t1 - t0 >= d]
  {
  }

  /** A 30-second window with calls at 0 s, 10 s, 35 s and 40 s emits at 0 s and 35 s only. */
  lemma ThirtySecondScenario()
    ensures var s := 1_000_000_000;
            Emits(Run(Unused, [Call(30 * s, 0, true), Call(30 * s, 10 * s, true),
                               Call(30 * s, 35 * s, true), Call(30 * s, 40 * s, true)]))
            == [true, false, true, false]
  {
    var s := 1_000_000_000;
    var calls := [Call(30 * s, 0, true), Call(30 * s, 10 * s, true),
                  Call(30 * s, 35 * s, true), Call(30 * s, 40 * s, true)];
    assert Run(Some(35 * s), calls[3..]) == [Outcome(false, Some(35 * s))];
    assert Run(Some(0), calls[2..]) == [Outcome(true, Some(35 * s)), Outcome(false, Some(35 * s))];
    assert Run(Some(0), calls[1..]) == [Outcome(false, Some(0))] + Run(Some(0), calls[2..]);
    assert Run(Unused, calls) == [Outcome(true, Some(0))] + Run(Some(0), calls[1..]);
  }

  /** A `*_once!` callsite reached five times emits on the first only. */
  lemma OnceFiveCalls()
    ensures Emits(Run(Unused, [OnceCall(0, true), OnceCall(1, true), OnceCall(2, true),
                               OnceCall(3, true), OnceCall(4, true)]))
            == [true, false, false, false, false]
  {
  }
}
