/** Spacing of D-Bus calls in time (DbusDelayer and DelayedMethod in
    src/dbus_accessor.cpp and include/dbus_accessor.hpp). */
module DbusDelays {

  const NS_PER_MS: int := 1_000_000

  datatype DelayerState = Idle | Waiting | Calling

  /** How a call goes: it returns, throws, or something throws while it is still waiting. */
  datatype Fate = Returns | ThrowsInCall | ThrowsWhileWaiting

  /** A call that was made: the bound then in force and when it started and finished. */
  datatype CallRecord = CallRecord(bound: int, start: int, finish: int)

  /** Whole milliseconds, fractions cut off toward zero. */
  function ToMilliseconds(ns: int): int {
    if ns >= 0 then ns / NS_PER_MS else -(-ns / NS_PER_MS)
  }

  /** The delay that is asked for. */
  function Delay(bound: int, now: int, lastCallFinish: int): int {
    var d := bound - ToMilliseconds(now - lastCallFinish);
    if d > 0 then d else 0
  }

  /** Cutting off fractions never shortens the distance below the bound, and makes it
      longer by less than a millisecond. */
  lemma DelayIsTight(bound: int, now: int, last: int)
    requires last <= now
    ensures now + Delay(bound, now, last) * 1_000_000 >= last + bound * 1_000_000
    ensures Delay(bound, now, last) > 0 ==> now + Delay(bound, now, last) * 1_000_000 < last + (bound + 1) * 1_000_000
    ensures Delay(bound, now, last) == 0 <==> now >= last + bound * 1_000_000
  {
  }

  /** Consecutive calls keep the bound. */
  predicate Spaced(calls: seq<CallRecord>) {
    && (forall i :: 0 <= i < |calls| ==> calls[i].start <= calls[i].finish)
    && (forall i :: 0 < i < |calls| ==> calls[i].start >= calls[i - 1].finish + calls[i].bound * NS_PER_MS)
  }

  /** Calls that keep the bound do not overlap, and any two of them keep it. */
  lemma {:induction false} SpacedAny(calls: seq<CallRecord>, i: nat, j: nat)
    requires Spaced(calls) && i < j < |calls| && forall k :: 0 <= k < |calls| ==> calls[k].bound >= 0
    ensures calls[i].finish <= calls[j].start && calls[j].start >= calls[i].finish + calls[j].bound * NS_PER_MS
    decreases j - i
  {
    if i + 1 < j {
      SpacedAny(calls, i, j - 1);
    }
  }

  class DbusDelayer {
    var state: DelayerState
    var waitTimeLowerBound: int
    var lastCallFinish: int
    /** The time of the last reading of the steady clock. */
    var clock: int
    /** The calls made so far. */
    ghost var calls: seq<CallRecord>

    /** No call finished after the time remembered, unless it is the one being made. */
    ghost predicate Valid()
      reads this
    {
      && Spaced(calls) && lastCallFinish <= clock
      && (forall i :: 0 <= i < |calls| ==> calls[i].finish <= lastCallFinish)
    }

    constructor (bound: int, now: int)
      ensures Valid() && state == Idle && calls == [] && waitTimeLowerBound == bound
    {
      state, waitTimeLowerBound, lastCallFinish, clock, calls := Idle, bound, now, now, [];
    }

    /** The steady clock never goes back. */
    method Now() returns (now: int)
      modifies this`clock
      ensures now == clock >= old(clock)
    {
      var elapsed: int :| elapsed >= 0;
      clock := clock + elapsed;
      return clock;
    }

    /** Sleeps at least as long as asked. */
    method SleepFor(ms: int)
      requires ms >= 0
      modifies this`clock
      ensures clock >= old(clock) + ms * NS_PER_MS
    {
      var extra: int :| extra >= 0;
      clock := clock + ms * NS_PER_MS + extra;
    }

    method SetDelayTime(bound: int)
      modifies this`waitTimeLowerBound
      ensures waitTimeLowerBound == bound
    {
      waitTimeLowerBound := bound;
    }

    /** A call out of order is ignored, here and in the two methods below. */
    method CallStartAttempt() returns (waitTime: int)
      modifies this`state, this`clock
      ensures clock >= old(clock) && waitTime >= 0
      ensures old(state) == Idle ==> state == Waiting && waitTime == Delay(waitTimeLowerBound, clock, lastCallFinish)
      ensures old(state) != Idle ==> state == old(state) && waitTime == 0 && clock == old(clock)
    {
      if state == Idle {
        var now := Now();
        waitTime := Delay(waitTimeLowerBound, now, lastCallFinish);
        state := Waiting;
      } else {
        waitTime := 0;
      }
    }

    method CallStartActual()
      modifies this`state, this`clock
      ensures clock >= old(clock)
      ensures state == if old(state) == Waiting then Calling else old(state)
    {
      if state == Waiting {
        var _ := Now();
        state := Calling;
      }
    }

    method CallFinished()
      modifies this`state, this`clock, this`lastCallFinish
      ensures clock >= old(clock)
      ensures old(state) == Calling ==> state == Idle && lastCallFinish == clock
      ensures old(state) != Calling ==> state == old(state) && lastCallFinish == old(lastCallFinish)
    {
      if state == Calling {
        var now := Now();
        lastCallFinish := now;
        state := Idle;
      }
    }

    /** The destructor of the state guard: whatever happened, back to idle. */
    method DropStateGuard()
      requires lastCallFinish <= clock
      modifies this`state, this`clock, this`lastCallFinish
      ensures state == Idle && clock >= old(clock)
      ensures lastCallFinish == if old(state) == Idle then old(lastCallFinish) else clock
      ensures old(state) == Idle ==> clock == old(clock)
    {
      if state == Waiting {
        CallStartActual();
      }
      if state == Calling {
        CallFinished();
      }
    }

    /** The bus takes its time. */
    method BusCall()
      modifies this`clock
      ensures clock >= old(clock)
    {
      var _ := Now();
    }

    /** `DelayedMethod::call`: however it ends the delayer is idle again, and a call that
        was made started no sooner than the bound after the one before it finished. Found
        in another state, as never happens under the mutex, it makes the call at once. */
    method Call(fate: Fate) returns (replied: bool)
      requires Valid()
      modifies this
      ensures Valid() && state == Idle && waitTimeLowerBound == old(waitTimeLowerBound)
      ensures replied <==> fate == Returns || (old(state) != Idle && fate == ThrowsWhileWaiting)
      ensures fate == ThrowsWhileWaiting || old(state) != Idle ==> calls == old(calls)
      ensures fate != ThrowsWhileWaiting && old(state) == Idle ==>
        |calls| == |old(calls)| + 1 && calls[..|old(calls)|] == old(calls)
        && var made := calls[|old(calls)|];
           made.bound == waitTimeLowerBound && made.finish == lastCallFinish
           && made.start >= old(lastCallFinish) + made.bound * NS_PER_MS
    {
      if state != Idle {
        BusCall();
        DropStateGuard();
        return fate != ThrowsInCall;
      }
      var waitTime := CallStartAttempt();
      DelayIsTight(waitTimeLowerBound, clock, lastCallFinish);
      if fate == ThrowsWhileWaiting {
        DropStateGuard();
        return false;
      }
      SleepFor(waitTime);
      CallStartActual();
      ghost var start := clock;
      BusCall();
      if fate == ThrowsInCall {
        DropStateGuard();
      } else {
        CallFinished();
        DropStateGuard();
      }
      calls := calls + [CallRecord(waitTimeLowerBound, start, lastCallFinish)];
      return fate == Returns;
    }

    /** Any sequence of calls and changes of the bound. */
    method CallAll(operations: seq<Operation>)
      requires Valid() && state == Idle
      modifies this
      ensures Valid() && state == Idle && Spaced(calls)
      ensures |calls| == |old(calls)| + MadeBy(operations)
    {
      for i := 0 to |operations|
        invariant Valid() && state == Idle
        invariant |calls| == |old(calls)| + MadeBy(operations[..i])
      {
        assert operations[..i + 1][..i] == operations[..i];
        match operations[i] {
          case SetDelay(bound) => SetDelayTime(bound);
          case MakeCall(fate) => var _ := Call(fate);
        }
      }
      assert operations[..|operations|] == operations;
    }
  }

  datatype Operation = SetDelay(bound: int) | MakeCall(fate: Fate)

  /** How many calls get as far as the bus. */
  function MadeBy(operations: seq<Operation>): nat {
    if operations == [] then 0
    else
      var n := |operations| - 1;
      var made := operations[n].MakeCall? && operations[n].fate != ThrowsWhileWaiting;
      MadeBy(operations[..n]) + if made then 1 else 0
  }
}
