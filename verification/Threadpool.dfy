/** The thread pool (include/threadpool_manager.hpp): an atomic counter of waiting
    threads and a semaphore, as the atomic steps of any number of threads interleave. */
module Threadpools {
  import opened PropertyValues

  const SEMAPHORE_CAPABILITY: nat := 32

  type ThreadId = nat

  /** Where a thread is that has entered and not yet dropped its guard. */
  datatype Phase =
    | Waiting   // let in, before the semaphore
    | TimedOut  // gave up on the semaphore, still counted
    | Rejected  // not let in, still counted
    | Acquired  // past the semaphore, still counted
    | Running   // holds a guard that acquired
    | Failed    // holds a guard that did not

  datatype State = State(maxRunning: nat, maxTotal: int, permits: int, waiting: int, phases: map<ThreadId, Phase>)

  /** The constructor throws on limits that do not fit together. */
  function Init(maxRunning: nat, maxTotal: int): Option<State> {
    if maxRunning > SEMAPHORE_CAPABILITY || maxTotal < maxRunning then None
    else Some(State(maxRunning, maxTotal, maxRunning, 0, map[]))
  }

  datatype Step =
    | Enter(t: ThreadId)
    | Withdraw(t: ThreadId)
    | Acquire(t: ThreadId)
    | TimeOut(t: ThreadId)
    | Start(t: ThreadId)
    | Leave(t: ThreadId)

  predicate In(s: State, t: ThreadId, p: Phase) {
    t in s.phases && s.phases[t] == p
  }

  predicate Enabled(s: State, step: Step) {
    match step
    case Enter(t) => t !in s.phases
    case Withdraw(t) => In(s, t, Rejected) || In(s, t, TimedOut)
    case Acquire(t) => In(s, t, Waiting) && s.permits > 0
    case TimeOut(t) => In(s, t, Waiting)
    case Start(t) => In(s, t, Acquired)
    case Leave(t) => In(s, t, Running) || In(s, t, Failed)
  }

  /** One atomic step: the increment with the test of the old value, a decrement, or
      the passage of the semaphore. */
  function Next(s: State, step: Step): State
    requires Enabled(s, step)
  {
    match step
    case Enter(t) =>
      s.(waiting := s.waiting + 1, phases := s.phases[t := if s.waiting >= s.maxTotal then Rejected else Waiting])
    case Withdraw(t) => s.(waiting := s.waiting - 1, phases := s.phases[t := Failed])
    case Acquire(t) => s.(permits := s.permits - 1, phases := s.phases[t := Acquired])
    case TimeOut(t) => s.(phases := s.phases[t := TimedOut])
    case Start(t) => s.(waiting := s.waiting - 1, phases := s.phases[t := Running])
    case Leave(t) =>
      s.(permits := if s.phases[t] == Running then s.permits + 1 else s.permits, phases := s.phases - {t})
  }

  ghost predicate CanRun(s: State, steps: seq<Step>)
    decreases |steps|
  {
    steps != [] ==> Enabled(s, steps[0]) && CanRun(Next(s, steps[0]), steps[1..])
  }

  ghost function Run(s: State, steps: seq<Step>): State
    requires CanRun(s, steps)
    decreases |steps|
  {
    if steps == [] then s else Run(Next(s, steps[0]), steps[1..])
  }

  // -------------------------------------------------------------------- counting

  ghost function Threads(phases: map<ThreadId, Phase>, p: Phase): set<ThreadId> {
    set t | t in phases && phases[t] == p
  }

  ghost function Count(phases: map<ThreadId, Phase>, p: Phase): nat {
    |Threads(phases, p)|
  }

  function One(b: bool): int {
    if b then 1 else 0
  }

  lemma CountSplit(s: set<ThreadId>, t: ThreadId)
    ensures |s| == |s - {t}| + One(t in s)
  {
    if t in s {
      assert s == (s - {t}) + {t};
    } else {
      assert s - {t} == s;
    }
  }

  lemma CountPutOne(phases: map<ThreadId, Phase>, t: ThreadId, p: Phase, q: Phase)
    ensures Count(phases[t := p], q) == Count(phases, q) - One(t in phases && phases[t] == q) + One(p == q)
  {
    var before, after := Threads(phases, q), Threads(phases[t := p], q);
    assert after - {t} == before - {t};
    assert t in before <==> t in phases && phases[t] == q;
    assert t in after <==> p == q;
    CountSplit(before, t);
    CountSplit(after, t);
  }

  lemma CountPut(phases: map<ThreadId, Phase>, t: ThreadId, p: Phase)
    ensures forall q :: (Count(phases[t := p], q)
                         == Count(phases, q) - One(t in phases && phases[t] == q) + One(p == q))
  {
    forall q: Phase {
      CountPutOne(phases, t, p, q);
    }
  }

  lemma CountDrop(phases: map<ThreadId, Phase>, t: ThreadId)
    requires t in phases
    ensures forall q :: Count(phases - {t}, q) == Count(phases, q) - One(phases[t] == q)
  {
    forall q ensures Count(phases - {t}, q) == Count(phases, q) - One(phases[t] == q) {
      assert Threads(phases - {t}, q) == Threads(phases, q) - {t};
    }
  }

  /** The threads that the test let in and that still count as waiting. */
  ghost function Admitted(s: State): nat {
    Count(s.phases, Waiting) + Count(s.phases, TimedOut) + Count(s.phases, Acquired)
  }

  ghost predicate Invariant(s: State) {
    && s.maxRunning <= SEMAPHORE_CAPABILITY && s.maxRunning <= s.maxTotal
    && s.permits >= 0
    && s.permits + Count(s.phases, Acquired) + Count(s.phases, Running) == s.maxRunning
    && s.waiting == Admitted(s) + Count(s.phases, Rejected)
    && Admitted(s) <= s.maxTotal
  }

  lemma InitKeeps(maxRunning: nat, maxTotal: int)
    requires Init(maxRunning, maxTotal).Some?
    ensures Invariant(Init(maxRunning, maxTotal).value)
  {
    forall p: Phase ensures Threads(map[], p) == {} {
    }
  }

  lemma StepKeeps(s: State, step: Step)
    requires Invariant(s) && Enabled(s, step)
    ensures Invariant(Next(s, step))
  {
    hide Count;
    match step
    case Enter(t) => CountPut(s.phases, t, if s.waiting >= s.maxTotal then Rejected else Waiting);
    case Withdraw(t) => CountPut(s.phases, t, Failed);
    case Acquire(t) => CountPut(s.phases, t, Acquired);
    case TimeOut(t) => CountPut(s.phases, t, TimedOut);
    case Start(t) => CountPut(s.phases, t, Running);
    case Leave(t) => CountDrop(s.phases, t);
  }

  /** In every interleaving: permits and holders add up, the counter is the number of
      threads let in or not yet withdrawn, and no more are let in than allowed. */
  lemma {:induction false} EveryRunKeeps(s: State, steps: seq<Step>)
    requires Invariant(s) && CanRun(s, steps)
    ensures Invariant(Run(s, steps))
    ensures Run(s, steps).maxRunning == s.maxRunning && Run(s, steps).maxTotal == s.maxTotal
    decreases |steps|
  {
    hide Invariant, Next;
    if steps != [] {
      StepKeeps(s, steps[0]);
      KeepsLimits(s, steps[0]);
      EveryRunKeeps(Next(s, steps[0]), steps[1..]);
    }
  }

  lemma KeepsLimits(s: State, step: Step)
    requires Enabled(s, step)
    ensures Next(s, step).maxRunning == s.maxRunning && Next(s, step).maxTotal == s.maxTotal
  {
  }

  /** From construction on. */
  lemma Safety(maxRunning: nat, maxTotal: int, steps: seq<Step>)
    requires Init(maxRunning, maxTotal).Some? && CanRun(Init(maxRunning, maxTotal).value, steps)
    ensures
      var s := Run(Init(maxRunning, maxTotal).value, steps);
      && s.permits + Count(s.phases, Acquired) + Count(s.phases, Running) == maxRunning
      && s.waiting == Admitted(s) + Count(s.phases, Rejected)
      && Admitted(s) <= maxTotal
      && Count(s.phases, Running) + Admitted(s) <= maxRunning + maxTotal
      && 0 <= s.permits <= 32
      && ((forall t :: t in s.phases ==> s.phases[t] == Failed) ==> s.permits == maxRunning && s.waiting == 0)
  {
    InitKeeps(maxRunning, maxTotal);
    EveryRunKeeps(Init(maxRunning, maxTotal).value, steps);
    var s := Run(Init(maxRunning, maxTotal).value, steps);
    if forall t :: t in s.phases ==> s.phases[t] == Failed {
      forall p: Phase | p != Failed ensures Threads(s.phases, p) == {} {
      }
    }
  }

  // ------------------------------------------------------------ what is not bounded

  lemma {:induction false} RunJoins(s: State, a: seq<Step>, b: seq<Step>)
    requires CanRun(s, a) && CanRun(Run(s, a), b)
    ensures CanRun(s, a + b) && Run(s, a + b) == Run(Run(s, a), b)
    decreases |a|
  {
    if a == [] {
      assert a + b == b;
    } else {
      RunJoins(Next(s, a[0]), a[1..], b);
      assert (a + b)[1..] == a[1..] + b;
    }
  }

  lemma RunOne(s: State, step: Step)
    requires Enabled(s, step)
    ensures CanRun(s, [step]) && Run(s, [step]) == Next(s, step)
  {
  }

  /** Threads 0 up to n - 1 running, the next m waiting. */
  ghost predicate Crowd(s: State, n: nat, m: nat) {
    && (forall t: nat :: t in s.phases <==> t < n + m)
    && (forall t: nat :: t < n ==> In(s, t, Running))
    && (forall t: nat :: n <= t < n + m ==> In(s, t, Waiting))
    && s.permits == s.maxRunning - n && s.waiting == m
  }

  /** The limit called "total" bounds waiting threads only: the sum of both limits is
      reached, whatever they are. */
  lemma TotalIsExceeded(maxRunning: nat, maxTotal: nat) returns (steps: seq<Step>)
    requires Init(maxRunning, maxTotal).Some?
    ensures CanRun(Init(maxRunning, maxTotal).value, steps)
    ensures Crowd(Run(Init(maxRunning, maxTotal).value, steps), maxRunning, maxTotal)
  {
    var s := Init(maxRunning, maxTotal).value;
    steps := [];
    for n := 0 to maxRunning
      invariant CanRun(s, steps) && Crowd(Run(s, steps), n, 0)
      invariant Run(s, steps).maxRunning == maxRunning && Run(s, steps).maxTotal == maxTotal
    {
      var more := StartOne(Run(s, steps), n);
      RunJoins(s, steps, more);
      steps := steps + more;
    }
    for m := 0 to maxTotal
      invariant CanRun(s, steps) && Crowd(Run(s, steps), maxRunning, m)
      invariant Run(s, steps).maxRunning == maxRunning && Run(s, steps).maxTotal == maxTotal
    {
      var now := Run(s, steps);
      var step := Enter(maxRunning + m);
      WaitOne(now, maxRunning, m);
      RunOne(now, step);
      RunJoins(s, steps, [step]);
      steps := steps + [step];
    }
  }

  /** The threads that run or have been let in to wait. */
  ghost function Inside(s: State): nat {
    Count(s.phases, Running) + Admitted(s)
  }

  /** The limit holds for running and waiting threads together in every run exactly if
      no thread may run. */
  lemma TotalHoldsIff(maxRunning: nat, maxTotal: nat)
    requires Init(maxRunning, maxTotal).Some?
    ensures (forall steps :: CanRun(Init(maxRunning, maxTotal).value, steps)
              ==> Inside(Run(Init(maxRunning, maxTotal).value, steps)) <= maxTotal)
       <==> maxRunning == 0
  {
    hide CanRun, Run;
    var s := Init(maxRunning, maxTotal).value;
    InitKeeps(maxRunning, maxTotal);
    if maxRunning == 0 {
      forall steps | CanRun(s, steps) ensures Inside(Run(s, steps)) <= maxTotal {
        EveryRunKeeps(s, steps);
      }
    } else {
      var steps := TotalIsExceeded(maxRunning, maxTotal);
      EveryRunKeeps(s, steps);
      CrowdInside(Run(s, steps), maxRunning, maxTotal);
    }
  }

  lemma CrowdInside(s: State, n: nat, m: nat)
    requires Invariant(s) && Crowd(s, n, m)
    ensures Inside(s) == n + m
  {
    forall t: nat | t in s.phases ensures s.phases[t] == Running || s.phases[t] == Waiting {
      assert if t < n then In(s, t, Running) else In(s, t, Waiting);
    }
    forall p: Phase | p != Running && p != Waiting ensures Threads(s.phases, p) == {} {
    }
  }

  lemma WaitOne(s: State, n: nat, m: nat)
    requires Crowd(s, n, m) && m < s.maxTotal
    ensures Enabled(s, Enter(n + m)) && Crowd(Next(s, Enter(n + m)), n, m + 1)
  {
    var now := Next(s, Enter(n + m));
    forall t: nat | t < n ensures In(now, t, Running) {
      assert In(s, t, Running);
    }
    forall t: nat | n <= t < n + m + 1 ensures In(now, t, Waiting) {
      assert t < n + m ==> In(s, t, Waiting);
    }
  }

  lemma StartOne(s: State, n: nat) returns (steps: seq<Step>)
    requires Crowd(s, n, 0) && n < s.maxRunning <= s.maxTotal
    ensures CanRun(s, steps) && Crowd(Run(s, steps), n + 1, 0)
    ensures Run(s, steps).maxRunning == s.maxRunning && Run(s, steps).maxTotal == s.maxTotal
  {
    var a := Next(s, Enter(n));
    var b := Next(a, Acquire(n));
    var c := Next(b, Start(n));
    RunOne(s, Enter(n));
    RunOne(a, Acquire(n));
    RunOne(b, Start(n));
    RunJoins(s, [Enter(n)], [Acquire(n)]);
    RunJoins(s, [Enter(n)] + [Acquire(n)], [Start(n)]);
    steps := [Enter(n)] + [Acquire(n)] + [Start(n)];
    forall t: nat | t < n + 1 ensures In(c, t, Running) {
      assert t < n ==> In(s, t, Running);
    }
  }

  /** A thread is turned away exactly when those let in and those turned away but still
      counted reach the limit together ... */
  lemma RejectedIff(s: State, t: ThreadId)
    requires Invariant(s) && Enabled(s, Enter(t))
    ensures In(Next(s, Enter(t)), t, Rejected) <==> Admitted(s) + Count(s.phases, Rejected) >= s.maxTotal
  {
    CountPut(s.phases, t, Waiting);
  }

  predicate InLine(t: ThreadId, length: nat) {
    t < length
  }

  /** Threads one after another: some that have failed, some waiting, some rejected. */
  function Line(failed: nat, waiting: nat, rejected: nat): map<ThreadId, Phase> {
    var length := failed + waiting + rejected;
    map t: nat | t < length && InLine(t, length) ::
      if t < failed then Failed else if t < failed + waiting then Waiting else Rejected
  }

  function Lined(maxRunning: nat, maxTotal: int, failed: nat, waiting: nat, rejected: nat): State {
    State(maxRunning, maxTotal, maxRunning, waiting + rejected, Line(failed, waiting, rejected))
  }

  /** The next thread of the line is let in, or rejected once the limit is reached. */
  lemma NextInLine(maxRunning: nat, maxTotal: int, waiting: nat, rejected: nat)
    requires waiting + rejected < maxTotal ==> rejected == 0
    ensures
      var s := Lined(maxRunning, maxTotal, 0, waiting, rejected);
      var step := Enter(waiting + rejected);
      && CanRun(s, [step])
      && Run(s, [step]) == if waiting + rejected < maxTotal then Lined(maxRunning, maxTotal, 0, waiting + 1, 0)
                           else Lined(maxRunning, maxTotal, 0, waiting, rejected + 1)
  {
    RunOne(Lined(maxRunning, maxTotal, 0, waiting, rejected), Enter(waiting + rejected));
  }

  /** The first waiting thread times out and withdraws. */
  lemma FirstGivesUp(maxRunning: nat, maxTotal: int, failed: nat, waiting: nat, rejected: nat)
    requires waiting > 0
    ensures
      var s := Lined(maxRunning, maxTotal, failed, waiting, rejected);
      var steps := [TimeOut(failed)] + [Withdraw(failed)];
      && CanRun(s, steps)
      && Run(s, steps) == Lined(maxRunning, maxTotal, failed + 1, waiting - 1, rejected)
  {
    var s := Lined(maxRunning, maxTotal, failed, waiting, rejected);
    var t := Next(s, TimeOut(failed));
    RunOne(s, TimeOut(failed));
    RunOne(t, Withdraw(failed));
    RunJoins(s, [TimeOut(failed)], [Withdraw(failed)]);
    assert Next(t, Withdraw(failed)).phases == Line(failed + 1, waiting - 1, rejected);
  }

  /** ... so, whatever the limits, it may be turned away although nobody waits at all:
      as many threads as may wait enter, as many more are rejected, and the first ones
      give up before the others withdraw. */
  lemma RejectedWithoutWaiters(maxRunning: nat, maxTotal: nat) returns (steps: seq<Step>)
    requires Init(maxRunning, maxTotal).Some?
    ensures
      var s := Init(maxRunning, maxTotal).value;
      var t := 2 * maxTotal;
      && CanRun(s, steps) && Admitted(Run(s, steps)) == 0 && Count(Run(s, steps).phases, Running) == 0
      && Enabled(Run(s, steps), Enter(t)) && In(Next(Run(s, steps), Enter(t)), t, Rejected)
  {
    hide CanRun, Run, Line;
    var s := Init(maxRunning, maxTotal).value;
    LineStarts(maxRunning, maxTotal);
    steps := [];
    for m := 0 to maxTotal
      invariant CanRun(s, steps) && Run(s, steps) == Lined(maxRunning, maxTotal, 0, m, 0)
    {
      NextInLine(maxRunning, maxTotal, m, 0);
      RunJoins(s, steps, [Enter(m)]);
      steps := steps + [Enter(m)];
    }
    for r := 0 to maxTotal
      invariant CanRun(s, steps) && Run(s, steps) == Lined(maxRunning, maxTotal, 0, maxTotal, r)
    {
      NextInLine(maxRunning, maxTotal, maxTotal, r);
      RunJoins(s, steps, [Enter(maxTotal + r)]);
      steps := steps + [Enter(maxTotal + r)];
    }
    for f := 0 to maxTotal
      invariant CanRun(s, steps) && Run(s, steps) == Lined(maxRunning, maxTotal, f, maxTotal - f, maxTotal)
    {
      FirstGivesUp(maxRunning, maxTotal, f, maxTotal - f, maxTotal);
      RunJoins(s, steps, [TimeOut(f)] + [Withdraw(f)]);
      steps := steps + ([TimeOut(f)] + [Withdraw(f)]);
    }
    NobodyWaits(maxTotal, maxTotal);
  }

  lemma LineStarts(maxRunning: nat, maxTotal: nat)
    requires Init(maxRunning, maxTotal).Some?
    ensures CanRun(Init(maxRunning, maxTotal).value, [])
    ensures Run(Init(maxRunning, maxTotal).value, []) == Lined(maxRunning, maxTotal, 0, 0, 0)
  {
    assert Line(0, 0, 0) == map[];
  }

  lemma NobodyWaits(failed: nat, rejected: nat)
    ensures failed + rejected !in Line(failed, 0, rejected)
    ensures forall p: Phase :: p != Failed && p != Rejected ==> Count(Line(failed, 0, rejected), p) == 0
  {
    forall p: Phase | p != Failed && p != Rejected ensures Count(Line(failed, 0, rejected), p) == 0 {
      assert Threads(Line(failed, 0, rejected), p) == {};
    }
  }

  // --------------------------------------------------------------------- draining

  /** How many steps a thread may still need before it is gone. */
  function Left(p: Phase): nat {
    match p
    case Waiting => 3
    case TimedOut => 2
    case Rejected => 2
    case Acquired => 2
    case Running => 1
    case Failed => 1
  }

  /** From every reachable state the threads inside can all get out without anyone
      else's help, and then the pool is as good as new. */
  lemma {:induction false} CanDrain(s: State) returns (steps: seq<Step>)
    requires Invariant(s)
    ensures CanRun(s, steps)
    ensures Run(s, steps) == State(s.maxRunning, s.maxTotal, s.maxRunning, 0, map[])
    decreases |s.phases|
  {
    if s.phases == map[] {
      steps := [];
      forall p: Phase ensures Threads(s.phases, p) == {} {
      }
    } else {
      var t :| t in s.phases;
      var first := LeaveAlone(s, t);
      var now := Run(s, first);
      EveryRunKeeps(s, first);
      assert |s.phases.Keys| == |now.phases.Keys| + 1;
      var rest := CanDrain(now);
      RunJoins(s, first, rest);
      steps := first + rest;
    }
  }

  lemma {:induction false} LeaveAlone(s: State, t: ThreadId) returns (steps: seq<Step>)
    requires t in s.phases
    ensures CanRun(s, steps) && Run(s, steps).phases == s.phases - {t}
    ensures Run(s, steps).maxRunning == s.maxRunning && Run(s, steps).maxTotal == s.maxTotal
    decreases Left(s.phases[t])
  {
    var step := match s.phases[t]
      case Waiting => TimeOut(t)
      case TimedOut => Withdraw(t)
      case Rejected => Withdraw(t)
      case Acquired => Start(t)
      case Running => Leave(t)
      case Failed => Leave(t);
    RunOne(s, step);
    steps := [step];
    if !step.Leave? {
      var rest := LeaveAlone(Next(s, step), t);
      RunJoins(s, [step], rest);
      steps := [step] + rest;
    }
  }

  // --------------------------------------------------------- the guard of one thread

  /** The pool as an object, driven one atomic step at a time. */
  class ThreadpoolManager {
    const maxRunning: nat
    const maxTotal: int
    var permits: int
    var waiting: int
    var phases: map<ThreadId, Phase>

    ghost function Now(): State
      reads this
    {
      State(maxRunning, maxTotal, permits, waiting, phases)
    }

    constructor (maxRunning: nat, maxTotal: int)
      requires Init(maxRunning, maxTotal).Some?
      ensures Now() == Init(maxRunning, maxTotal).value && Invariant(Now())
    {
      this.maxRunning, this.maxTotal, permits, waiting, phases := maxRunning, maxTotal, maxRunning, 0, map[];
      new;
      InitKeeps(maxRunning, maxTotal);
    }

    /** The increment and the test of the value before it. */
    method FetchAdd(t: ThreadId)
      requires Invariant(Now()) && Enabled(Now(), Enter(t))
      modifies this
      ensures Now() == Next(old(Now()), Enter(t)) && Invariant(Now())
    {
      StepKeeps(Now(), Enter(t));
      var existingWaiters := waiting;
      waiting := waiting + 1;
      phases := phases[t := if existingWaiters >= maxTotal then Rejected else Waiting];
    }

    /** The semaphore, which lets the thread pass or times out. */
    method TryAcquireFor(t: ThreadId, timeout: bool) returns (acquired: bool)
      requires Invariant(Now()) && In(Now(), t, Waiting) && (timeout || permits > 0)
      modifies this
      ensures acquired == !timeout && Invariant(Now())
      ensures Now() == Next(old(Now()), if timeout then TimeOut(t) else Acquire(t))
    {
      StepKeeps(Now(), if timeout then TimeOut(t) else Acquire(t));
      if timeout {
        phases := phases[t := TimedOut];
        return false;
      }
      permits := permits - 1;
      phases := phases[t := Acquired];
      return true;
    }

    /** The decrement on each of the three ways out; a guard is made. */
    method Decrement(t: ThreadId) returns (success: bool)
      requires Invariant(Now()) && (In(Now(), t, Rejected) || In(Now(), t, TimedOut) || In(Now(), t, Acquired))
      modifies this
      ensures success == old(In(Now(), t, Acquired)) && Invariant(Now())
      ensures Now() == Next(old(Now()), if success then Start(t) else Withdraw(t))
    {
      success := phases[t] == Acquired;
      StepKeeps(Now(), if success then Start(t) else Withdraw(t));
      waiting := waiting - 1;
      phases := phases[t := if success then Running else Failed];
    }

    /** The guard is dropped; only one that acquired releases. */
    method DropGuard(t: ThreadId)
      requires Invariant(Now()) && (In(Now(), t, Running) || In(Now(), t, Failed))
      modifies this
      ensures Now() == Next(old(Now()), Leave(t)) && Invariant(Now()) && permits <= SEMAPHORE_CAPABILITY
    {
      StepKeeps(Now(), Leave(t));
      if phases[t] == Running {
        permits := permits + 1;
      }
      phases := phases - {t};
    }
  }
}
