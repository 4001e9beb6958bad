/**
 * A counter behind a mutex, used by any number of threads: every operation is invoked, waits for the
 * lock, loads, perhaps stores, unlocks and returns, and any thread may move between two such steps.
 */
module LockedCounter {
  import opened Words

  /** `my_read`, or `my_write` with a parsed `long` delta; a worker's increment adds 1. */
  datatype Op = Read | Add(delta: int)

  /** What an operation did at the moment it took effect; `seen` is the value it read or printed. */
  datatype Event = Event(thread: nat, op: Op, seen: int)

  /** Where a thread is; `began` is the number of events when the operation in hand was invoked. */
  datatype Pc =
    | Idle
    | Waiting(began: nat)
    | Holding(began: nat)
    | Loaded(began: nat, value: int)
    | Effected(began: nat, at: nat)
    | Leaving(began: nat, at: nat)

  /** A thread's operations still to be finished, the one in hand first. */
  datatype Thread = Thread(todo: seq<Op>, pc: Pc)

  /** A finished operation: when it began, which event it is, and how many events there were at its end. */
  datatype Finished = Finished(thread: nat, op: Op, value: int, began: nat, at: nat, ended: nat)

  datatype State = State(
    counter: int, owner: Option<nat>, threads: seq<Thread>, history: seq<Event>, finished: seq<Finished>)

  datatype Step = Invoke(t: nat) | Lock(t: nat) | Load(t: nat) | Store(t: nat) | Unlock(t: nat) | Return(t: nat)

  function Start(programs: seq<seq<Op>>): State {
    State(0, None, seq(|programs|, i requires 0 <= i < |programs| => Thread(programs[i], Idle)), [], [])
  }

  predicate Enabled(s: State, step: Step) {
    && step.t < |s.threads|
    && var th := s.threads[step.t];
    match step
    case Invoke(t) => th.pc == Idle && th.todo != []
    case Lock(t) => th.pc.Waiting? && s.owner == None
    case Load(t) => th.pc.Holding?
    case Store(t) => th.pc.Loaded?
    case Unlock(t) => th.pc.Effected?
    case Return(t) => th.pc.Leaving?
  }

  /** `shared_counter += delta`: the sum is a 64-bit long, stored into a 32-bit int. */
  function Plus(value: int, delta: int): int {
    Int32(Int64(value + delta))
  }

  function Move(s: State, t: nat, pc: Pc): State
    requires t < |s.threads|
  {
    s.(threads := s.threads[t := s.threads[t].(pc := pc)])
  }

  function Apply(s: State, step: Step): State
    requires Enabled(s, step) && Runnable(s)
  {
    var t, th := step.t, s.threads[step.t];
    match step
    case Invoke(_) => Move(s, t, Waiting(|s.history|))
    case Lock(_) => Move(s, t, Holding(th.pc.began)).(owner := Some(t))
    case Load(_) =>
      if th.todo[0].Read?
      then Move(s, t, Effected(th.pc.began, |s.history|)).(history := s.history + [Event(t, Read, s.counter)])
      else Move(s, t, Loaded(th.pc.began, s.counter))
    case Store(_) =>
      var value := Plus(th.pc.value, th.todo[0].delta);
      Move(s, t, Effected(th.pc.began, |s.history|)).(
        counter := value, history := s.history + [Event(t, th.todo[0], value)])
    case Unlock(_) => Move(s, t, Leaving(th.pc.began, th.pc.at)).(owner := None)
    case Return(_) =>
      var done := Finished(t, th.todo[0], s.history[th.pc.at].seen, th.pc.began, th.pc.at, |s.history|);
      s.(threads := s.threads[t := Thread(th.todo[1..], Idle)], finished := s.finished + [done])
  }

  /** What `Apply` needs to know about program counters. */
  predicate Runnable(s: State) {
    forall t | 0 <= t < |s.threads| ::
      var th := s.threads[t];
      && (th.pc != Idle ==> th.todo != [])
      && (th.pc.Loaded? ==> th.todo[0].Add?)
      && (th.pc.Effected? || th.pc.Leaving? ==> th.pc.at < |s.history|)
  }

  // ------------------------------------------------------------------ the sequential counter

  /** The sum of the deltas applied so far, in lock order. */
  function Sum(history: seq<Event>): int {
    if history == [] then 0
    else
      var e := history[|history| - 1];
      Sum(history[..|history| - 1]) + if e.op.Add? then e.op.delta else 0
  }

  /** Event k is what a counter without concurrency would have done. */
  predicate Sequential(history: seq<Event>, k: nat)
    requires k < |history|
  {
    history[k].seen == Int32(Sum(history[..k + 1]))
  }

  function Int64(x: int): int {
    (x + TWO_63) % TWO_64 - TWO_63
  }

  /** Truncating intermediate results does not change the final 32 bits. */
  lemma WrapOnce(a: int, b: int)
    ensures Plus(Int32(a), b) == Int32(a + b)
  {
    var x := Int32(a) + b;
    assert (x - Int64(x)) % TWO_64 == 0;
    assert Int32(Int64(x)) == Int32(x) by {
      SameLowBits(Int64(x), x, (x - Int64(x)) / TWO_64 * TWO_32);
    }
    SameLowBits(x, a + b, (a - Int32(a)) / TWO_32);
  }

  lemma SameLowBits(a: int, b: int, k: int)
    requires b == a + k * TWO_32
    ensures Int32(a) == Int32(b)
  {
  }

  // ------------------------------------------------------------------ the invariant

  predicate InsideLock(pc: Pc) {
    pc.Holding? || pc.Loaded? || pc.Effected?
  }

  ghost predicate ThreadOk(s: State, t: nat)
    requires t < |s.threads|
  {
    var th := s.threads[t];
    && (InsideLock(th.pc) <==> s.owner == Some(t))
    && (th.pc != Idle ==> th.todo != [] && th.pc.began <= |s.history|)
    && (th.pc.Loaded? ==> th.todo[0].Add? && th.pc.value == s.counter)
    && (th.pc.Effected? || th.pc.Leaving? ==>
          th.pc.began <= th.pc.at < |s.history| &&
          s.history[th.pc.at].op == th.todo[0] && s.history[th.pc.at].thread == t)
  }

  ghost predicate FinishedOk(s: State, f: Finished) {
    && f.began <= f.at < f.ended <= |s.history|
    && s.history[f.at].op == f.op && s.history[f.at].seen == f.value && s.history[f.at].thread == f.thread
  }

  /** A thread begins an operation only after it has finished the one before. */
  ghost predicate ProgramOrder(s: State) {
    && (forall i, j | 0 <= i < j < |s.finished| && s.finished[i].thread == s.finished[j].thread ::
          s.finished[i].ended <= s.finished[j].began)
    && (forall i | 0 <= i < |s.finished| && s.finished[i].thread < |s.threads| ::
          var pc := s.threads[s.finished[i].thread].pc;
          pc != Idle ==> s.finished[i].ended <= pc.began)
  }

  ghost predicate Invariant(s: State) {
    && (forall t | 0 <= t < |s.threads| :: ThreadOk(s, t))
    && (forall i | 0 <= i < |s.finished| :: FinishedOk(s, s.finished[i]))
    && ProgramOrder(s)
    && (s.owner.Some? ==> s.owner.value < |s.threads|)
    && (forall k | 0 <= k < |s.history| :: Sequential(s.history, k))
    && s.counter == Int32(Sum(s.history))
  }

  lemma SumExtends(history: seq<Event>, e: Event)
    ensures Sum(history + [e]) == Sum(history) + if e.op.Add? then e.op.delta else 0
  {
    assert (history + [e])[..|history|] == history;
  }

  lemma SequentialExtends(history: seq<Event>, e: Event)
    requires forall k | 0 <= k < |history| :: Sequential(history, k)
    requires e.seen == Int32(Sum(history + [e]))
    ensures forall k | 0 <= k < |history| + 1 :: Sequential(history + [e], k)
  {
    var longer := history + [e];
    forall k | 0 <= k < |longer| ensures Sequential(longer, k) {
      if k < |history| {
        assert Sequential(history, k);
        assert longer[..k + 1] == history[..k + 1];
      } else {
        assert longer[..k + 1] == longer;
      }
    }
  }

  lemma InvariantRunnable(s: State)
    requires Invariant(s)
    ensures Runnable(s)
  {
    forall t | 0 <= t < |s.threads|
      ensures var th := s.threads[t];
              && (th.pc != Idle ==> th.todo != []) && (th.pc.Loaded? ==> th.todo[0].Add?)
              && (th.pc.Effected? || th.pc.Leaving? ==> th.pc.at < |s.history|)
    {
      assert ThreadOk(s, t);
    }
  }

  /** A step leaves history and counter alone, or appends one event that agrees with the counter. */
  lemma StepEvent(s: State, step: Step)
    requires Invariant(s) && Enabled(s, step) && Runnable(s)
    ensures var next := Apply(s, step);
            || (next.history == s.history && next.counter == s.counter)
            || (next.history == s.history + [next.history[|s.history|]] &&
                next.history[|s.history|].seen == next.counter == Int32(Sum(next.history)))
  {
    assert ThreadOk(s, step.t);
    var next := Apply(s, step);
    if step.Load? && next.history != s.history {
      SumExtends(s.history, next.history[|s.history|]);
    } else if step.Store? {
      SumExtends(s.history, next.history[|s.history|]);
      WrapOnce(Sum(s.history), s.threads[step.t].todo[0].delta);
    }
  }

  lemma StepHistory(s: State, step: Step)
    requires Invariant(s) && Enabled(s, step) && Runnable(s)
    ensures s.history <= Apply(s, step).history
    ensures forall k | 0 <= k < |Apply(s, step).history| :: Sequential(Apply(s, step).history, k)
    ensures Apply(s, step).counter == Int32(Sum(Apply(s, step).history))
  {
    StepEvent(s, step);
    var history := Apply(s, step).history;
    if history != s.history {
      SequentialExtends(s.history, history[|s.history|]);
    }
  }

  lemma StepThreads(s: State, step: Step, u: nat)
    requires Invariant(s) && Enabled(s, step) && Runnable(s) && u < |s.threads|
    ensures ThreadOk(Apply(s, step), u)
  {
    assert ThreadOk(s, u) && ThreadOk(s, step.t);
  }

  lemma StepFinished(s: State, step: Step)
    requires Invariant(s) && Enabled(s, step) && Runnable(s)
    ensures forall i | 0 <= i < |Apply(s, step).finished| :: FinishedOk(Apply(s, step), Apply(s, step).finished[i])
  {
    var next := Apply(s, step);
    assert ThreadOk(s, step.t);
    forall i | 0 <= i < |next.finished| ensures FinishedOk(next, next.finished[i]) {
      if i < |s.finished| {
        assert FinishedOk(s, s.finished[i]) && next.finished[i] == s.finished[i];
      }
    }
  }

  lemma StepOrder(s: State, step: Step)
    requires Invariant(s) && Enabled(s, step) && Runnable(s)
    ensures ProgramOrder(Apply(s, step))
  {
    assert ThreadOk(s, step.t);
    forall i | 0 <= i < |s.finished| ensures FinishedOk(s, s.finished[i]) {}
  }

  lemma StepKeepsInvariant(s: State, step: Step)
    requires Invariant(s) && Enabled(s, step)
    ensures Runnable(s) && Invariant(Apply(s, step))
  {
    InvariantRunnable(s);
    StepHistory(s, step);
    StepFinished(s, step);
    StepOrder(s, step);
    forall u | 0 <= u < |s.threads| ensures ThreadOk(Apply(s, step), u) {
      StepThreads(s, step, u);
    }
  }

  /** Some interleaving of the threads leads from s to t. */
  ghost predicate Reaches(s: State, steps: seq<Step>, t: State)
    decreases |steps|
  {
    if steps == [] then s == t
    else Enabled(s, steps[0]) && Runnable(s) && Reaches(Apply(s, steps[0]), steps[1..], t)
  }

  lemma StartOk(programs: seq<seq<Op>>)
    ensures Invariant(Start(programs))
  {
    assert Int32(0) == 0;
  }

  lemma {:induction false} RunKeepsInvariant(s: State, steps: seq<Step>, t: State)
    requires Invariant(s) && Reaches(s, steps, t)
    ensures Invariant(t)
    decreases |steps|
  {
    if steps != [] {
      StepKeepsInvariant(s, steps[0]);
      RunKeepsInvariant(Apply(s, steps[0]), steps[1..], t);
    }
  }

  // ------------------------------------------------------------------ linearizability

  /**
   * In every interleaving the operations take effect in one order, the order of the lock: each one
   * yields what a sequential counter yields, takes effect between its invocation and its return, and
   * the counter is the sum of all deltas so far, wrapped to 32 bits once.
   */
  lemma Linearizable(programs: seq<seq<Op>>, steps: seq<Step>, s: State, i: nat)
    requires Reaches(Start(programs), steps, s) && i < |s.finished|
    ensures s.counter == Int32(Sum(s.history))
    ensures var f := s.finished[i];
            && f.began <= f.at < f.ended <= |s.history|
            && s.history[f.at].op == f.op
            && f.value == Int32(Sum(s.history[..f.at + 1]))
  {
    StartOk(programs);
    RunKeepsInvariant(Start(programs), steps, s);
    assert FinishedOk(s, s.finished[i]);
    assert Sequential(s.history, s.finished[i].at);
  }

  /** An operation that returned before another began comes before it in that order, and is seen by it. */
  lemma RealTimeOrder(programs: seq<seq<Op>>, steps: seq<Step>, s: State, i: nat, j: nat)
    requires Reaches(Start(programs), steps, s) && i < |s.finished| && j < |s.finished|
    requires s.finished[i].ended <= s.finished[j].began
    ensures s.finished[i].at < s.finished[j].at
  {
    Linearizable(programs, steps, s, i);
    Linearizable(programs, steps, s, j);
  }

  /** No two operations share an event, and each thread's operations keep their order. */
  lemma EffectsAreDistinct(programs: seq<seq<Op>>, steps: seq<Step>, s: State, i: nat, j: nat)
    requires Reaches(Start(programs), steps, s) && i < j < |s.finished|
    ensures s.finished[i].at != s.finished[j].at
    ensures s.finished[i].thread == s.finished[j].thread ==> s.finished[i].at < s.finished[j].at
  {
    StartOk(programs);
    RunKeepsInvariant(Start(programs), steps, s);
    assert FinishedOk(s, s.finished[i]) && FinishedOk(s, s.finished[j]);
  }

  // ------------------------------------------------------------------ workers

  /** The operations of a thread that have not taken effect yet. */
  function Pending(th: Thread): nat {
    if (th.pc.Effected? || th.pc.Leaving?) && th.todo != [] then |th.todo| - 1 else |th.todo|
  }

  function Total(weight: Thread -> nat, threads: seq<Thread>): nat {
    if threads == [] then 0 else Total(weight, threads[..|threads| - 1]) + weight(threads[|threads| - 1])
  }

  function AllPending(threads: seq<Thread>): nat {
    Total(Pending, threads)
  }

  lemma {:induction false} TotalUpdate(weight: Thread -> nat, threads: seq<Thread>, t: nat, th: Thread)
    requires t < |threads|
    ensures Total(weight, threads[t := th]) == Total(weight, threads) - weight(threads[t]) + weight(th)
  {
    var last := |threads| - 1;
    var updated := threads[t := th];
    if t == last {
      assert updated[..last] == threads[..last];
    } else {
      assert updated[..last] == threads[..last][t := th];
      TotalUpdate(weight, threads[..last], t, th);
    }
  }

  /** No operation is lost or done twice: what took effect and what is pending add up. */
  lemma StepConserves(s: State, step: Step)
    requires Invariant(s) && Enabled(s, step) && Runnable(s)
    ensures var next := Apply(s, step);
            |next.history| + AllPending(next.threads) == |s.history| + AllPending(s.threads)
  {
    var next := Apply(s, step);
    assert ThreadOk(s, step.t);
    TotalUpdate(Pending, s.threads, step.t, next.threads[step.t]);
  }

  // ------------------------------------------------------------------ progress

  /** How many steps a thread is away from having finished everything. */
  function StepsLeft(th: Thread): nat {
    6 * |th.todo| -
    if th.todo == [] then 0
    else match th.pc
      case Idle => 0
      case Waiting(_) => 1
      case Holding(_) => 2
      case Loaded(_, _) => 3
      case Effected(_, _) => 4
      case Leaving(_, _) => 5
  }

  predicate AllFinished(s: State) {
    forall t | 0 <= t < |s.threads| :: s.threads[t].todo == []
  }

  lemma StepShortens(s: State, step: Step)
    requires Invariant(s) && Enabled(s, step) && Runnable(s)
    ensures Total(StepsLeft, Apply(s, step).threads) < Total(StepsLeft, s.threads)
  {
    var next := Apply(s, step);
    assert ThreadOk(s, step.t);
    TotalUpdate(StepsLeft, s.threads, step.t, next.threads[step.t]);
  }

  /** The next step of a thread that has operations left. */
  function NextStep(th: Thread, t: nat): Step {
    match th.pc
    case Idle => Invoke(t)
    case Waiting(_) => Lock(t)
    case Holding(_) => Load(t)
    case Loaded(_, _) => Store(t)
    case Effected(_, _) => Unlock(t)
    case Leaving(_, _) => Return(t)
  }

  /** Nothing but the lock blocks: a thread with operations left can move unless it waits for another's lock. */
  lemma OnlyTheLockBlocks(s: State, t: nat)
    requires Invariant(s) && t < |s.threads| && s.threads[t].todo != []
    ensures Enabled(s, NextStep(s.threads[t], t)) <==> !(s.threads[t].pc.Waiting? && s.owner.Some?)
    ensures s.threads[t].pc.Waiting? ==> s.owner != Some(t)
  {
    assert ThreadOk(s, t);
  }

  /** While operations are left some thread can move. */
  lemma SomeStep(s: State) returns (step: Step)
    requires Invariant(s) && !AllFinished(s)
    ensures Enabled(s, step)
  {
    var t: nat;
    if s.owner.Some? {
      t := s.owner.value;
    } else {
      t :| t < |s.threads| && s.threads[t].todo != [];
    }
    assert ThreadOk(s, t);
    OnlyTheLockBlocks(s, t);
    step := NextStep(s.threads[t], t);
  }

  lemma {:induction false} CanFinish(s: State) returns (steps: seq<Step>, t: State)
    requires Invariant(s)
    ensures Reaches(s, steps, t) && AllFinished(t)
    decreases Total(StepsLeft, s.threads)
  {
    if AllFinished(s) {
      steps, t := [], s;
    } else {
      var step := SomeStep(s);
      StepKeepsInvariant(s, step);
      StepShortens(s, step);
      steps, t := CanFinish(Apply(s, step));
      steps := [step] + steps;
      assert steps[1..] + [] == steps[1..];
    }
  }

  /** No interleaving ends in a deadlock: every run can go on until all threads have finished everything. */
  lemma EveryRunCanFinish(programs: seq<seq<Op>>, steps: seq<Step>, s: State) returns (more: seq<Step>, t: State)
    requires Reaches(Start(programs), steps, s)
    ensures Reaches(s, more, t) && AllFinished(t)
  {
    StartOk(programs);
    RunKeepsInvariant(Start(programs), steps, s);
    more, t := CanFinish(s);
  }

  // ------------------------------------------------------------------ increments

  /** Every operation of every thread is an increment. */
  ghost predicate OnlyIncrements(s: State) {
    && (forall t, i | 0 <= t < |s.threads| && 0 <= i < |s.threads[t].todo| :: s.threads[t].todo[i] == Add(1))
    && (forall k | 0 <= k < |s.history| :: s.history[k].op == Add(1))
  }

  lemma StepIncrements(s: State, step: Step)
    requires Invariant(s) && Enabled(s, step) && Runnable(s) && OnlyIncrements(s)
    ensures OnlyIncrements(Apply(s, step))
  {
    assert ThreadOk(s, step.t);
  }

  lemma {:induction false} IncrementsCount(history: seq<Event>)
    requires forall k | 0 <= k < |history| :: history[k].op == Add(1)
    ensures Sum(history) == |history|
  {
    if history != [] {
      IncrementsCount(history[..|history| - 1]);
    }
  }

  lemma {:induction false} RunConserves(s: State, steps: seq<Step>, t: State)
    requires Invariant(s) && OnlyIncrements(s) && Reaches(s, steps, t)
    ensures Invariant(t) && OnlyIncrements(t)
    ensures |t.history| + AllPending(t.threads) == |s.history| + AllPending(s.threads)
    decreases |steps|
  {
    if steps != [] {
      StepKeepsInvariant(s, steps[0]);
      StepConserves(s, steps[0]);
      StepIncrements(s, steps[0]);
      RunConserves(Apply(s, steps[0]), steps[1..], t);
    }
  }

  /** `worker_thread` with k iterations, run by n threads. */
  function Workers(n: nat, k: nat): seq<seq<Op>> {
    seq(n, _ => seq(k, _ => Add(1)))
  }

  lemma {:induction false} WorkersPending(n: nat, k: nat)
    ensures AllPending(Start(Workers(n, k)).threads) == n * k
  {
    var threads := Start(Workers(n, k)).threads;
    if n > 0 {
      WorkersPending(n - 1, k);
      assert threads[..n - 1] == Start(Workers(n - 1, k)).threads;
      assert Pending(threads[n - 1]) == k;
    } else {
      assert threads == [];
    }
  }

  /**
   * However the workers interleave, the values logged so far are 1, 2, 3, ... without gap or repeat,
   * and when all workers have finished there are n * k of them.
   */
  lemma WorkersCountUp(n: nat, k: nat, steps: seq<Step>, s: State)
    requires Reaches(Start(Workers(n, k)), steps, s) && n * k < TWO_31
    ensures |s.history| <= n * k
    ensures forall i | 0 <= i < |s.history| :: s.history[i].seen == i + 1
    ensures (forall t | 0 <= t < |s.threads| :: s.threads[t].todo == []) ==> |s.history| == n * k == s.counter
  {
    StartOk(Workers(n, k));
    RunConserves(Start(Workers(n, k)), steps, s);
    WorkersPending(n, k);
    IncrementsLogged(s);
    if forall t | 0 <= t < |s.threads| :: s.threads[t].todo == [] {
      NothingPending(s.threads);
    }
  }

  lemma IncrementsLogged(s: State)
    requires Invariant(s) && OnlyIncrements(s) && |s.history| < TWO_31
    ensures forall i | 0 <= i < |s.history| :: s.history[i].seen == i + 1
    ensures s.counter == |s.history|
  {
    forall i | 0 <= i < |s.history| ensures s.history[i].seen == i + 1 {
      assert Sequential(s.history, i);
      IncrementsCount(s.history[..i + 1]);
    }
    IncrementsCount(s.history);
  }

  lemma {:induction false} NothingPending(threads: seq<Thread>)
    requires forall t | 0 <= t < |threads| :: threads[t].todo == []
    ensures AllPending(threads) == 0
  {
    if threads != [] {
      NothingPending(threads[..|threads| - 1]);
    }
  }
}
