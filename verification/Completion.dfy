/**
 * The completion driver: readers wait for a token, writers discard the tokens and arm a delayed work
 * item, whose execution posts one. Any number of readers and writers, any interleaving of their steps.
 */
module Completion {
  import opened Words

  const DELAY: nat := 2000  // milliseconds

  /** The delayed work item: not pending, or pending since `armedAt` for the write that armed it. */
  datatype Work = NotPending | Pending(writer: nat, armedAt: nat)

  /** A call of `complete`: who armed the work and when, and when the token was posted. */
  datatype Token = Token(writer: nat, armedAt: nat, firedIn: nat, firedAt: nat)

  /** A read that got past `wait_for_completion`. */
  datatype Release = Release(token: Token, epoch: nat, at: nat)

  /**
   * Writes are numbered from 1 in the order of their `reinit_completion`; `reinits` holds the times of
   * these calls, `toSchedule` the writes that have not called `schedule_delayed_work` yet. `running` is
   * a work function that has started and not called `complete`; a work item does not run twice at once.
   */
  datatype State = State(
    now: nat, tokens: seq<Token>, work: Work, running: Option<Work>,
    reinits: seq<nat>, toSchedule: set<nat>, waiting: nat,
    executions: nat, discarded: nat, released: seq<Release>,
    firedNow: nat, consumedNow: nat)  // posts and releases since the last reinit

  const INITIAL := State(0, [], NotPending, None, [], {}, 0, 0, 0, [], 0, 0)

  datatype Step = Tick(elapsed: nat) | Reinit | Schedule(write: nat) | Fire | Complete | BeginRead | EndRead

  /** The number of the most recent write. */
  function Epoch(s: State): nat {
    |s.reinits|
  }

  predicate Enabled(s: State, step: Step) {
    match step
    case Tick(_) => true
    case Reinit => true
    case Schedule(write) => write in s.toSchedule
    case Fire => s.work.Pending? && s.now >= s.work.armedAt + DELAY && s.running == None
    case Complete => s.running.Some? && s.running.value.Pending?
    case BeginRead => true
    case EndRead => s.waiting > 0 && s.tokens != []
  }

  function Apply(s: State, step: Step): State
    requires Enabled(s, step)
  {
    match step
    case Tick(elapsed) => s.(now := s.now + elapsed)
    case Reinit =>
      s.(tokens := [], discarded := s.discarded + |s.tokens|, reinits := s.reinits + [s.now],
         toSchedule := s.toSchedule + {Epoch(s) + 1}, firedNow := 0, consumedNow := 0)
    case Schedule(write) =>
      s.(toSchedule := s.toSchedule - {write},
         work := if s.work.Pending? then s.work else Pending(write, s.now))
    case Fire => s.(work := NotPending, running := Some(s.work))
    case Complete =>
      var w := s.running.value;
      s.(running := None, executions := s.executions + 1, firedNow := s.firedNow + 1,
         tokens := s.tokens + [Token(w.writer, w.armedAt, Epoch(s), s.now)])
    case BeginRead => s.(waiting := s.waiting + 1)
    case EndRead =>
      s.(waiting := s.waiting - 1, tokens := s.tokens[1..], consumedNow := s.consumedNow + 1,
         released := s.released + [Release(s.tokens[0], Epoch(s), s.now)])
  }

  ghost predicate Reaches(s: State, steps: seq<Step>, t: State)
    decreases |steps|
  {
    if steps == [] then s == t
    else Enabled(s, steps[0]) && Reaches(Apply(s, steps[0]), steps[1..], t)
  }

  // ------------------------------------------------------------------ the invariant

  /** A write that has happened, and the time its work was armed. */
  predicate ArmedBy(s: State, writer: nat, armedAt: nat) {
    0 < writer <= Epoch(s) && s.reinits[writer - 1] <= armedAt <= s.now
  }

  predicate TokenOk(s: State, t: Token) {
    && ArmedBy(s, t.writer, t.armedAt)
    && t.armedAt + DELAY <= t.firedAt <= s.now
    && t.writer <= t.firedIn <= Epoch(s)
    && s.reinits[t.firedIn - 1] <= t.firedAt
  }

  /** An execution of the work function will follow, or is under way. */
  predicate OnItsWay(s: State) {
    s.toSchedule != {} || s.work.Pending? || s.running.Some?
  }

  /** Executions, tokens and releases add up. */
  ghost predicate Accounts(s: State) {
    && s.executions == |s.released| + |s.tokens| + s.discarded
    && s.firedNow == s.consumedNow + |s.tokens|
    && (Epoch(s) > 0 && s.firedNow == 0 ==> OnItsWay(s))
  }

  /** Work and tokens come from writes, after their delay; unread tokens are newer than the last reinit. */
  ghost predicate Provenance(s: State) {
    && (forall k | 0 <= k < |s.reinits| :: s.reinits[k] <= s.now)
    && (forall w | w in s.toSchedule :: 0 < w <= Epoch(s))
    && (s.work.Pending? ==> ArmedBy(s, s.work.writer, s.work.armedAt))
    && (s.running.Some? ==>
          s.running.value.Pending? && ArmedBy(s, s.running.value.writer, s.running.value.armedAt) &&
          s.running.value.armedAt + DELAY <= s.now)
    && (forall i | 0 <= i < |s.tokens| :: TokenOk(s, s.tokens[i]) && s.tokens[i].firedIn == Epoch(s))
    && (forall i | 0 <= i < |s.released| ::
          TokenOk(s, s.released[i].token) && s.released[i].token.firedIn == s.released[i].epoch)
  }

  ghost predicate Invariant(s: State) {
    Accounts(s) && Provenance(s)
  }

  lemma TokenStays(s: State, step: Step, t: Token)
    requires Enabled(s, step) && TokenOk(s, t)
    ensures TokenOk(Apply(s, step), t)
  {
  }

  lemma StepKeepsAccounts(s: State, step: Step)
    requires Accounts(s) && Enabled(s, step)
    ensures Accounts(Apply(s, step))
  {
    if step.Reinit? {
      assert Epoch(s) + 1 in Apply(s, step).toSchedule;
    }
  }

  lemma StepKeepsProvenance(s: State, step: Step)
    requires Provenance(s) && Enabled(s, step)
    ensures Provenance(Apply(s, step))
  {
    var next := Apply(s, step);
    forall i | 0 <= i < |s.tokens| ensures TokenOk(next, s.tokens[i]) {
      TokenStays(s, step, s.tokens[i]);
    }
    forall i | 0 <= i < |s.released| ensures TokenOk(next, s.released[i].token) {
      TokenStays(s, step, s.released[i].token);
    }
  }

  lemma {:induction false} RunKeepsInvariant(s: State, steps: seq<Step>, t: State)
    requires Invariant(s) && Reaches(s, steps, t)
    ensures Invariant(t)
    decreases |steps|
  {
    if steps != [] {
      StepKeepsAccounts(s, steps[0]);
      StepKeepsProvenance(s, steps[0]);
      RunKeepsInvariant(Apply(s, steps[0]), steps[1..], t);
    }
  }

  // ------------------------------------------------------------------ the theorems

  /** Every execution is accounted for: it released a read, its token is there, or a reinit discarded it. */
  lemma TokensConserved(steps: seq<Step>, s: State)
    requires Reaches(INITIAL, steps, s)
    ensures s.executions == |s.released| + |s.tokens| + s.discarded
  {
    RunKeepsInvariant(INITIAL, steps, s);
  }

  /**
   * A released read consumed a token that was posted after the most recent reinit, by a work item that
   * some write armed at least two seconds before.
   */
  lemma ReleasedByFreshToken(steps: seq<Step>, s: State, i: nat)
    requires Reaches(INITIAL, steps, s) && i < |s.released|
    ensures var r := s.released[i];
            && 0 < r.token.writer <= r.token.firedIn == r.epoch <= Epoch(s)
            && s.reinits[r.epoch - 1] <= r.token.firedAt
            && s.reinits[r.token.writer - 1] + 2000 <= r.token.armedAt + 2000 <= r.token.firedAt
  {
    RunKeepsInvariant(INITIAL, steps, s);
    assert TokenOk(s, s.released[i].token);
  }

  /**
   * No wakeup is lost: when nothing is on its way and no token is left, then either nothing was ever
   * written, or the tokens posted since the last write's reinit have all released readers.
   */
  lemma NoLostWakeup(steps: seq<Step>, s: State)
    requires Reaches(INITIAL, steps, s) && !OnItsWay(s) && s.tokens == [] && Epoch(s) > 0
    ensures s.consumedNow == s.firedNow > 0
  {
    RunKeepsInvariant(INITIAL, steps, s);
  }

  /** How many steps of a run have a property. */
  function Count(has: Step -> bool, steps: seq<Step>): nat {
    if steps == [] then 0 else (if has(steps[0]) then 1 else 0) + Count(has, steps[1..])
  }

  lemma {:induction false} ReadsAreCounted(s: State, steps: seq<Step>, t: State)
    requires Reaches(s, steps, t)
    ensures t.waiting + |t.released| == s.waiting + |s.released| + Count((x: Step) => x.BeginRead?, steps)
    ensures |t.released| == |s.released| + Count((x: Step) => x.EndRead?, steps)
    decreases |steps|
  {
    if steps != [] {
      ReadsAreCounted(Apply(s, steps[0]), steps[1..], t);
    }
  }

  lemma {:induction false} WritesAreCounted(s: State, steps: seq<Step>, t: State)
    requires Reaches(s, steps, t) && Provenance(s)
    ensures Epoch(t) == Epoch(s) + Count((x: Step) => x.Reinit?, steps)
    ensures Epoch(t) - |t.toSchedule| == Epoch(s) - |s.toSchedule| + Count((x: Step) => x.Schedule?, steps)
    decreases |steps|
  {
    if steps != [] {
      StepKeepsProvenance(s, steps[0]);
      WritesAreCounted(Apply(s, steps[0]), steps[1..], t);
    }
  }

  lemma {:induction false} ExecutionsAreCounted(s: State, steps: seq<Step>, t: State)
    requires Reaches(s, steps, t)
    ensures t.executions == s.executions + Count((x: Step) => x.Complete?, steps)
    decreases |steps|
  {
    if steps != [] {
      ExecutionsAreCounted(Apply(s, steps[0]), steps[1..], t);
    }
  }

  /** Reads that began are waiting or were released; every write schedules once; every execution completes once. */
  lemma CallsAreCounted(steps: seq<Step>, s: State)
    requires Reaches(INITIAL, steps, s)
    ensures Count((x: Step) => x.BeginRead?, steps) == s.waiting + |s.released|
    ensures Count((x: Step) => x.EndRead?, steps) == |s.released|
    ensures Count((x: Step) => x.Reinit?, steps) == Epoch(s)
    ensures Count((x: Step) => x.Schedule?, steps) == Epoch(s) - |s.toSchedule|
    ensures Count((x: Step) => x.Complete?, steps) == s.executions
  {
    ReadsAreCounted(INITIAL, steps, s);
    WritesAreCounted(INITIAL, steps, s);
    ExecutionsAreCounted(INITIAL, steps, s);
  }

  // ------------------------------------------------------------------ progress

  /** Time passes and reads and writes begin at any time; what has begun waits only for what it must wait for. */
  lemma NothingBlocks(s: State, elapsed: nat, write: nat)
    requires Invariant(s)
    ensures Enabled(s, Tick(elapsed)) && Enabled(s, Reinit) && Enabled(s, BeginRead)
    ensures write in s.toSchedule ==> Enabled(s, Schedule(write))
    ensures s.work.Pending? && s.work.armedAt + 2000 <= s.now && s.running == None ==> Enabled(s, Fire)
    ensures s.running.Some? ==> Enabled(s, Complete)
    ensures s.waiting > 0 && s.tokens != [] ==> Enabled(s, EndRead)
  {
  }

  /** The next step on the way to the release of a waiting read. */
  ghost function ReleaseStep(s: State): Step
    requires s.tokens != [] || OnItsWay(s)
  {
    if s.tokens != [] then EndRead
    else if s.running.Some? then Complete
    else if s.work.Pending? then
      if s.now < s.work.armedAt + 2000 then Tick(s.work.armedAt + 2000 - s.now) else Fire
    else var write :| write in s.toSchedule; Schedule(write)
  }

  function StepsToRelease(s: State): nat {
    if s.tokens != [] then 0
    else if s.running.Some? then 1
    else if s.work.Pending? then (if s.now < s.work.armedAt + 2000 then 3 else 2)
    else 4
  }

  lemma {:induction false} CanRelease(s: State) returns (steps: seq<Step>, t: State)
    requires Invariant(s) && s.waiting > 0 && (s.tokens != [] || OnItsWay(s))
    ensures Reaches(s, steps, t) && Reinit !in steps && |t.released| == |s.released| + 1
    decreases StepsToRelease(s)
  {
    var step := ReleaseStep(s);
    var next := Apply(s, step);
    StepKeepsAccounts(s, step);
    StepKeepsProvenance(s, step);
    if step.EndRead? {
      steps, t := [], next;
    } else {
      steps, t := CanRelease(next);
    }
    steps := [step] + steps;
    assert steps[1..] + [] == steps[1..];
  }

  lemma {:induction false} NothingComes(s: State, steps: seq<Step>, t: State)
    requires Reaches(s, steps, t) && Reinit !in steps && s.tokens == [] && !OnItsWay(s)
    ensures t.released == s.released
    decreases |steps|
  {
    if steps != [] {
      assert steps[0] in steps;
      NothingComes(Apply(s, steps[0]), steps[1..], t);
    }
  }

  /** Some run without a further write releases one more read. */
  ghost predicate MayReturn(s: State) {
    exists steps, t :: Reaches(s, steps, t) && Reinit !in steps && |t.released| > |s.released|
  }

  /** A waiting read can return without a further write if and only if a token is there or on its way. */
  lemma ReadMayReturnIff(steps: seq<Step>, s: State)
    requires Reaches(INITIAL, steps, s) && s.waiting > 0
    ensures MayReturn(s) <==> s.tokens != [] || OnItsWay(s)
  {
    RunKeepsInvariant(INITIAL, steps, s);
    if s.tokens != [] || OnItsWay(s) {
      var more, t := CanRelease(s);
      assert Reaches(s, more, t) && Reinit !in more && |t.released| > |s.released|;
    } else if MayReturn(s) {
      var more, t :| Reaches(s, more, t) && Reinit !in more && |t.released| > |s.released|;
      NothingComes(s, more, t);
    }
  }

  // ------------------------------------------------------------------ the delay after a write

  /** Whatever happens after the write that begins in `s`, no read of its epoch is released before its two seconds. */
  ghost predicate GetsItsDelay(s: State) {
    forall steps, t, i | Reaches(Apply(s, Reinit), steps, t) && 0 <= i < |t.released| ::
      t.released[i].epoch == Epoch(s) + 1 ==> t.released[i].at >= s.now + 2000
  }

  /** Work on its way was armed at `since` or later, and so tokens and reads of epoch `e` are due later still. */
  ghost predicate Late(t: State, e: nat, since: nat) {
    && (t.work.Pending? ==> t.work.armedAt >= since)
    && (t.running.Some? && t.running.value.Pending? ==> t.running.value.armedAt >= since)
    && t.now >= since
    && (forall i | 0 <= i < |t.tokens| :: t.tokens[i].firedAt >= since + DELAY)
    && (forall i | 0 <= i < |t.released| && t.released[i].epoch == e ::
          t.released[i].at >= t.released[i].token.firedAt >= since + DELAY)
  }

  lemma StepStaysLate(s: State, step: Step, e: nat, since: nat)
    requires Provenance(s) && Late(s, e, since) && Enabled(s, step)
    ensures Late(Apply(s, step), e, since)
  {
    assert step.EndRead? ==> TokenOk(s, s.tokens[0]);
  }

  lemma {:induction false} RunStaysLate(s: State, steps: seq<Step>, t: State, e: nat, since: nat)
    requires Invariant(s) && Late(s, e, since) && Reaches(s, steps, t)
    ensures Late(t, e, since)
    decreases |steps|
  {
    if steps != [] {
      StepKeepsAccounts(s, steps[0]);
      StepKeepsProvenance(s, steps[0]);
      StepStaysLate(s, steps[0], e, since);
      RunStaysLate(Apply(s, steps[0]), steps[1..], t, e, since);
    }
  }

  /** A run that completes and consumes what is on its way: the work if it is pending, or the running function. */
  lemma EarlyRelease(s: State) returns (steps: seq<Step>, t: State)
    requires Invariant(s) && (s.running.Some? || (s.work.Pending? && s.work.armedAt < s.now))
    ensures Reaches(Apply(s, Reinit), steps, t) && |t.released| == |s.released| + 1
    ensures t.released[|s.released|].epoch == Epoch(s) + 1 && t.released[|s.released|].at < s.now + DELAY
  {
    var from := Apply(s, Reinit);
    steps, t := [], from;
    if s.running == None {
      var left := s.work.armedAt + DELAY - s.now;
      steps, t := Extend(from, steps, t, Tick(if left > 0 then left else 0));
      steps, t := Extend(from, steps, t, Fire);
    }
    steps, t := Extend(from, steps, t, Complete);
    steps, t := Extend(from, steps, t, BeginRead);
    steps, t := Extend(from, steps, t, EndRead);
  }

  /**
   * A write gets a delay of its own, in everything that may follow, if and only if at its
   * `reinit_completion` the work function is not running and the work is not pending, or pending since
   * that very moment.
   */
  lemma WriteGetsItsDelayIff(steps: seq<Step>, s: State)
    requires Reaches(INITIAL, steps, s)
    ensures GetsItsDelay(s) <==> s.running.None? && (s.work.Pending? ==> s.work.armedAt == s.now)
  {
    RunKeepsInvariant(INITIAL, steps, s);
    var next := Apply(s, Reinit);
    if s.running.None? && (s.work.Pending? ==> s.work.armedAt == s.now) {
      StepKeepsAccounts(s, Reinit);
      StepKeepsProvenance(s, Reinit);
      assert forall i | 0 <= i < |s.released| :: TokenOk(s, s.released[i].token);
      assert Late(next, Epoch(next), s.now);
      forall more, t, i | Reaches(next, more, t) && 0 <= i < |t.released| && t.released[i].epoch == Epoch(next)
        ensures t.released[i].at >= s.now + DELAY
      {
        RunStaysLate(next, more, t, Epoch(next), s.now);
      }
    } else {
      var more, t := EarlyRelease(s);
      assert Reaches(next, more, t) && t.released[|s.released|].at < s.now + DELAY;
    }
  }

  lemma {:induction false} RunExtends(s: State, steps: seq<Step>, t: State, step: Step)
    requires Reaches(s, steps, t) && Enabled(t, step)
    ensures Reaches(s, steps + [step], Apply(t, step))
    decreases |steps|
  {
    if steps == [] {
      assert Reaches(Apply(t, step), [], Apply(t, step));
      assert [step][1..] == [];
    } else {
      RunExtends(Apply(s, steps[0]), steps[1..], t, step);
      assert (steps + [step])[1..] == steps[1..] + [step];
    }
  }

  /** Add one step to a run. */
  lemma Extend(from: State, steps: seq<Step>, s: State, step: Step) returns (longer: seq<Step>, t: State)
    requires Reaches(from, steps, s) && Enabled(s, step)
    ensures t == Apply(s, step) && Reaches(from, longer, t)
  {
    longer, t := steps + [step], Apply(s, step);
    RunExtends(from, steps, s, step);
  }

  /**
   * A write that finds the work already pending gets no delay of its own: here the read that follows it
   * is released one millisecond after the write.
   */
  lemma PendingWorkCutsDelay() returns (steps: seq<Step>, s: State)
    ensures Reaches(INITIAL, steps, s) && |s.released| == 1 && |s.reinits| == 2
    ensures s.released[0].epoch == 2 && s.released[0].token.writer == 1
    ensures s.released[0].at == s.reinits[1] + 1
  {
    steps, s := [], INITIAL;
    steps, s := Extend(INITIAL, steps, s, Reinit);
    steps, s := Extend(INITIAL, steps, s, Schedule(1));
    steps, s := Extend(INITIAL, steps, s, Tick(1999));
    steps, s := Extend(INITIAL, steps, s, Reinit);
    steps, s := Extend(INITIAL, steps, s, Schedule(2));
    steps, s := Extend(INITIAL, steps, s, Tick(1));
    steps, s := Extend(INITIAL, steps, s, Fire);
    steps, s := Extend(INITIAL, steps, s, Complete);
    steps, s := Extend(INITIAL, steps, s, BeginRead);
    steps, s := Extend(INITIAL, steps, s, EndRead);
  }
}
