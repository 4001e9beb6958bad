/**
 * The end-of-stream race of the GStreamer V4L2 decoder: the output loop leaves in three steps, the input
 * thread decides from several unlocked reads what to return, and an external flush may fall anywhere.
 */
module EosRace {
  import opened Words

  datatype Flow = Ok | Flushing | Eos | NotNegotiated | Error
  datatype TaskState = Stopped | Started | Paused

  /** Whether `gst_v4l2_buffer_pool_process` is being interrupted, and by whom. */
  datatype Wakeup = Nobody | LoopExit | ExternalFlush

  /** The output thread: resting, in its rounds, after `output_flow = ret`, after the unlock. */
  datatype LoopPc = Resting | Running | Recorded | Unlocked

  /** The input thread: the reads of the FLUSHING branch are one step each. */
  datatype InputPc = Outside | Starting | Processing | Woken | CheckOk | CheckFlushing | Take

  datatype Version = Original | Patched

  /**
   * One return from `handle_frame`; `outstanding` is the reason the loop had left with, and not yet been
   * reset, at that moment.
   */
  datatype Return = Return(result: Flow, frame: Frame, outstanding: Option<Flow>)

  /**
   * The history of a frame. `exit` is the reason the loop left with, if it was the loop that woke this
   * frame and no reset of `output_flow` came in between. `clean` says that no exit for another reason
   * than FLUSHING was outstanding or recorded while the frame made up its mind. `okBetween` says that
   * `output_flow` was set to OK between its two comparisons, `okLast` that OK is what was written to it
   * last since the first one.
   */
  datatype Frame = Frame(
    wokenBy: Wakeup, exit: Option<Flow>, clean: bool, sawStarted: bool, okBetween: bool, okLast: bool)

  const NEW_FRAME := Frame(Nobody, None, true, true, false, false)

  /**
   * `exit` is history too: the reason the loop recorded when it left, until a flush, a state change or
   * the next start of the task resets `output_flow`.
   */
  datatype State = State(
    flow: Flow, task: TaskState, wakeup: Wakeup, loop: LoopPc, input: InputPc,
    exit: Option<Flow>, frame: Frame, results: seq<Return>)

  const INITIAL := State(Ok, Stopped, Nobody, Resting, Outside, None, NEW_FRAME, [])

  datatype Step =
    | Round                 // output loop: a round begins
    | Leave(reason: Flow)   // output loop: output_flow = ret
    | Unlock                // output loop: gst_v4l2_object_unlock
    | Pause                 // output loop: gst_pad_pause_task
    | Enter                 // input: handle_frame is called
    | StartTask             // input: the task is started
    | Accept                // input: process() took the frame
    | Wake                  // input: process() returned FLUSHING
    | Decide                // input: the next read of the FLUSHING branch
    | Interrupt             // external flush begins: process() is interrupted
    | Reset                 // flush, start, stop or set_format resets output_flow
    | Stop                  // the task, already resting, is stopped

  predicate Enabled(s: State, step: Step) {
    match step
    case Round => s.loop == Running
    case Leave(reason) => s.loop == Running && reason != Ok
    case Unlock => s.loop == Recorded
    case Pause => s.loop == Unlocked
    case Enter => s.input == Outside
    case StartTask => s.input == Starting && s.loop == Resting
    case Accept => s.input == Processing && s.wakeup == Nobody
    case Wake => s.input == Processing && s.wakeup != Nobody
    case Decide => s.input in {Woken, CheckOk, CheckFlushing, Take}
    case Interrupt => true
    case Reset => true
    case Stop => s.loop == Resting && s.input != Starting
  }

  /** A reason that tells the upstream element more than that somebody flushes. */
  predicate Terminal(flow: Flow) {
    flow != Ok && flow != Flushing
  }

  function Finish(s: State, result: Flow): State {
    s.(input := Outside, frame := NEW_FRAME, results := s.results + [Return(result, s.frame, s.exit)])
  }

  /** One read of `if (task != STARTED || (flow != OK && flow != FLUSHING)) ret = flow`. */
  function DecideStep(v: Version, s: State): State
    requires Enabled(s, Decide)
  {
    match s.input
    case Woken =>
      var seen := s.(frame := s.frame.(sawStarted := s.task == Started));
      if s.task != Started then seen.(input := Take)
      else if v == Patched then seen.(input := CheckOk)
      else Finish(seen, Flushing)
    case CheckOk => if s.flow != Ok then s.(input := CheckFlushing) else Finish(s, Flushing)
    case CheckFlushing => if s.flow != Flushing then s.(input := Take) else Finish(s, Flushing)
    case _ => Finish(s, s.flow)
  }

  /** A reset of `output_flow` ends every expectation about the loop's exit. */
  function Flushed(s: State): State {
    s.(exit := None, frame := s.frame.(exit := None))
  }

  function SetOk(s: State): State {
    s.(flow := Ok, frame := s.frame.(
      okBetween := s.frame.okBetween || s.input == CheckFlushing,
      okLast := s.frame.okLast || s.input in {CheckFlushing, Take}))
  }

  function RecordExit(s: State, reason: Flow): State {
    s.(flow := reason, loop := Recorded, exit := Some(reason),
       frame := s.frame.(clean := s.frame.clean && !Terminal(reason), okLast := false))
  }

  function Apply(v: Version, s: State, step: Step): State
    requires Enabled(s, step)
  {
    match step
    case Round => SetOk(s)
    case Leave(reason) => RecordExit(s, reason)
    case Unlock => s.(wakeup := LoopExit, loop := Unlocked)
    case Pause => s.(task := Paused, loop := Resting)
    case Enter =>
      if s.task != Started
      then s.(flow := Flushing, exit := None, input := Starting, frame := NEW_FRAME)
      else s.(input := Processing, frame := NEW_FRAME)
    case StartTask => s.(task := Started, loop := Running, input := Processing)
    case Accept => Finish(s, Ok)
    case Wake =>
      var exit := if s.wakeup == LoopExit then s.exit else None;
      s.(input := Woken, frame := Frame(s.wakeup, exit, !Terminal(s.flow), true, false, false))
    case Decide => DecideStep(v, s)
    case Interrupt => s.(wakeup := ExternalFlush)
    case Reset => Flushed(SetOk(s)).(wakeup := Nobody)
    case Stop => s.(task := Stopped)
  }

  /** The states some interleaving of steps leads to. */
  ghost predicate Reaches(v: Version, s: State, steps: seq<Step>, t: State)
    decreases |steps|
  {
    if steps == [] then s == t
    else Enabled(s, steps[0]) && Reaches(v, Apply(v, s, steps[0]), steps[1..], t)
  }

  // ------------------------------------------------------------------ the invariant

  /** What the frames returned so far have in common. */
  predicate GoodReturn(v: Version, r: Return) {
    var f := r.frame;
    && (f.wokenBy == Nobody ==> r.result == Ok)
    && (f.exit.Some? && Terminal(f.exit.value) ==>
          f.wokenBy == LoopExit && (r.result == f.exit.value <==> v == Patched || !f.sawStarted))
    && (f.wokenBy != Nobody && f.clean ==>
          r.result in {Ok, Flushing} && (f.sawStarted && !f.okBetween ==> r.result == Flushing))
    && (f.wokenBy != Nobody && (v == Patched || !f.sawStarted) ==>
          if r.outstanding.Some? && Terminal(r.outstanding.value) then r.result == r.outstanding.value
          else r.result in {Ok, Flushing})
    && (f.wokenBy != Nobody && f.sawStarted && v == Original ==> r.result == Flushing)
    && (f.wokenBy != Nobody && f.sawStarted && v == Patched ==>
          r.result == PatchedResult(r) && !(f.okLast && r.outstanding.Some?))
  }

  /** What a frame that was interrupted and saw the task started returns with the patch. */
  function PatchedResult(r: Return): Flow {
    if r.frame.okLast then Ok
    else if r.outstanding.Some? && Terminal(r.outstanding.value) then r.outstanding.value
    else Flushing
  }

  ghost predicate Invariant(v: Version, s: State) {
    && (s.task == Started <==> s.loop != Resting)
    && (s.input == Starting ==> s.task != Started && s.exit == None)
    && (s.loop == Running ==> s.exit == None)
    && (s.exit.Some? ==> s.flow == s.exit.value != Ok)
    && (s.exit == None ==> !Terminal(s.flow))
    && (if Deciding(s) then FrameInvariant(v, s) else s.frame.(clean := true) == NEW_FRAME)
    && (forall i | 0 <= i < |s.results| :: GoodReturn(v, s.results[i]))
  }

  predicate Deciding(s: State) {
    s.input in {Woken, CheckOk, CheckFlushing, Take}
  }

  ghost predicate FrameInvariant(v: Version, s: State) {
    var f := s.frame;
    && f.wokenBy != Nobody
    && (f.exit.Some? ==> f.wokenBy == LoopExit && s.exit == f.exit)
    && (f.clean ==> !Terminal(s.flow))
    && (s.input == Woken ==> f.sawStarted && !f.okBetween && !f.okLast)
    && (s.input == CheckOk ==> v == Patched && f.sawStarted && !f.okBetween && !f.okLast)
    && (s.input == CheckFlushing ==> v == Patched && f.sawStarted && (f.okLast ==> f.okBetween))
    && (s.input == Take && f.sawStarted ==> v == Patched && (f.clean ==> f.okBetween))
    && (s.input in {CheckFlushing, Take} && f.sawStarted ==> (s.flow == Ok <==> f.okLast))
  }

  /** A step of the input thread before it decides. */
  predicate InputStep(step: Step) {
    step in {Enter, StartTask, Accept, Wake}
  }

  lemma DecideKeepsInvariant(v: Version, s: State)
    requires Invariant(v, s) && Enabled(s, Decide)
    ensures Invariant(v, Apply(v, s, Decide))
  {
  }

  lemma InputStepKeepsInvariant(v: Version, s: State, step: Step)
    requires Invariant(v, s) && Enabled(s, step) && InputStep(step)
    ensures Invariant(v, Apply(v, s, step))
  {
  }

  lemma OtherStepKeepsInvariant(v: Version, s: State, step: Step)
    requires Invariant(v, s) && Enabled(s, step) && !InputStep(step) && step != Decide
    ensures Invariant(v, Apply(v, s, step))
  {
  }

  lemma StepKeepsInvariant(v: Version, s: State, step: Step)
    requires Invariant(v, s) && Enabled(s, step)
    ensures Invariant(v, Apply(v, s, step))
  {
    if step == Decide {
      DecideKeepsInvariant(v, s);
    } else if InputStep(step) {
      InputStepKeepsInvariant(v, s, step);
    } else {
      OtherStepKeepsInvariant(v, s, step);
    }
  }

  lemma {:induction false} RunKeepsInvariant(v: Version, s: State, steps: seq<Step>, t: State)
    requires Invariant(v, s) && Reaches(v, s, steps, t)
    ensures Invariant(v, t)
    decreases |steps|
  {
    if steps != [] {
      StepKeepsInvariant(v, s, steps[0]);
      RunKeepsInvariant(v, Apply(v, s, steps[0]), steps[1..], t);
    }
  }

  // ------------------------------------------------------------------ the theorems

  /**
   * With the patch no end of stream is lost: in every run, over any number of frames, flushes and
   * restarts, a frame woken by the loop's own exit with reason r returns r.
   */
  lemma EosIsNeverLost(steps: seq<Step>, t: State, i: nat)
    requires Reaches(Patched, INITIAL, steps, t) && i < |t.results|
    requires t.results[i].frame.exit.Some? && Terminal(t.results[i].frame.exit.value)
    ensures t.results[i].result == t.results[i].frame.exit.value
  {
    RunKeepsInvariant(Patched, INITIAL, steps, t);
    assert GoodReturn(Patched, t.results[i]);
  }

  /** Without it, such a frame returns r exactly when it read the task state after the pause. */
  lemma OriginalReturnsReasonIffPaused(steps: seq<Step>, t: State, i: nat)
    requires Reaches(Original, INITIAL, steps, t) && i < |t.results|
    requires t.results[i].frame.exit.Some? && Terminal(t.results[i].frame.exit.value)
    ensures t.results[i].result == t.results[i].frame.exit.value <==> !t.results[i].frame.sawStarted
  {
    RunKeepsInvariant(Original, INITIAL, steps, t);
    assert GoodReturn(Original, t.results[i]);
  }

  /**
   * A frame that is interrupted, by an external flush or by the loop on its way out or by both, with
   * either version: unless the loop leaves for another reason than FLUSHING, the frame returns FLUSHING,
   * or at worst OK; and if it saw the task started it returns FLUSHING unless `output_flow` is set to OK
   * between its two comparisons.
   */
  lemma FlushReturnsFlushing(v: Version, steps: seq<Step>, t: State, i: nat)
    requires Reaches(v, INITIAL, steps, t) && i < |t.results|
    requires var f := t.results[i].frame; f.wokenBy != Nobody && f.clean
    ensures t.results[i].result in {Ok, Flushing}
    ensures var f := t.results[i].frame; f.sawStarted && !f.okBetween ==> t.results[i].result == Flushing
  {
    RunKeepsInvariant(v, INITIAL, steps, t);
    assert GoodReturn(v, t.results[i]);
  }

  /**
   * What an interrupted frame returns, exactly, whoever interrupted it. With the patch, or if it saw the
   * task no longer started, it returns a reason r other than OK and FLUSHING if and only if the loop has
   * left with r when the frame returns and nothing has reset that. A frame that saw the task started
   * returns OK if and only if OK was the last value written after its first comparison, and FLUSHING
   * otherwise; without the patch it always returns FLUSHING.
   */
  lemma InterruptedFrameResult(v: Version, steps: seq<Step>, t: State, i: nat, reason: Flow)
    requires Reaches(v, INITIAL, steps, t) && i < |t.results| && Terminal(reason)
    requires t.results[i].frame.wokenBy != Nobody
    ensures var r := t.results[i];
            && (r.result == reason <==> (v == Patched || !r.frame.sawStarted) && r.outstanding == Some(reason))
            && (r.frame.sawStarted ==>
                  && (r.result == Ok <==> v == Patched && r.frame.okLast)
                  && (r.result == Flushing <==>
                        || v == Original
                        || (!r.frame.okLast && !(r.outstanding.Some? && Terminal(r.outstanding.value)))))
  {
    RunKeepsInvariant(v, INITIAL, steps, t);
    assert GoodReturn(v, t.results[i]);
  }

  /** Let only the input thread run until the frame in hand has returned. */
  function Settle(v: Version, s: State): State
    requires Deciding(s)
    decreases match s.input case Woken => 3 case CheckOk => 2 case CheckFlushing => 1 case _ => 0
  {
    var next := DecideStep(v, s);
    if Deciding(next) then Settle(v, next) else next
  }

  /** The input thread needs no other thread to return the loop's reason, even before the pause. */
  lemma {:induction false} WokenFrameSettles(s: State)
    requires Invariant(Patched, s) && Deciding(s) && s.frame.exit.Some? && Terminal(s.frame.exit.value)
    ensures Settle(Patched, s).input == Outside
    ensures |Settle(Patched, s).results| == |s.results| + 1
    ensures Settle(Patched, s).results[|s.results|].result == s.frame.exit.value
    decreases match s.input case Woken => 3 case CheckOk => 2 case CheckFlushing => 1 case _ => 0
  {
    var next := DecideStep(Patched, s);
    StepKeepsInvariant(Patched, s, Decide);
    if Deciding(next) {
      WokenFrameSettles(next);
    }
  }

  // ------------------------------------------------------------------ the life cycle of output_flow

  /** The value the life-cycle table lists for a step, if it lists one. */
  function Listed(s: State, step: Step): Option<Flow> {
    match step
    case Reset => Some(Ok)                                            // start, stop, set_format, flush
    case Enter => if s.task != Started then Some(Flushing) else None  // before the task is started
    case Round => Some(Ok)                                            // a round of the loop begins
    case Leave(reason) => Some(reason)                                // the loop leaves
    case _ => None
  }

  /** What the table says `output_flow` holds after a run from s, if it held `value` before. */
  ghost function TableValue(v: Version, s: State, steps: seq<Step>, t: State, value: Flow): Flow
    requires Reaches(v, s, steps, t)
    decreases |steps|
  {
    if steps == [] then value
    else
      var listed := Listed(s, steps[0]);
      TableValue(v, Apply(v, s, steps[0]), steps[1..], t, if listed.Some? then listed.value else value)
  }

  /** In every run `output_flow` holds what the table says. */
  lemma {:induction false} FlowFollowsTable(v: Version, s: State, steps: seq<Step>, t: State)
    requires Reaches(v, s, steps, t)
    ensures t.flow == TableValue(v, s, steps, t, s.flow)
    decreases |steps|
  {
    if steps != [] {
      FlowFollowsTable(v, Apply(v, s, steps[0]), steps[1..], t);
    }
  }

  lemma {:induction false} ResultsGrow(v: Version, s: State, steps: seq<Step>, t: State)
    requires Reaches(v, s, steps, t)
    ensures s.results <= t.results
    decreases |steps|
  {
    if steps != [] {
      ResultsGrow(v, Apply(v, s, steps[0]), steps[1..], t);
    }
  }

  /** A frame that did not see the task started returns what `output_flow` holds when it returns, in u. */
  lemma {:induction false} UnstartedReturnsFlow(v: Version, s: State, steps: seq<Step>, t: State, i: nat)
    returns (k: nat, u: State)
    requires Invariant(v, s) && Reaches(v, s, steps, t) && |s.results| <= i < |t.results|
    requires t.results[i].frame.wokenBy != Nobody && !t.results[i].frame.sawStarted
    ensures k < |steps| && steps[k] == Decide && Reaches(v, s, steps[..k], u) && |u.results| == i
    ensures t.results[i].result == u.flow
    decreases |steps|
  {
    var next := Apply(v, s, steps[0]);
    ResultsGrow(v, next, steps[1..], t);
    if |next.results| > i {
      assert next.results[i] == t.results[i];
      k, u := 0, s;
    } else {
      StepKeepsInvariant(v, s, steps[0]);
      k, u := UnstartedReturnsFlow(v, next, steps[1..], t, i);
      assert steps[..k + 1][1..] == steps[1..][..k];
      k := k + 1;
    }
  }

  /** So it returns the value that the life-cycle table says was written last before it returned. */
  lemma UnstartedFrameResult(v: Version, steps: seq<Step>, t: State, i: nat) returns (k: nat, u: State)
    requires Reaches(v, INITIAL, steps, t) && i < |t.results|
    requires t.results[i].frame.wokenBy != Nobody && !t.results[i].frame.sawStarted
    ensures k < |steps| && steps[k] == Decide && Reaches(v, INITIAL, steps[..k], u) && |u.results| == i
    ensures t.results[i].result == TableValue(v, INITIAL, steps[..k], u, Ok)
  {
    k, u := UnstartedReturnsFlow(v, INITIAL, steps, t, i);
    FlowFollowsTable(v, INITIAL, steps[..k], u);
  }

  // ------------------------------------------------------------------ progress

  /** No step of a thread waits for another thread, and a flush may come at any time. */
  lemma NothingBlocks(v: Version, s: State)
    requires Invariant(v, s)
    ensures Enabled(s, Interrupt) && Enabled(s, Reset)
    ensures match s.loop
            case Resting => s.input != Starting ==> Enabled(s, Stop)
            case Running => Enabled(s, Round) && forall reason | reason != Ok :: Enabled(s, Leave(reason))
            case Recorded => Enabled(s, Unlock)
            case Unlocked => Enabled(s, Pause)
    ensures match s.input
            case Outside => Enabled(s, Enter)
            case Starting => Enabled(s, StartTask)
            case Processing => Enabled(s, if s.wakeup == Nobody then Accept else Wake)
            case _ => Enabled(s, Decide)
  {
  }

  /** How far the two threads are from being at rest. */
  function StepsToRest(s: State): nat {
    (match s.input
     case Outside => 0 case Take => 1 case CheckFlushing => 2 case CheckOk => 3 case Woken => 4
     case Processing => 5 case Starting => 10) +
    match s.loop
    case Resting => 0 case Unlocked => 1 case Recorded => 2 case Running => 3
  }

  /** The next step on the way to rest: the frame in hand first, then the loop, which leaves with `reason`. */
  function RestStep(s: State, reason: Flow): Step {
    match s.input
    case Outside => (match s.loop case Running => Leave(reason) case Recorded => Unlock case _ => Pause)
    case Starting => StartTask
    case Processing => if s.wakeup == Nobody then Accept else Wake
    case _ => Decide
  }

  lemma RestStepHelps(v: Version, s: State, reason: Flow)
    requires Invariant(v, s) && reason != Ok && (s.input != Outside || s.loop != Resting)
    ensures Enabled(s, RestStep(s, reason))
    ensures StepsToRest(Apply(v, s, RestStep(s, reason))) < StepsToRest(s)
  {
    NothingBlocks(v, s);
  }

  lemma {:induction false} CanRest(v: Version, s: State, reason: Flow) returns (steps: seq<Step>, t: State)
    requires Invariant(v, s) && reason != Ok
    ensures Reaches(v, s, steps, t) && t.input == Outside && t.loop == Resting
    ensures s.input == Outside && s.loop == Resting ==> t == s
    ensures s.input == Outside && s.loop != Resting ==>
              t.task == Paused && t.flow == if s.loop == Running then reason else s.flow
    decreases StepsToRest(s)
  {
    if s.input == Outside && s.loop == Resting {
      steps, t := [], s;
    } else {
      var step := RestStep(s, reason);
      RestStepHelps(v, s, reason);
      StepKeepsInvariant(v, s, step);
      steps, t := CanRest(v, Apply(v, s, step), reason);
      steps := [step] + steps;
      assert steps[1..] + [] == steps[1..];
    }
  }

  /** From every state of every run the frame in hand can return and the loop can leave, for any reason. */
  lemma EveryRunCanRest(v: Version, steps: seq<Step>, s: State, reason: Flow) returns (more: seq<Step>, t: State)
    requires Reaches(v, INITIAL, steps, s) && reason != Ok
    ensures Reaches(v, s, more, t) && t.input == Outside && t.loop == Resting
    ensures s.input == Outside && s.loop == Running ==> t.task == Paused && t.flow == reason
  {
    RunKeepsInvariant(v, INITIAL, steps, s);
    more, t := CanRest(v, s, reason);
  }

  // ------------------------------------------------------------------ runs

  lemma {:induction false} RunExtends(v: Version, s: State, steps: seq<Step>, t: State, step: Step)
    requires Reaches(v, s, steps, t) && Enabled(t, step)
    ensures Reaches(v, s, steps + [step], Apply(v, t, step))
    decreases |steps|
  {
    if steps == [] {
      assert Reaches(v, Apply(v, t, step), [], Apply(v, t, step));
      assert [step][1..] == [];
    } else {
      RunExtends(v, Apply(v, s, steps[0]), steps[1..], t, step);
      assert (steps + [step])[1..] == steps[1..] + [step];
    }
  }

  /** Add one step to a run from the initial state. */
  lemma Extend(v: Version, steps: seq<Step>, s: State, step: Step) returns (longer: seq<Step>, t: State)
    requires Reaches(v, INITIAL, steps, s) && Enabled(s, step)
    ensures t == Apply(v, s, step) && longer == steps + [step] && Reaches(v, INITIAL, longer, t)
  {
    longer, t := steps + [step], Apply(v, s, step);
    RunExtends(v, INITIAL, steps, s, step);
  }

  /** A frame is being processed and the output loop runs. */
  const BUSY := INITIAL.(flow := Flushing, task := Started, loop := Running, input := Processing)

  lemma GetBusy(v: Version) returns (steps: seq<Step>)
    ensures Reaches(v, INITIAL, steps, BUSY)
  {
    var t;
    steps, t := [], INITIAL;
    steps, t := Extend(v, steps, t, Enter);
    steps, t := Extend(v, steps, t, StartTask);
  }

  /** The loop has left with EOS. */
  const AFTER_EXIT := BUSY.(flow := Eos, loop := Recorded, exit := Some(Eos), frame := NEW_FRAME.(clean := false))

  lemma GetAfterExit(v: Version) returns (steps: seq<Step>)
    ensures Reaches(v, INITIAL, steps, AFTER_EXIT)
  {
    var t;
    steps := GetBusy(v);
    steps, t := Extend(v, steps, BUSY, Round);
    steps, t := Extend(v, steps, t, Leave(Eos));
  }

  /** The hang: the input thread reads the task state between the loop's unlock and its pause. */
  lemma OriginalLosesEos() returns (steps: seq<Step>, t: State)
    ensures Reaches(Original, INITIAL, steps, t) && |t.results| == 1
    ensures t.results[0].frame.exit == Some(Eos) && t.results[0].result == Flushing
  {
    steps := GetAfterExit(Original);
    steps, t := Extend(Original, steps, AFTER_EXIT, Unlock);
    steps, t := Extend(Original, steps, t, Wake);
    steps, t := Extend(Original, steps, t, Decide);
  }

  /** A flush has interrupted the frame after that. */
  const FLUSHED_AFTER_EXIT := AFTER_EXIT.(
    wakeup := ExternalFlush, input := Woken, frame := NEW_FRAME.(wokenBy := ExternalFlush, clean := false))

  lemma GetFlushedAfterExit() returns (steps: seq<Step>)
    ensures Reaches(Patched, INITIAL, steps, FLUSHED_AFTER_EXIT)
  {
    var t;
    steps := GetAfterExit(Patched);
    steps, t := Extend(Patched, steps, AFTER_EXIT, Interrupt);
    steps, t := Extend(Patched, steps, t, Wake);
  }

  /** A flush that comes after the loop has recorded its exit: the flushed frame returns the reason. */
  lemma PatchedFlushMayReturnReason() returns (steps: seq<Step>, t: State)
    ensures Reaches(Patched, INITIAL, steps, t) && |t.results| == 1
    ensures var f := t.results[0].frame; f.wokenBy == ExternalFlush && f.sawStarted && !f.okBetween
    ensures t.results[0].result == Eos && t.results[0].outstanding == Some(Eos)
  {
    steps := GetFlushedAfterExit();
    steps, t := Extend(Patched, steps, FLUSHED_AFTER_EXIT, Decide);
    steps, t := Extend(Patched, steps, t, Decide);
    steps, t := Extend(Patched, steps, t, Decide);
    steps, t := Extend(Patched, steps, t, Decide);
  }

  /** A flush has interrupted a frame and stopped the loop, whose unlock comes before the frame wakes. */
  const LOOP_FLUSHED := BUSY.(
    loop := Unlocked, wakeup := LoopExit, exit := Some(Flushing), frame := NEW_FRAME)

  lemma GetLoopFlushed() returns (steps: seq<Step>)
    ensures Reaches(Patched, INITIAL, steps, LOOP_FLUSHED) && Interrupt in steps
  {
    var t;
    steps := GetBusy(Patched);
    steps, t := Extend(Patched, steps, BUSY, Interrupt);
    steps, t := Extend(Patched, steps, t, Leave(Flushing));
    steps, t := Extend(Patched, steps, t, Unlock);
  }

  /** A flush that makes the loop leave with FLUSHING: the frame the loop wakes returns FLUSHING. */
  lemma FlushedLoopReturnsFlushing() returns (steps: seq<Step>, t: State)
    ensures Reaches(Patched, INITIAL, steps, t) && |t.results| == 1 && Interrupt in steps
    ensures var f := t.results[0].frame;
            f.wokenBy == LoopExit && f.exit == Some(Flushing) && f.clean && f.sawStarted
    ensures t.results[0].result == Flushing
  {
    steps := GetLoopFlushed();
    steps, t := Extend(Patched, steps, LOOP_FLUSHED, Wake);
    steps, t := Extend(Patched, steps, t, Decide);
    steps, t := Extend(Patched, steps, t, Decide);
    steps, t := Extend(Patched, steps, t, Decide);
  }

  /** A flushed frame has found that `output_flow` is not OK. */
  const BETWEEN_READS := BUSY.(
    wakeup := ExternalFlush, input := CheckFlushing, frame := NEW_FRAME.(wokenBy := ExternalFlush))

  lemma GetBetweenReads() returns (steps: seq<Step>)
    ensures Reaches(Patched, INITIAL, steps, BETWEEN_READS)
  {
    var t;
    steps := GetBusy(Patched);
    steps, t := Extend(Patched, steps, BUSY, Interrupt);
    steps, t := Extend(Patched, steps, t, Wake);
    steps, t := Extend(Patched, steps, t, Decide);
    steps, t := Extend(Patched, steps, t, Decide);
  }

  /**
   * Two comparisons are two reads: a loop round that begins between them turns the FLUSHING of an
   * external flush into OK.
   */
  lemma PatchedFlushMayReturnOk() returns (steps: seq<Step>, t: State)
    ensures Reaches(Patched, INITIAL, steps, t) && |t.results| == 1
    ensures var f := t.results[0].frame; f.wokenBy == ExternalFlush && f.clean && f.sawStarted && f.okBetween
    ensures t.results[0].result == Ok
  {
    steps := GetBetweenReads();
    steps, t := Extend(Patched, steps, BETWEEN_READS, Round);
    steps, t := Extend(Patched, steps, t, Decide);
    steps, t := Extend(Patched, steps, t, Decide);
  }
}
