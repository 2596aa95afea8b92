/** Which generation is inside Run with a context nobody has cancelled: safety of the
    deployment protocol over every schedule, and the schedules that break it. (A cancelled
    Run may still make one write; whose bytes the disk then holds is in DiskOwner.) */
module WriterSafety {
  import opened Wrappers
  import opened DeployState
  import opened DeployProtocol
  import opened Runs
  import opened Schedules

  /** Up to the end of Run with a context nobody has cancelled. */
  predicate Live(s: Sys, g: nat) {
    g < |s.gens| && g < |s.mgr.done| && s.gens[g].BeforeReturn() && !s.mgr.done[g]
  }

  /** Inside Run with an uncancelled context. */
  predicate Writer(s: Sys, g: nat) {
    Live(s, g) && s.gens[g].pc.Running?
  }

  /** Between SetState(completed) and Finish(completed). */
  predicate InWindow(x: Gen) {
    x.pc.Completing? || x.pc.Notified? || x.pc.Rebroadcast?
  }

  /** From a successful return of Run to the Finish that follows. */
  predicate Succeeded(x: Gen) {
    InWindow(x) ||
    ((x.pc.Returned? || x.pc.Closed? || x.pc.Stored?) && !x.RunFailed())
  }

  /** No Acquire succeeds while some generation is in the window. */
  predicate NoAcquireInWindow(s: Agent, step: Step) {
    step.Acquire? && s.mgr.Free() ==> forall g: nat :: g < |s.gens| ==> !InWindow(s.gens[g])
  }

  /** No Acquire falls between a Run's successful return and its Finish, and a Run that
      another Acquire has superseded returns an error. */
  predicate NoOvertaking(s: Agent, step: Step) {
    && (step.Acquire? && s.mgr.Free() ==> forall g: nat :: g < |s.gens| ==> !Succeeded(s.gens[g]))
    && (step.Return? && step.err.None? ==> step.g + 1 >= |s.gens|)
  }

  /** The only generation that can be live is the current one, with its own cancel stored. */
  ghost predicate SoleLive(s: Agent) {
    forall g: nat :: Live(s, g) ==> g == |s.gens| - 1 && s.mgr.cancel == Some(g)
  }

  /** A terminal task whose context is still uncancelled exists only in the window. */
  ghost predicate TerminalIsCancelled(s: Agent) {
    s.mgr.current.Some? && s.mgr.current.value.gen < |s.mgr.done| && s.mgr.Free() && !s.mgr.done[s.mgr.current.value.gen] ==>
      exists g: nat :: g < |s.gens| && InWindow(s.gens[g])
  }

  ghost predicate Safe(s: Agent) {
    SoleLive(s) && TerminalIsCancelled(s)
  }

  /** What one step may do to the manager: `Cancelling` covers Cancel and Finish, which
      invoke the stored cancel function and leave a terminal state. */
  datatype Effect = NoEffect | Acquiring | StillRunning | Completes | Cancelling

  ghost predicate HasEffect(s: Agent, s': Agent, e: Effect) {
    match e
    case NoEffect => s'.mgr == s.mgr
    case Acquiring => s.mgr.Free() && |s'.gens| == |s.gens| + 1 && s'.mgr.cancel == Some(|s.gens|) && !s'.mgr.Free()
    case StillRunning => s'.mgr.cancel == s.mgr.cancel && s'.mgr.done == s.mgr.done && !s'.mgr.Free()
    case Completes => s'.mgr.cancel == s.mgr.cancel && s'.mgr.done == s.mgr.done
    case Cancelling => |s'.gens| > 0 && s'.mgr.done[|s'.gens| - 1]
  }

  function EffectOf(s: Agent, step: Step): Effect {
    match step
    case Acquire(_, _) => if s.mgr.Free() then Acquiring else NoEffect
    case Main(g) =>
      if g >= |s.gens| then NoEffect
      else (match s.gens[g].pc
            case Published => StillRunning
            case Stored => if s.gens[g].RunFailed() then NoEffect else Completes
            case Marked(_) => Cancelling
            case Rebroadcast => Cancelling
            case _ => NoEffect)
    case Sync(g) =>
      if g < |s.gens| && s.gens[g].sync.Got? && s.gens[g].sync.stage.IsRunning() then StillRunning else NoEffect
    case Cancel => if s.mgr.Free() then NoEffect else Cancelling
    case ShutdownCancel(i) => if i < |s.shutdowns| && s.shutdowns[i].Checked? && !s.mgr.Free() then Cancelling else NoEffect
    case _ => NoEffect
  }

  lemma StepHasEffect(s: Agent, step: Step, now: nat)
    ensures HasEffect(s, Apply(s, step, now), EffectOf(s, step))
    ensures !EffectOf(s, step).Acquiring? ==> |Apply(s, step, now).gens| == |s.gens|
  {
  }

  /** A generation that is before its return, or live, was so before the step; the window
      is entered by completing and left by cancelling. */
  ghost predicate Moves(s: Agent, step: Step, s': Agent, g: nat)
    requires g < |s.gens|
  {
    && g < |s'.gens|
    && (s'.gens[g].BeforeReturn() ==> s.gens[g].BeforeReturn())
    && (s.mgr.done[g] ==> s'.mgr.done[g])
    && (InWindow(s.gens[g]) && !EffectOf(s, step).Cancelling? ==> InWindow(s'.gens[g]))
    && (EffectOf(s, step).Completes? && step == Main(g) ==> InWindow(s'.gens[g]))
  }

  lemma MainMoves(s: Agent, h: nat, now: nat, g: nat)
    requires g < |s.gens|
    ensures Moves(s, Main(h), Apply(s, Main(h), now), g)
  {
  }

  lemma StepMoves(s: Agent, step: Step, now: nat, g: nat)
    requires g < |s.gens|
    ensures Moves(s, step, Apply(s, step, now), g)
  {
    if step.Main? {
      MainMoves(s, step.g, now, g);
    }
  }

  lemma StepKeepsSafe(s: Agent, step: Step, s': Agent, now: nat)
    requires Safe(s) && NoAcquireInWindow(s, step) && s' == Apply(s, step, now)
    ensures Safe(s')
  {
    StepHasEffect(s, step, now);
    forall g: nat | g < |s.gens|
      ensures g < |s'.gens| && (Live(s', g) ==> Live(s, g))
      ensures InWindow(s.gens[g]) && !EffectOf(s, step).Cancelling? ==> InWindow(s'.gens[g])
    {
      StepMoves(s, step, now, g);
    }
    if EffectOf(s, step).Completes? {
      StepMoves(s, step, now, step.g);
    }
  }

  lemma SafeIsInductive()
    ensures Inductive(Apply, NoAcquireInWindow, Safe)
  {
    forall s: Agent, step: Step, now: nat | Safe(s) && NoAcquireInWindow(s, step)
      ensures Safe(Apply(s, step, now))
    {
      StepKeepsSafe(s, step, Apply(s, step, now), now);
    }
  }

  /** In every run in which no Acquire falls in a window, at most one generation is live;
      it is the manager's current task and the stored cancel function is its own. */
  lemma {:induction false} SingleLiveWriter(steps: seq<Step>, g: nat)
    requires Along(Apply, INIT, steps, NoAcquireInWindow)
    requires Live(Exec(INIT, steps), g)
    ensures var s := Exec(INIT, steps);
            && (forall h: nat :: Live(s, h) ==> h == g)
            && s.mgr.current.Some? && s.mgr.current.value.gen == g
            && s.mgr.cancel == Some(g)
  {
    SafeIsInductive();
    RunKeeps<Agent, Step>(Apply, INIT, steps, NoAcquireInWindow, Safe);
  }

  /** No Acquire succeeds before the current task's Run has returned or its context has
      been cancelled. */
  predicate NoAcquireWhileLive(s: Agent, step: Step) {
    step.Acquire? && s.mgr.Free() && |s.gens| > 0 ==>
      s.mgr.done[|s.gens| - 1] || !s.gens[|s.gens| - 1].BeforeReturn()
  }

  ghost predicate AtMostOneLive(s: Agent) {
    forall g: nat, h: nat :: Live(s, g) && Live(s, h) ==> g == h
  }

  lemma StepKeepsSoleLive(s: Agent, step: Step, now: nat)
    requires SoleLive(s) && NoAcquireWhileLive(s, step)
    ensures SoleLive(Apply(s, step, now))
  {
    var s' := Apply(s, step, now);
    StepHasEffect(s, step, now);
    forall g: nat | g < |s.gens|
      ensures g < |s'.gens| && (Live(s', g) ==> Live(s, g))
    {
      StepMoves(s, step, now, g);
    }
  }

  lemma EarlyAcquireBreaks(s: Agent, step: Step, now: nat)
    requires !NoAcquireWhileLive(s, step)
    ensures !AtMostOneLive(Apply(s, step, now))
  {
    var s' := Apply(s, step, now);
    assert Live(s', |s.gens| - 1) && Live(s', |s.gens|);
  }

  lemma SoleLiveIsInductive()
    ensures Inductive(Apply, NoAcquireWhileLive, SoleLive)
  {
    forall s: Agent, step: Step, now: nat | SoleLive(s) && NoAcquireWhileLive(s, step)
      ensures SoleLive(Apply(s, step, now))
    {
      StepKeepsSoleLive(s, step, now);
    }
  }

  lemma EarlyAcquiresBreak()
    ensures Breaks(Apply, NoAcquireWhileLive, SoleLive, AtMostOneLive)
  {
    forall s: Agent, step: Step, now: nat | SoleLive(s) && !NoAcquireWhileLive(s, step)
      ensures !AtMostOneLive(Apply(s, step, now))
    {
      EarlyAcquireBreaks(s, step, now);
    }
  }

  /** The exact condition: at most one generation is live in every state of a run if and
      only if no Acquire in it comes before the current task's Run has returned or its
      context has been cancelled. The code checks neither, only that the state is terminal. */
  lemma {:induction false} SingleLiveExactly(steps: seq<Step>)
    ensures Along(Apply, INIT, steps, NoAcquireWhileLive) <==>
            forall k: nat :: k <= |steps| ==> AtMostOneLive(Exec(INIT, steps[..k]))
  {
    SoleLiveIsInductive();
    EarlyAcquiresBreak();
    AlongExactly<Agent, Step>(Apply, INIT, steps, NoAcquireWhileLive, SoleLive, AtMostOneLive);
  }

  /** An Acquire on a free manager leaves at most one live generation exactly when there
      was none. */
  lemma AcquireSafeExactly(s: Agent, image: string, target: string, now: nat)
    requires s.mgr.Free()
    ensures var s' := Apply(s, Acquire(image, target), now);
            Live(s', |s.gens|) &&
            ((forall g: nat, h: nat :: Live(s', g) && Live(s', h) ==> g == h) <==> (forall g: nat :: !Live(s, g)))
  {
    var s' := Apply(s, Acquire(image, target), now);
    forall g: nat | g < |s.gens|
      ensures Live(s', g) <==> Live(s, g)
    {
    }
    if g: nat :| Live(s, g) {
      assert Live(s', g) && Live(s', |s.gens|) && g != |s.gens|;
    }
  }

  /** With both overtaking hypotheses the live generation's task is also non-terminal. */
  ghost predicate Undisturbed(s: Agent) {
    && Safe(s)
    && (forall g: nat :: g < |s.gens| && Succeeded(s.gens[g]) ==> g == |s.gens| - 1)
    && (forall g: nat :: Live(s, g) ==> !s.mgr.Free())
  }

  lemma MainKeepsSucceeded(s: Agent, h: nat, now: nat)
    requires Undisturbed(s)
    ensures var s' := Apply(s, Main(h), now);
            forall g: nat :: g < |s'.gens| && Succeeded(s'.gens[g]) ==> g == |s'.gens| - 1
  {
    var s' := Apply(s, Main(h), now);
    forall g: nat | g < |s'.gens| && Succeeded(s'.gens[g])
      ensures Succeeded(s.gens[g])
    {
      if g == h {
        assert s'.gens[g] == MainGen(s.gens[g], s.mgr.done[g]);
      }
    }
  }

  lemma StepKeepsSucceeded(s: Agent, step: Step, now: nat)
    requires Undisturbed(s) && NoOvertaking(s, step)
    ensures var s' := Apply(s, step, now);
            forall g: nat :: g < |s'.gens| && Succeeded(s'.gens[g]) ==> g == |s'.gens| - 1
  {
    if step.Main? {
      MainKeepsSucceeded(s, step.g, now);
    }
  }

  lemma StepKeepsLiveRunning(s: Agent, step: Step, s': Agent, now: nat, g: nat)
    requires Undisturbed(s) && NoOvertaking(s, step) && s' == Apply(s, step, now)
    requires Live(s', g)
    ensures !s'.mgr.Free()
  {
    StepHasEffect(s, step, now);
    StepKeepsSafe(s, step, s', now);
    if g < |s.gens| {
      StepMoves(s, step, now, g);
      assert Live(s, g);
    }
  }

  lemma UndisturbedIsInductive()
    ensures Inductive(Apply, NoOvertaking, Undisturbed)
  {
    forall s: Agent, step: Step, now: nat | Undisturbed(s) && NoOvertaking(s, step)
      ensures Undisturbed(Apply(s, step, now))
    {
      var s' := Apply(s, step, now);
      StepKeepsSafe(s, step, s', now);
      StepKeepsSucceeded(s, step, now);
      forall g: nat | Live(s', g)
        ensures !s'.mgr.Free()
      {
        StepKeepsLiveRunning(s, step, s', now, g);
      }
    }
  }

  lemma {:induction false} LiveTaskIsNotTerminal(steps: seq<Step>, g: nat)
    requires Along(Apply, INIT, steps, NoOvertaking)
    requires Live(Exec(INIT, steps), g)
    ensures var s := Exec(INIT, steps);
            && (forall h: nat :: Live(s, h) ==> h == g)
            && s.mgr.current.Some? && s.mgr.current.value.gen == g
            && !s.mgr.current.value.state.IsTerminal()
            && s.mgr.cancel == Some(g)
  {
    UndisturbedIsInductive();
    RunKeeps<Agent, Step>(Apply, INIT, steps, NoOvertaking, Undisturbed);
  }

  // ---- Schedules that break the hypotheses ----

  lemma FirstRunSyncing() returns (steps: seq<Step>, s: Agent)
    ensures s == Exec(INIT, steps) && |s.gens| == 1 && !s.mgr.Free()
    ensures s.gens[0].pc.Running? && s.gens[0].stage == Syncing
  {
    steps, s := TakeAcquire([], INIT, "a", "d");
    steps, s := Launch(steps, s, 0);
    steps, s := ReachSyncing(steps, s, 0);
  }

  /** A first Run succeeds and is stored; its task is still current and not terminal. */
  lemma FirstRunSucceeds() returns (steps: seq<Step>, s: Agent)
    ensures s == Exec(INIT, steps) && |s.gens| == 1 && !s.mgr.Free()
    ensures s.gens[0].pc.Stored? && !s.gens[0].RunFailed()
  {
    steps, s := FirstRunSyncing();
    steps, s := TakeReturn(steps, s, 0, None);
    steps, s := TakeMain(steps, s, 0);
    steps, s := TakeMain(steps, s, 0);
  }

  lemma TwoMoreAcquired() returns (steps: seq<Step>, s: Agent)
    ensures s == Exec(INIT, steps) && |s.gens| == 3
    ensures s.gens[1].pc.Acquired? && s.gens[2].pc.Acquired? && !s.mgr.done[1] && !s.mgr.done[2]
  {
    steps, s := FirstRunSucceeds();
    steps, s := Take(steps, s, Cancel);
    steps, s := TakeAcquire(steps, s, "b", "d");
    assert |s.gens| == 2 && s.gens[0].pc.Stored? && s.gens[1].pc.Acquired? && !s.mgr.done[1];
    steps, s := Take(steps, s, Main(0));
    assert s.mgr.Free();
    steps, s := TakeAcquire(steps, s, "c", "d");
  }

  /** Without the window hypothesis two generations write to the disk at once: the first
      Run succeeds, a late Cancel frees the manager, a second deployment starts, and the
      first one's SetState(completed), landing on the second task, lets in a third. */
  lemma TwoWritersReachable()
    ensures exists steps :: Writer(Exec(INIT, steps), 1) && Writer(Exec(INIT, steps), 2)
  {
    var steps, s := TwoMoreAcquired();
    steps, s := Launch(steps, s, 1);
    steps, s := Launch(steps, s, 2);
    assert Writer(Exec(INIT, steps), 1) && Writer(Exec(INIT, steps), 2);
  }

  /** Every goroutine has returned, yet the manager is in a running state. */
  ghost predicate Wedged(s: Agent) {
    s.mgr.Busy() && |s.gens| > 0 && forall g :: 0 <= g < |s.gens| ==> s.gens[g].Quiet()
  }

  lemma SyncListening() returns (steps: seq<Step>, s: Agent)
    ensures s == Exec(INIT, steps) && |s.gens| == 1 && s.mgr.current.Some?
    ensures s.gens[0].sync.Listening? && s.gens[0].queue == []
    ensures s.gens[0].pc.Running? && s.gens[0].stage == Preparing
  {
    steps, s := TakeAcquire([], INIT, "a", "d");
    steps, s := Launch(steps, s, 0);
    steps, s := TakeSync(steps, s, 0);
  }

  lemma SnapshotHeld() returns (steps: seq<Step>, s: Agent)
    ensures s == Exec(INIT, steps) && |s.gens| == 1 && s.mgr.current.Some?
    ensures s.gens[0].sync == Got(Downloading) && s.gens[0].pc.Running? && s.gens[0].stage == Downloading
    ensures s.gens[0].queue == []
  {
    steps, s := SyncListening();
    steps, s := TakeMain(steps, s, 0);
    assert s.gens[0].queue == [Downloading];
    steps, s := TakeSync(steps, s, 0);
  }

  lemma FailedWithSnapshotHeld() returns (steps: seq<Step>, s: Agent)
    ensures s == Exec(INIT, steps) && |s.gens| == 1 && s.mgr.current.Some?
    ensures s.gens[0].sync == Got(Downloading) && s.gens[0].pc.Failing?
  {
    steps, s := SnapshotHeld();
    steps, s := TakeReturn(steps, s, 0, Some("write error"));
    steps, s := TakeMain(steps, s, 0);
    steps, s := TakeMain(steps, s, 0);
    assert s.gens[0].pc.Stored? && s.gens[0].RunFailed() && s.gens[0].sync == Got(Downloading);
    steps, s := TakeMain(steps, s, 0);
  }

  lemma FinishedWithSnapshotHeld() returns (steps: seq<Step>, s: Agent)
    ensures s == Exec(INIT, steps) && |s.gens| == 1 && s.mgr.current.Some?
    ensures s.gens[0].sync == Got(Downloading) && s.gens[0].pc.Ended?
  {
    steps, s := FailedWithSnapshotHeld();
    steps, s := TakeMain(steps, s, 0);
    steps, s := TakeMain(steps, s, 0);
    steps, s := TakeMain(steps, s, 0);
  }

  /** The sync goroutine's late SetState, after Finish, reaches that state. */
  lemma WedgedReachable()
    ensures exists steps :: Wedged(Exec(INIT, steps))
  {
    var steps, s := FinishedWithSnapshotHeld();
    steps, s := TakeSync(steps, s, 0);
    steps, s := Take(steps, s, SyncStop(0));
    assert Wedged(Exec(INIT, steps));
  }

  predicate NoCancelRequest(s: Agent, step: Step) {
    !step.Cancel? && !step.ShutdownCancel?
  }

  /** And only a cancel request leaves it: until one comes, every Acquire is refused. */
  lemma {:induction false} WedgedUntilCancelled(s: Agent, steps: seq<Step>)
    requires Wedged(s) && Along(Apply, s, steps, NoCancelRequest)
    ensures Exec(s, steps).mgr == s.mgr && Exec(s, steps).gens == s.gens
  {
    var same := (x: Agent) => x.mgr == s.mgr && x.gens == s.gens;
    assert Inductive(Apply, NoCancelRequest, same) by {
      forall x: Agent, step: Step, now: nat | same(x) && NoCancelRequest(x, step)
        ensures same(Apply(x, step, now))
      {
      }
    }
    RunKeeps<Agent, Step>(Apply, s, steps, NoCancelRequest, same);
  }
}
