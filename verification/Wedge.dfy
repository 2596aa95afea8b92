/** When a finished deployment leaves the manager running: the exact conditions. */
module Wedge {
  import opened Wrappers
  import opened DeployState
  import opened DeployProtocol
  import opened Runs
  import opened StageSync
  import opened WriterSafety

  /** Its Finish is over. */
  predicate Finished(x: Gen) {
    x.pc.Ending? || x.pc.Ended?
  }

  predicate HoldsRunning(sync: SyncPc) {
    sync.Got? && sync.stage.IsRunning()
  }

  /** No sync goroutine applies a running stage after its generation's Finish. */
  predicate NoLateUpdate(s: Agent, step: Step) {
    step.Sync? && step.g < |s.gens| && Finished(s.gens[step.g]) ==> !HoldsRunning(s.gens[step.g].sync)
  }

  /** Once the newest generation has finished, the manager is not running. */
  predicate Rests(s: Agent) {
    |s.gens| > 0 && Finished(s.gens[|s.gens| - 1]) ==> !s.mgr.Busy()
  }

  predicate FailsTerminally(x: Gen) {
    x.pc.Failing? || x.pc.Marked? ==> x.pc.verdict.IsTerminal()
  }

  ghost predicate Resting(s: Agent) {
    && EarlierQuiet(s) && Rests(s)
    && (|s.gens| > 0 ==> FailsTerminally(s.gens[|s.gens| - 1]))
  }

  lemma MainRests(m: Mgr, x: Gen, cancelled: bool, now: nat)
    requires m.WellFormed() && FailsTerminally(x) && (Finished(x) ==> !m.Busy())
    ensures FailsTerminally(MainGen(x, cancelled))
    ensures Finished(MainGen(x, cancelled)) ==> !MainMgr(m, x, now).Busy()
  {
  }

  lemma OtherStepRests(s: Agent, step: Step, now: nat)
    requires Resting(s) && NoLateUpdate(s, step) && !step.Main?
    ensures Rests(Apply(s, step, now))
    ensures var s' := Apply(s, step, now);
            |s'.gens| > 0 ==> FailsTerminally(s'.gens[|s'.gens| - 1])
  {
  }

  lemma StepRests(s: Agent, step: Step, now: nat)
    requires Resting(s) && NoOverlap(s, step) && NoLateUpdate(s, step)
    ensures Resting(Apply(s, step, now))
  {
    StepKeepsEarlierQuiet(s, step, now);
    if step.Main? {
      if step.g + 1 == |s.gens| {
        MainRests(s.mgr, s.gens[step.g], s.mgr.done[step.g], now);
      }
    } else {
      OtherStepRests(s, step, now);
    }
  }

  lemma LateUpdateRevives(s: Agent, step: Step, now: nat)
    requires EarlierQuiet(s) && !NoLateUpdate(s, step)
    ensures !Rests(Apply(s, step, now))
  {
    assert step.g == |s.gens| - 1;
  }

  /** The exact condition, over every run without overlap: once the newest generation has
      finished the manager is never running if and only if no sync goroutine applies a
      running stage after its generation's Finish. */
  lemma {:induction false} RevivedExactly(s: Agent, steps: seq<Step>)
    requires AllQuiet(s) && !s.mgr.Busy() && Along(Apply, s, steps, NoOverlap)
    ensures Along(Apply, s, steps, NoLateUpdate) <==> forall k: nat :: k <= |steps| ==> Rests(Exec(s, steps[..k]))
  {
    assert Decides<Agent, Step>(Apply, NoOverlap, NoLateUpdate, Resting, Rests) by {
      forall x: Agent, step: Step, now: nat | Resting(x) && NoOverlap(x, step)
        ensures if NoLateUpdate(x, step) then Resting(Apply(x, step, now)) else !Rests(Apply(x, step, now))
      {
        if NoLateUpdate(x, step) {
          StepRests(x, step, now);
        } else {
          LateUpdateRevives(x, step, now);
        }
      }
    }
    AlongExactlyUnder<Agent, Step>(Apply, s, steps, NoOverlap, NoLateUpdate, Resting, Rests);
  }

  /** So without such an update the manager is never left running with nothing running. */
  lemma {:induction false} NeverWedged(s: Agent, steps: seq<Step>)
    requires AllQuiet(s) && !s.mgr.Busy() && Along(Apply, s, steps, NoOverlap)
    requires Along(Apply, s, steps, NoLateUpdate)
    ensures !Wedged(Exec(s, steps))
  {
    RevivedExactly(s, steps);
    assert steps[..|steps|] == steps;
  }

  // ---- Seen from the moment of Finish ----

  /** A running stage is in the sync goroutine's hands or still in its channel. */
  predicate MayRevive(x: Gen) {
    !x.sync.NotSpawned? && !x.sync.Gone? &&
    (HoldsRunning(x.sync) || exists i :: 0 <= i < |x.queue| && x.queue[i].IsRunning())
  }

  predicate NoNewDeployment(s: Agent, step: Step) {
    !(step.Acquire? && s.mgr.Free())
  }

  /** The newest generation, still of index `g`, has finished and cannot revive its task. */
  ghost predicate Spent(s: Agent, g: nat) {
    && g + 1 == |s.gens| && EarlierQuiet(s)
    && Finished(s.gens[g]) && !MayRevive(s.gens[g]) && !s.mgr.Busy()
  }

  lemma SyncSpends(x: Gen)
    requires !MayRevive(x)
    ensures !MayRevive(SyncGen(x))
  {
    if x.sync.Listening? && x.queue != [] {
      assert !x.queue[0].IsRunning();
      assert forall i :: 0 <= i < |x.queue| - 1 ==> x.queue[1..][i] == x.queue[i + 1];
    }
  }

  lemma StepKeepsSpent(s: Agent, step: Step, now: nat, g: nat)
    requires Spent(s, g) && NoNewDeployment(s, step)
    ensures Spent(Apply(s, step, now), g)
  {
    StepKeepsEarlierQuiet(s, step, now);
    if step == Sync(g) {
      SyncSpends(s.gens[g]);
    }
  }

  lemma {:induction false} SpentStays(s: Agent, more: seq<Step>, g: nat)
    requires Spent(s, g) && Along(Apply, s, more, NoNewDeployment)
    ensures !Exec(s, more).mgr.Busy()
  {
    var inv := (x: Agent) => Spent(x, g);
    assert Inductive<Agent, Step>(Apply, NoNewDeployment, inv) by {
      forall x: Agent, step: Step, now: nat | inv(x) && NoNewDeployment(x, step)
        ensures inv(Apply(x, step, now))
      {
        StepKeepsSpent(x, step, now, g);
      }
    }
    RunKeeps<Agent, Step>(Apply, s, more, NoNewDeployment, inv);
  }

  lemma SyncOnce(s0: Agent, before: seq<Step>, s: Agent, g: nat) returns (steps: seq<Step>, s': Agent)
    requires s == Exec(s0, before) && Along(Apply, s0, before, NoNewDeployment) && g < |s.gens|
    ensures s' == Exec(s0, steps) && Along(Apply, s0, steps, NoNewDeployment) && |s'.gens| == |s.gens|
    ensures s'.gens[g] == SyncGen(s.gens[g]) && s'.mgr == SyncMgr(s.mgr, s.gens[g], |steps|)
  {
    steps := before + [Sync(g)];
    s' := Apply(s, Sync(g), |steps|);
    assert steps[..|steps| - 1] == before;
  }

  /** The sync goroutine, left to itself, works its channel off until it revives the task. */
  lemma {:induction false} Revive(s0: Agent, before: seq<Step>, s: Agent, g: nat) returns (steps: seq<Step>)
    requires s == Exec(s0, before) && Along(Apply, s0, before, NoNewDeployment)
    requires g < |s.gens| && MayRevive(s.gens[g])
    ensures Along(Apply, s0, steps, NoNewDeployment) && Exec(s0, steps).mgr.Busy()
    decreases |s.gens[g].queue|, if s.gens[g].sync.Listening? then 0 else 1
  {
    var x, s' := s.gens[g], s;
    steps, s' := SyncOnce(s0, before, s, g);
    if !HoldsRunning(x.sync) {
      var i :| 0 <= i < |x.queue| && x.queue[i].IsRunning();
      if x.sync.Listening? && i > 0 {
        assert SyncGen(x).queue[i - 1] == x.queue[i];
      }
      steps := Revive(s0, steps, s', g);
    }
  }

  /** The exact condition at Finish: some continuation without a new deployment leaves the
      manager running if and only if a running stage was then still held or queued. */
  lemma RevivableExactly(s: Agent, g: nat)
    requires g + 1 == |s.gens| && EarlierQuiet(s) && Finished(s.gens[g]) && !s.mgr.Busy()
    ensures (exists more: seq<Step> :: Along(Apply, s, more, NoNewDeployment) && Exec(s, more).mgr.Busy())
            <==> MayRevive(s.gens[g])
  {
    if MayRevive(s.gens[g]) {
      var more := Revive(s, [], s, g);
    } else {
      forall more: seq<Step> | Along(Apply, s, more, NoNewDeployment)
        ensures !Exec(s, more).mgr.Busy()
      {
        SpentStays(s, more, g);
      }
    }
  }
}
