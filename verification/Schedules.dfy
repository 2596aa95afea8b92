/** Building concrete schedules step by step. */
module Schedules {
  import opened Wrappers
  import opened DeployState
  import opened DeployProtocol
  import opened Runs

  /** Extends a schedule by one step. */
  lemma Take(steps: seq<Step>, s: Agent, step: Step) returns (steps': seq<Step>, s': Agent)
    requires s == Exec(INIT, steps)
    ensures steps' == steps + [step] && s' == Apply(s, step, |steps| + 1) && s' == Exec(INIT, steps')
  {
    steps' := steps + [step];
    s' := Apply(s, step, |steps| + 1);
    RunAppend<Agent, Step>(Apply, INIT, steps, step);
  }

  lemma TakeMain(steps: seq<Step>, s: Agent, g: nat) returns (steps': seq<Step>, s': Agent)
    requires s == Exec(INIT, steps) && g < |s.gens|
    ensures s' == Exec(INIT, steps') && |steps'| == |steps| + 1
    ensures s'.gens == s.gens[g := MainGen(s.gens[g], s.mgr.done[g])]
    ensures s'.mgr == MainMgr(s.mgr, s.gens[g], |steps| + 1)
    ensures s'.shutdowns == s.shutdowns && s'.reports == s.reports + MainReports(g, s.gens[g])
  {
    steps', s' := Take(steps, s, Main(g));
  }

  lemma TakeSync(steps: seq<Step>, s: Agent, g: nat) returns (steps': seq<Step>, s': Agent)
    requires s == Exec(INIT, steps) && g < |s.gens|
    ensures s' == Exec(INIT, steps') && |steps'| == |steps| + 1
    ensures s'.gens == s.gens[g := SyncGen(s.gens[g])]
    ensures s'.mgr == SyncMgr(s.mgr, s.gens[g], |steps| + 1)
    ensures s'.shutdowns == s.shutdowns && s'.reports == s.reports
  {
    steps', s' := Take(steps, s, Sync(g));
  }

  lemma TakeReturn(steps: seq<Step>, s: Agent, g: nat, err: Option<string>) returns (steps': seq<Step>, s': Agent)
    requires s == Exec(INIT, steps) && g < |s.gens| && CanReturn(s.gens[g], err)
    ensures s' == Exec(INIT, steps') && s'.mgr == s.mgr && s'.shutdowns == s.shutdowns && s'.reports == s.reports
    ensures s'.gens == s.gens[g := s.gens[g].(pc := Returned, outcome := Some(Outcome(err, s.gens[g].written)))]
  {
    steps', s' := Take(steps, s, Return(g, err));
  }

  lemma TakeAcquire(steps: seq<Step>, s: Agent, image: string, target: string) returns (steps': seq<Step>, s': Agent)
    requires s == Exec(INIT, steps) && s.mgr.Free()
    ensures s' == Exec(INIT, steps') && s'.mgr == s.mgr.Acquire("", |steps| + 1)
    ensures s'.gens == s.gens + [NewGen(image, target)] && s'.shutdowns == s.shutdowns && s'.reports == s.reports
  {
    steps', s' := Take(steps, s, Acquire(image, target));
  }

  /** A generation just acquired reaches Run with its handler's own four steps. */
  lemma Launch(steps: seq<Step>, s: Agent, g: nat) returns (steps': seq<Step>, s': Agent)
    requires s == Exec(INIT, steps) && g < |s.gens| && s.gens[g].pc.Acquired?
    ensures s' == Exec(INIT, steps')
    ensures |s'.gens| == |s.gens| && s'.mgr == s.mgr.SetState(Preparing, "", |steps| + 2)
    ensures s'.gens == s.gens[g := s.gens[g].(pc := Running, sync := Spawned, stage := Preparing)]
    ensures s'.shutdowns == s.shutdowns
  {
    steps', s' := TakeMain(steps, s, g);
    steps', s' := TakeMain(steps', s', g);
    steps', s' := TakeMain(steps', s', g);
    steps', s' := TakeMain(steps', s', g);
  }

  /** Run goes through its stages with the sync goroutine not yet subscribed. */
  lemma ReachSyncing(steps: seq<Step>, s: Agent, g: nat) returns (steps': seq<Step>, s': Agent)
    requires s == Exec(INIT, steps) && g < |s.gens|
    requires s.gens[g].pc.Running? && s.gens[g].sync.Spawned? && s.gens[g].stage == Preparing
    ensures s' == Exec(INIT, steps') && s'.mgr == s.mgr && s'.shutdowns == s.shutdowns
    ensures |s'.gens| == |s.gens| && s'.gens[g].pc.Running? && s'.gens[g].stage == Syncing && s'.gens[g].sync.Spawned?
    ensures s'.gens[g].queue == s.gens[g].queue
    ensures forall h :: 0 <= h < |s.gens| && h != g ==> s'.gens[h] == s.gens[h]
  {
    steps', s' := TakeMain(steps, s, g);
    steps', s' := TakeMain(steps', s', g);
    steps', s' := TakeMain(steps', s', g);
  }
}
