/** What a reboot or poweroff request does not ensure: the schedules that contradict the
    comments on ensureCancelledForShutdown and waitCancelled. */
module Shutdown {
  import opened Wrappers
  import opened DeployState
  import opened DeployProtocol
  import opened Schedules
  import opened Runs
  import opened Verdict
  import NodeStore
  import NodeHistory

  /** From any state whatever, a shutdown that has seen something running goes through to its
      report without any goroutine of a deployment taking a step: it waits for nothing. */
  lemma ShutdownNeverWaits(s: Agent, i: nat, now: nat)
    requires i < |s.shutdowns| && s.shutdowns[i].Checked?
    ensures var s1 := Apply(s, ShutdownCancel(i), now);
            var s2 := Apply(s1, ShutdownWait(i, false), now + 1);
            var s3 := Apply(s2, ShutdownReport(i), now + 2);
            && s3.gens == s.gens && s3.mgr == s.mgr.Cancel(now)
            && s3.shutdowns == s.shutdowns[i := Reported]
            && |s3.reports| == |s.reports| + 1 && s3.reports[..|s.reports|] == s.reports
            && s3.reports[|s.reports|].End? && s3.reports[|s.reports|].verdict == Cancelled
  {
    var s1 := Apply(s, ShutdownCancel(i), now);
    assert s1.gens == s.gens && s1.reports == s.reports && s1.shutdowns == s.shutdowns[i := CancelSent] && !s1.mgr.Busy();
    var s2 := Apply(s1, ShutdownWait(i, false), now + 1);
    assert s2.gens == s.gens && s2.mgr == s1.mgr && s2.reports == s.reports && s2.shutdowns == s.shutdowns[i := Waited];
    var s3 := Apply(s2, ShutdownReport(i), now + 2);
    assert s3.shutdowns == s.shutdowns[i := Reported];
  }

  /** The rest of ensureCancelledForShutdown, with nothing left running after its Cancel. */
  lemma ShutDown(steps: seq<Step>, s: Agent) returns (steps': seq<Step>, s': Agent)
    requires s == Exec(INIT, steps) && s.shutdowns == [Checked]
    ensures s' == Exec(INIT, steps') && s'.gens == s.gens && s'.shutdowns == [Reported]
    ensures s'.mgr == s.mgr.Cancel(|steps| + 1)
    ensures |s'.reports| == |s.reports| + 1 && s'.reports[..|s.reports|] == s.reports
    ensures s'.reports[|s.reports|].End? && s'.reports[|s.reports|].verdict == Cancelled
  {
    ShutdownNeverWaits(s, 0, |steps| + 1);
    steps', s' := Take(steps, s, ShutdownCancel(0));
    steps', s' := Take(steps', s', ShutdownWait(0, false));
    steps', s' := Take(steps', s', ShutdownReport(0));
  }

  lemma RunningDuringShutdown() returns (steps: seq<Step>, s: Agent)
    ensures s == Exec(INIT, steps) && |s.gens| == 1 && s.shutdowns == [Checked] && s.mgr.Busy()
    ensures s.gens[0].pc.Running? && s.gens[0].stage == Syncing
  {
    steps, s := TakeAcquire([], INIT, "a", "d");
    steps, s := Launch(steps, s, 0);
    steps, s := ReachSyncing(steps, s, 0);
    steps, s := Take(steps, s, ShutdownBegin);
  }

  /** Cancel makes the state terminal at once, so waitCancelled returns at once: the end is
      reported and the machine may restart while Run is still writing. */
  lemma ShutdownDoesNotWait()
    ensures exists steps ::
              var s := Exec(INIT, steps);
              && s.shutdowns == [Reported]
              && |s.gens| == 1 && s.gens[0].pc.Running? && s.gens[0].stage == Syncing
  {
    var steps, s := RunningDuringShutdown();
    steps, s := ShutDown(steps, s);
  }

  /** Completed, its end reported, with a shutdown that had seen it running under way. */
  lemma CompletedDuringShutdown() returns (steps: seq<Step>, s: Agent)
    ensures s == Exec(INIT, steps) && |s.gens| == 1 && s.gens[0].pc == Ending(Completed)
    ensures s.mgr.current.Some? && s.mgr.current.value.state == Completed && s.shutdowns == [Checked]
  {
    steps, s := RunningDuringShutdown();
    steps, s := TakeReturn(steps, s, 0, None);
    assert |s.gens| == 1 && s.gens[0].pc.Returned? && !s.gens[0].RunFailed() && s.shutdowns == [Checked];
    steps, s := Complete(steps, s);
  }

  lemma Complete(steps: seq<Step>, s: Agent) returns (steps': seq<Step>, s': Agent)
    requires s == Exec(INIT, steps) && |s.gens| == 1 && s.gens[0].pc.Returned? && !s.gens[0].RunFailed()
    ensures s' == Exec(INIT, steps') && |s'.gens| == 1 && s'.gens[0].pc == Ending(Completed)
    ensures s'.mgr.current.Some? && s'.mgr.current.value.state == Completed && s'.shutdowns == s.shutdowns
  {
    steps', s' := TakeMain(steps, s, 0);
    steps', s' := TakeMain(steps', s', 0);
    steps', s' := SetCompleted(steps', s');
    steps', s' := Notify(steps', s');
  }

  lemma SetCompleted(steps: seq<Step>, s: Agent) returns (steps': seq<Step>, s': Agent)
    requires s == Exec(INIT, steps) && |s.gens| == 1 && s.gens[0].pc.Stored? && !s.gens[0].RunFailed()
    ensures s' == Exec(INIT, steps') && |s'.gens| == 1 && s'.gens[0].pc.Completing? && s'.shutdowns == s.shutdowns
  {
    steps', s' := TakeMain(steps, s, 0);
  }

  lemma Notify(steps: seq<Step>, s: Agent) returns (steps': seq<Step>, s': Agent)
    requires s == Exec(INIT, steps) && |s.gens| == 1 && s.gens[0].pc.Completing?
    ensures s' == Exec(INIT, steps') && |s'.gens| == 1 && s'.gens[0].pc == Ending(Completed)
    ensures s'.mgr.current.Some? && s'.mgr.current.value.state == Completed && s'.shutdowns == s.shutdowns
  {
    steps', s' := TakeMain(steps, s, 0);
    steps', s' := NotifyAgain(steps', s');
  }

  lemma NotifyAgain(steps: seq<Step>, s: Agent) returns (steps': seq<Step>, s': Agent)
    requires s == Exec(INIT, steps) && |s.gens| == 1 && s.gens[0].pc.Notified?
    ensures s' == Exec(INIT, steps') && |s'.gens| == 1 && s'.gens[0].pc == Ending(Completed)
    ensures s'.mgr.current.Some? && s'.mgr.current.value.state == Completed && s'.shutdowns == s.shutdowns
  {
    steps', s' := TakeMain(steps, s, 0);
    steps', s' := FinishCompleted(steps', s');
  }

  lemma FinishCompleted(steps: seq<Step>, s: Agent) returns (steps': seq<Step>, s': Agent)
    requires s == Exec(INIT, steps) && |s.gens| == 1 && s.gens[0].pc.Rebroadcast?
    ensures s' == Exec(INIT, steps') && |s'.gens| == 1 && s'.gens[0].pc == Ending(Completed)
    ensures s'.mgr.current.Some? && s'.mgr.current.value.state == Completed && s'.shutdowns == s.shutdowns
  {
    steps', s' := TakeMain(steps, s, 0);
  }

  lemma CompletedReported() returns (steps: seq<Step>, s: Agent)
    ensures s == Exec(INIT, steps) && |s.gens| == 1 && s.gens[0].pc == Ended(Completed)
    ensures s.mgr.current.Some? && s.mgr.current.value.state == Completed && s.shutdowns == [Checked]
    ensures |s.reports| >= 1 && s.reports[|s.reports| - 1].End? && s.reports[|s.reports| - 1].verdict == Completed
  {
    var before, t := CompletedDuringShutdown();
    steps, s := TakeMain(before, t, 0);
    assert MainReports(0, t.gens[0]) == [End(Some(0), Completed, t.gens[0].Bytes(), "")];
  }

  /** A shutdown that saw the deployment running reports "cancelled" after the deployment
      has completed and said so. */
  lemma ShutdownReportsLast() returns (steps: seq<Step>, s: Agent)
    ensures s == Exec(INIT, steps) && |s.gens| == 1 && s.gens[0].pc == Ended(Completed)
    ensures s.mgr.current.Some? && s.mgr.current.value.state == Completed
    ensures |s.reports| >= 2 && s.reports[|s.reports| - 2].End? && s.reports[|s.reports| - 2].verdict == Completed
    ensures s.reports[|s.reports| - 1].End? && s.reports[|s.reports| - 1].verdict == Cancelled
  {
    var before, t := CompletedReported();
    steps, s := ShutDown(before, t);
    assert s.reports[|t.reports| - 1] == s.reports[..|t.reports|][|t.reports| - 1];
  }

  /** The server then holds "cancelled" for a deployment the agent shows as completed,
      whatever it held before. */
  lemma CompletedRecordedAsCancelled()
    ensures exists steps ::
              var s := Exec(INIT, steps);
              && s.mgr.current.Some? && s.mgr.current.value.state == Completed
              && forall db: NodeHistory.Database, uuid: string, clock: nat -> int ::
                   var after := NodeHistory.After(db, Deliver(uuid, s.reports, clock));
                   uuid in after && after[uuid].deploys != [] ==> after[uuid].LastResult() == NodeStore.CANCELLED
  {
    var steps, s := ShutdownReportsLast();
    forall db: NodeHistory.Database, uuid: string, clock: nat -> int
      ensures var after := NodeHistory.After(db, Deliver(uuid, s.reports, clock));
              uuid in after && after[uuid].deploys != [] ==> after[uuid].LastResult() == NodeStore.CANCELLED
    {
      var n := |s.reports| - 1;
      assert s.reports == s.reports[..n] + [s.reports[n]];
      DeliverSnoc(db, uuid, s.reports[..n], s.reports[n], clock);
      EndDecides(NodeHistory.After(db, Deliver(uuid, s.reports[..n], clock)), uuid, s.reports[n], clock(n), n + 1);
    }
    assert s == Exec(INIT, steps);
  }

  /** The end delivered last decides the result, whatever record it finds. */
  lemma EndDecides(db: NodeHistory.Database, uuid: string, r: Report, time: int, position: nat)
    requires r.End?
    ensures var after := NodeHistory.Handle(db, NodeHistory.At(EventOf(uuid, r), time), position);
            uuid in after && after[uuid].deploys != [] ==> after[uuid].LastResult() == ResultName(r.verdict)
  {
  }
}
