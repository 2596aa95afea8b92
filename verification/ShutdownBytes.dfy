/** The byte count a shutdown reports (agent/internal/api/handlers.go). */
module ShutdownBytes {
  import opened Wrappers
  import opened DeployState
  import opened DeployProtocol
  import opened Runs
  import opened StageSync
  import opened Verdict
  import LastRecord
  import NodeStore
  import NodeHistory

  /** The newest generation whose tracker the server has been given. */
  predicate NewestPublished(gens: seq<Gen>, g: nat) {
    && g < |gens| && !gens[g].pc.Acquired?
    && forall h :: g < h < |gens| ==> gens[h].pc.Acquired?
  }

  predicate NonePublished(gens: seq<Gen>) {
    forall h :: 0 <= h < |gens| ==> gens[h].pc.Acquired?
  }

  /** runDeploy has stored what Run returned. */
  predicate ResultStored(x: Gen) {
    x.StopClosed() && !x.pc.Closed?
  }

  /** The tracker and the last result are those of the newest published generation. */
  ghost predicate Shows(gens: seq<Gen>, tracker: Option<nat>, lastResult: Option<Outcome>) {
    && (NonePublished(gens) ==> tracker.None? && lastResult.None?)
    && (forall g: nat :: NewestPublished(gens, g) ==>
          && tracker == Some(g)
          && lastResult == if ResultStored(gens[g]) then gens[g].outcome else None)
  }

  ghost predicate Known(s: Agent) {
    EarlierQuiet(s) && AllJudged(s, 0) && Shows(s.gens, s.tracker, s.lastResult)
  }

  /** Under way there is no doubt which generation is the newest published one. */
  lemma WhichPublished(gens: seq<Gen>, n: nat)
    requires n + 1 == |gens| && forall g :: 0 <= g < n ==> gens[g].Quiet()
    ensures !gens[n].pc.Acquired? ==> forall g: nat :: NewestPublished(gens, g) <==> g == n
    ensures gens[n].pc.Acquired? && n > 0 ==> forall g: nat :: NewestPublished(gens, g) <==> g == n - 1
    ensures NonePublished(gens) <==> n == 0 && gens[n].pc.Acquired?
  {
    forall g: nat | g < n
      ensures !gens[g].pc.Acquired?
    {
      assert gens[g].Quiet();
    }
    forall g: nat
      ensures NewestPublished(gens, g) <==> g == if gens[n].pc.Acquired? then n - 1 else n
    {
      if g + 1 < |gens| {
        assert !gens[g].pc.Acquired? && (g < n - 1 ==> !gens[n - 1].pc.Acquired?);
      }
    }
    if n > 0 {
      assert !gens[0].pc.Acquired?;
    }
  }

  /** What must be shown once the newest generation is published. */
  lemma NewestShows(gens: seq<Gen>, n: nat, tracker: Option<nat>, lastResult: Option<Outcome>)
    requires n + 1 == |gens| && (forall g :: 0 <= g < n ==> gens[g].Quiet()) && !gens[n].pc.Acquired?
    ensures Shows(gens, tracker, lastResult) <==>
              tracker == Some(n) && lastResult == if ResultStored(gens[n]) then gens[n].outcome else None
  {
    WhichPublished(gens, n);
    assert NewestPublished(gens, n);
  }

  lemma MainStores(x: Gen, cancelled: bool, lastResult: Option<Outcome>)
    requires Judged(x) && !x.pc.Acquired? && lastResult == if ResultStored(x) then x.outcome else None
    ensures var x' := MainGen(x, cancelled);
            && !x'.pc.Acquired?
            && (if x.pc.Closed? then x.outcome else lastResult) == if ResultStored(x') then x'.outcome else None
  {
  }

  /** What the newest generation's next statement does to what is shown. */
  lemma NextShows(
    gens: seq<Gen>, n: nat, tracker: Option<nat>, lastResult: Option<Outcome>, cancelled: bool)
    requires n + 1 == |gens| && (forall g :: 0 <= g < n ==> gens[g].Quiet()) && Judged(gens[n])
    requires Shows(gens, tracker, lastResult)
    ensures var x := gens[n];
            Shows(gens[n := MainGen(x, cancelled)],
                  if x.pc.Acquired? then Some(n) else tracker,
                  if x.pc.Acquired? then None else if x.pc.Closed? then x.outcome else lastResult)
  {
    var x := gens[n];
    if !x.pc.Acquired? {
      NewestShows(gens, n, tracker, lastResult);
      MainStores(x, cancelled, lastResult);
    }
    NewestShows(gens[n := MainGen(x, cancelled)], n,
                if x.pc.Acquired? then Some(n) else tracker,
                if x.pc.Acquired? then None else if x.pc.Closed? then x.outcome else lastResult);
  }

  lemma MainFields(s: Agent, g: nat, now: nat)
    requires g < |s.gens|
    ensures var s' := Apply(s, Main(g), now);
            var x := s.gens[g];
            && s'.gens == s.gens[g := MainGen(x, s.mgr.done[g])]
            && s'.tracker == (if x.pc.Acquired? then Some(g) else s.tracker)
            && s'.lastResult == if x.pc.Acquired? then None else if x.pc.Closed? then x.outcome else s.lastResult
  {
  }

  lemma MainShows(s: Agent, s': Agent, now: nat)
    requires Known(s) && |s.gens| > 0 && s' == Apply(s, Main(|s.gens| - 1), now)
    ensures Shows(s'.gens, s'.tracker, s'.lastResult)
  {
    var n := |s.gens| - 1;
    assert Judged(s.gens[n]);
    MainFields(s, n, now);
    NextShows(s.gens, n, s.tracker, s.lastResult, s.mgr.done[n]);
  }

  lemma AcquireShows(s: Agent, image: string, target: string, now: nat)
    requires Known(s) && NoOverlap(s, Acquire(image, target))
    ensures var s' := Apply(s, Acquire(image, target), now); Shows(s'.gens, s'.tracker, s'.lastResult)
  {
    if s.mgr.Free() {
      AddedShows(s.gens, NewGen(image, target), s.tracker, s.lastResult);
    }
  }

  lemma AddedShows(gens: seq<Gen>, x: Gen, tracker: Option<nat>, lastResult: Option<Outcome>)
    requires (forall g :: 0 <= g < |gens| ==> gens[g].Quiet()) && x.pc.Acquired? && Shows(gens, tracker, lastResult)
    ensures Shows(gens + [x], tracker, lastResult)
  {
    var n := |gens|;
    WhichPublished(gens + [x], n);
    if n > 0 {
      NewestShows(gens, n - 1, tracker, lastResult);
    }
  }

  lemma QuietMain(s: Agent, g: nat, now: nat)
    requires Known(s) && g + 1 < |s.gens|
    ensures var s' := Apply(s, Main(g), now); s'.gens == s.gens && s'.tracker == s.tracker && s'.lastResult == s.lastResult
  {
    assert s.gens[g].Quiet();
  }

  /** Another step changes no generation's publication, and stores no result. */
  lemma OtherStepShows(s: Agent, step: Step, now: nat)
    requires Known(s) && !step.Main? && !step.Acquire? && |s.gens| > 0
    ensures var s' := Apply(s, step, now); Shows(s'.gens, s'.tracker, s'.lastResult)
  {
    var n := |s.gens| - 1;
    var s' := Apply(s, step, now);
    forall g | 0 <= g < n
      ensures s'.gens[g] == s.gens[g] && s'.gens[g].Quiet()
    {
      QuietStays(s, step, now, g);
    }
    WhichPublished(s.gens, n);
    WhichPublished(s'.gens, n);
    OtherStepKeeps(s, step, now, n);
  }

  lemma OtherStepKeeps(s: Agent, step: Step, now: nat, g: nat)
    requires !step.Main? && !step.Acquire? && g < |s.gens|
    ensures var s' := Apply(s, step, now);
            && s'.tracker == s.tracker && s'.lastResult == s.lastResult && |s'.gens| == |s.gens|
            && (s'.gens[g].pc == s.gens[g].pc || (s.gens[g].pc.Running? && s'.gens[g].pc.Returned?))
            && (ResultStored(s.gens[g]) ==> s'.gens[g].outcome == s.gens[g].outcome)
  {
  }

  lemma AnyMainShows(s: Agent, g: nat, s': Agent, now: nat)
    requires Known(s) && |s.gens| > 0 && s' == Apply(s, Main(g), now)
    ensures Shows(s'.gens, s'.tracker, s'.lastResult)
  {
    if g + 1 == |s.gens| {
      MainShows(s, s', now);
    } else if g < |s.gens| {
      QuietMain(s, g, now);
    } else {
      assert s' == s;
    }
  }

  lemma StepKeepsShown(s: Agent, step: Step, s': Agent, now: nat)
    requires Known(s) && NoOverlap(s, step) && s' == Apply(s, step, now)
    ensures Shows(s'.gens, s'.tracker, s'.lastResult)
  {
    if step.Acquire? {
      AcquireShows(s, step.image, step.target, now);
    } else if |s.gens| == 0 {
      NothingYet(s, step, now);
    } else if step.Main? {
      AnyMainShows(s, step.g, s', now);
    } else {
      OtherStepShows(s, step, now);
    }
  }

  lemma StepKeepsKnown(s: Agent, step: Step, now: nat)
    requires Known(s) && NoOverlap(s, step)
    ensures Known(Apply(s, step, now))
  {
    StepKeepsEarlierQuiet(s, step, now);
    StepKeepsAllJudged(s, step, now, 0);
    StepKeepsShown(s, step, Apply(s, step, now), now);
  }

  lemma NothingYet(s: Agent, step: Step, now: nat)
    requires |s.gens| == 0 && !step.Acquire?
    ensures var s' := Apply(s, step, now); s'.gens == s.gens && s'.tracker == s.tracker && s'.lastResult == s.lastResult
  {
  }

  lemma {:induction false} KnownRun(steps: seq<Step>)
    requires Along(Apply, INIT, steps, NoOverlap)
    ensures Known(Exec(INIT, steps))
  {
    assert Inductive<Agent, Step>(Apply, NoOverlap, Known) by {
      forall s: Agent, step: Step, now: nat | Known(s) && NoOverlap(s, step)
        ensures Known(Apply(s, step, now))
      {
        StepKeepsKnown(s, step, now);
      }
    }
    RunKeeps<Agent, Step>(Apply, INIT, steps, NoOverlap, Known);
  }

  /** The report of a shutdown: cancelled, with what the newest published deployment has
      written at that moment, or 0 if there is none. */
  ghost predicate TellsBytes(r: Report, gens: seq<Gen>) {
    && r.End? && r.sender.None? && r.verdict == Cancelled && r.msg == "cancelled before reboot or poweroff"
    && (NonePublished(gens) ==> r.bytes == 0)
    && (forall g: nat :: NewestPublished(gens, g) ==> r.bytes == gens[g].written)
  }

  lemma {:induction false} ReportTells(s: Agent, i: nat, now: nat)
    requires Known(s) && i < |s.shutdowns| && s.shutdowns[i].Waited?
    ensures var s' := Apply(s, ShutdownReport(i), now);
            && s'.gens == s.gens && |s'.reports| == |s.reports| + 1 && s'.reports[..|s.reports|] == s.reports
            && TellsBytes(s'.reports[|s.reports|], s.gens)
  {
    if |s.gens| > 0 {
      var n := |s.gens| - 1;
      WhichPublished(s.gens, n);
      assert Judged(s.gens[n]) && Counted(s.gens[n]);
      if n > 0 {
        assert s.gens[n - 1].Quiet() && Judged(s.gens[n - 1]) && Counted(s.gens[n - 1]);
      }
    }
  }

  /** In every run without overlap, a shutdown's report carries exactly what the newest
      published deployment has written when it is sent, whether its Run has returned or not. */
  lemma {:induction false} ShutdownReportsBytesWritten(steps: seq<Step>, i: nat)
    requires Along(Apply, INIT, steps, NoOverlap)
    requires i < |Exec(INIT, steps).shutdowns| && Exec(INIT, steps).shutdowns[i].Waited?
    ensures var s := Exec(INIT, steps);
            var s' := Exec(INIT, steps + [ShutdownReport(i)]);
            && s'.gens == s.gens && |s'.reports| == |s.reports| + 1 && s'.reports[..|s.reports|] == s.reports
            && TellsBytes(s'.reports[|s.reports|], s.gens)
  {
    KnownRun(steps);
    RunAppend<Agent, Step>(Apply, INIT, steps, ShutdownReport(i));
    ReportTells(Exec(INIT, steps), i, |steps| + 1);
  }

  // ---- What the server keeps of it ----

  /** The last end delivered is what the node's last record says. */
  lemma EndTells(db: NodeHistory.Database, uuid: string, r: Report, time: int, position: nat)
    requires uuid in db && db[uuid].deploys != [] && r.End?
    ensures var after := NodeHistory.Handle(db, NodeHistory.At(EventOf(uuid, r), time), position);
            && uuid in after && |after[uuid].deploys| == |db[uuid].deploys|
            && var last := after[uuid].deploys[|after[uuid].deploys| - 1];
               && last.bytesWritten == r.bytes && last.error == r.msg && last.endedAt == Some(time)
               && (r.verdict == Cancelled ==> last.result == "cancelled")
               && after[uuid].info.lastError == r.msg && after[uuid].lastSeen == time
  {
  }

  /** Delivered last to a node with a record, a shutdown's report leaves there "cancelled",
      its message, and exactly the bytes written by the newest published deployment. */
  lemma {:induction false} RecordHoldsBytesWritten(
    reports: seq<Report>, gens: seq<Gen>, g: nat, db: NodeHistory.Database, uuid: string, clock: nat -> int)
    requires reports != [] && TellsBytes(reports[|reports| - 1], gens) && NewestPublished(gens, g)
    requires uuid in db && (db[uuid].deploys != [] || LastRecord.Started(reports))
    ensures var after := NodeHistory.After(db, Deliver(uuid, reports, clock));
            && uuid in after && after[uuid].deploys != []
            && var last := after[uuid].deploys[|after[uuid].deploys| - 1];
               && last.result == "cancelled" && last.bytesWritten == gens[g].written
               && last.error == "cancelled before reboot or poweroff" && last.endedAt == Some(clock(|reports| - 1))
  {
    var n := |reports| - 1;
    assert reports == reports[..n] + [reports[n]];
    if LastRecord.Started(reports) {
      var i :| 0 <= i < |reports| && reports[i].Start?;
      assert reports[..n][i].Start?;
    }
    LastRecord.DeliveredNode(db, uuid, reports[..n], clock);
    DeliverSnoc(db, uuid, reports[..n], reports[n], clock);
    EndTells(NodeHistory.After(db, Deliver(uuid, reports[..n], clock)), uuid, reports[n], clock(n), n + 1);
  }

  // ---- When a shutdown begins and waits ----

  /** A shutdown does something only if it finds a deployment in one of the six running
      states, and then waits exactly as long as one is, or until its deadline. */
  lemma ShutdownWaitsExactly(s: Agent, i: nat, timedOut: bool, now: nat)
    ensures var running := s.mgr.current.Some? &&
                           s.mgr.current.value.state in {Validating, Preparing, Downloading, Writing, Syncing, Verifying};
            && Apply(s, ShutdownBegin, now) == (if running then s.(shutdowns := s.shutdowns + [Checked]) else s)
            && (i < |s.shutdowns| && s.shutdowns[i].CancelSent? ==>
                  Apply(s, ShutdownWait(i, timedOut), now) ==
                  if running && !timedOut then s else s.(shutdowns := s.shutdowns[i := Waited]))
  {
  }
}
