/** When the server's last record shows the agent's verdict: the exact condition, shutdown
    reports included. */
module LastRecord {
  import opened Wrappers
  import opened DeployState
  import opened DeployProtocol
  import opened Runs
  import opened StageSync
  import opened Verdict
  import Shutdown
  import NodeHistory

  /** A shutdown's report, or the end the given generation itself sent. */
  predicate OwnOrShutdown(r: Report, g: nat, v: State) {
    r.End? && if r.sender.Some? then r.sender == Some(g) && r.verdict == v else r.verdict == Cancelled
  }

  predicate Started(reports: seq<Report>) {
    exists i :: 0 <= i < |reports| && reports[i].Start?
  }

  predicate VerdictIsTerminal(x: Gen) {
    x.pc.Failing? || x.pc.Marked? || x.pc.Ending? || x.pc.Ended? ==> x.pc.verdict.IsTerminal()
  }

  /** What the newest generation `g` has left in the reports. */
  predicate LastReportFits(reports: seq<Report>, g: nat, x: Gen) {
    && VerdictIsTerminal(x)
    && (HasAnnounced(x) ==> Started(reports))
    && (x.pc.Ended? ==> reports != [] && OwnOrShutdown(reports[|reports| - 1], g, x.pc.verdict))
  }

  ghost predicate LastReportKnown(s: Agent) {
    EarlierQuiet(s) && (|s.gens| > 0 ==> LastReportFits(s.reports, |s.gens| - 1, s.gens[|s.gens| - 1]))
  }

  lemma StartedStays(reports: seq<Report>, more: seq<Report>)
    requires Started(reports)
    ensures Started(reports + more)
  {
    var i :| 0 <= i < |reports| && reports[i].Start?;
    assert (reports + more)[i].Start?;
  }

  lemma MainReportsLast(reports: seq<Report>, g: nat, x: Gen, cancelled: bool)
    requires LastReportFits(reports, g, x)
    ensures LastReportFits(reports + MainReports(g, x), g, MainGen(x, cancelled))
  {
    if HasAnnounced(x) {
      StartedStays(reports, MainReports(g, x));
    }
    if x.pc.Prepared? {
      assert (reports + MainReports(g, x))[|reports|].Start?;
    }
  }

  lemma ShutdownReportsKeepFit(s: Agent, i: nat, now: nat, g: nat, x: Gen)
    requires LastReportFits(s.reports, g, x)
    ensures LastReportFits(Apply(s, ShutdownReport(i), now).reports, g, x)
  {
    if i < |s.shutdowns| && s.shutdowns[i].Waited? && HasAnnounced(x) {
      var bytes := if s.lastResult.Some? then s.lastResult.value.bytes
                   else if s.tracker.Some? then s.gens[s.tracker.value].written else 0;
      StartedStays(s.reports, [End(None, Cancelled, bytes, SHUTDOWN_MESSAGE)]);
    }
  }

  /** Steps that neither report nor belong to the newest generation's own goroutine. */
  lemma SilentStep(s: Agent, step: Step, now: nat, g: nat)
    requires g + 1 == |s.gens| == |Apply(s, step, now).gens| && EarlierQuiet(s)
    requires step != Main(g) && !step.ShutdownReport? && LastReportFits(s.reports, g, s.gens[g])
    ensures LastReportFits(Apply(s, step, now).reports, g, Apply(s, step, now).gens[g])
  {
    var x, x' := s.gens[g], Apply(s, step, now).gens[g];
    StepReports(s, step, now);
    assert Apply(s, step, now).reports == s.reports;
    assert x'.pc == x.pc || (x.pc.Running? && x'.pc.Returned?);
  }

  lemma StepKeepsLastReport(s: Agent, step: Step, now: nat)
    requires LastReportKnown(s) && NoOverlap(s, step)
    ensures LastReportKnown(Apply(s, step, now))
  {
    StepKeepsEarlierQuiet(s, step, now);
    var s' := Apply(s, step, now);
    if 0 < |s.gens| == |s'.gens| {
      var g := |s.gens| - 1;
      if step == Main(g) {
        MainReportsLast(s.reports, g, s.gens[g], s.mgr.done[g]);
      } else if step.ShutdownReport? {
        ShutdownReportsKeepFit(s, step.i, now, g, s.gens[g]);
      } else {
        SilentStep(s, step, now, g);
      }
    }
  }

  lemma {:induction false} LastReportRun(steps: seq<Step>)
    requires Along(Apply, INIT, steps, NoOverlap)
    ensures LastReportKnown(Exec(INIT, steps))
  {
    assert Inductive<Agent, Step>(Apply, NoOverlap, LastReportKnown) by {
      forall s: Agent, step: Step, now: nat | LastReportKnown(s) && NoOverlap(s, step)
        ensures LastReportKnown(Apply(s, step, now))
      {
        StepKeepsLastReport(s, step, now);
      }
    }
    RunKeeps<Agent, Step>(Apply, INIT, steps, NoOverlap, LastReportKnown);
  }

  /** A report leaves a registered node registered, and its history no shorter; a start
      makes it longer. */
  lemma ReportKeepsNode(db: NodeHistory.Database, uuid: string, r: Report, time: int, position: nat)
    requires uuid in db
    ensures var after := NodeHistory.Handle(db, NodeHistory.At(EventOf(uuid, r), time), position);
            uuid in after && |after[uuid].deploys| == |db[uuid].deploys| + if r.Start? then 1 else 0
  {
  }

  lemma {:induction false} DeliveredNode(db: NodeHistory.Database, uuid: string, reports: seq<Report>, clock: nat -> int)
    requires uuid in db
    ensures var after := NodeHistory.After(db, Deliver(uuid, reports, clock));
            uuid in after && (Started(reports) || db[uuid].deploys != [] ==> after[uuid].deploys != [])
    decreases |reports|
  {
    if reports != [] {
      var n := |reports| - 1;
      var before := NodeHistory.After(db, Deliver(uuid, reports[..n], clock));
      assert reports == reports[..n] + [reports[n]];
      DeliveredNode(db, uuid, reports[..n], clock);
      DeliverSnoc(db, uuid, reports[..n], reports[n], clock);
      ReportKeepsNode(before, uuid, reports[n], clock(n), n + 1);
      if Started(reports) && !reports[n].Start? {
        var i :| 0 <= i < |reports| && reports[i].Start?;
        assert reports[..n][i].Start?;
      }
    }
  }

  /** The reports' last end decides what a registered node's history says. */
  lemma {:induction false} LastEndDecides(db: NodeHistory.Database, uuid: string, reports: seq<Report>, clock: nat -> int)
    requires uuid in db && Started(reports) && reports[|reports| - 1].End?
    ensures var after := NodeHistory.After(db, Deliver(uuid, reports, clock));
            uuid in after && after[uuid].LastResult() == ResultName(reports[|reports| - 1].verdict)
  {
    var n := |reports| - 1;
    assert reports == reports[..n] + [reports[n]];
    DeliveredNode(db, uuid, reports, clock);
    DeliverSnoc(db, uuid, reports[..n], reports[n], clock);
    Shutdown.EndDecides(NodeHistory.After(db, Deliver(uuid, reports[..n], clock)), uuid, reports[n], clock(n), n + 1);
  }

  /** Whether the history of a registered node, all reports delivered, shows the verdict. */
  ghost predicate Shows(reports: seq<Report>, v: State, db: NodeHistory.Database, uuid: string, clock: nat -> int) {
    var after := NodeHistory.After(db, Deliver(uuid, reports, clock));
    uuid in after && after[uuid].LastResult() == ResultName(v)
  }

  lemma {:induction false} FittingReportDecides(
    reports: seq<Report>, g: nat, x: Gen, db: NodeHistory.Database, uuid: string, clock: nat -> int)
    requires LastReportFits(reports, g, x) && x.pc.Ended? && uuid in db
    ensures Shows(reports, x.pc.verdict, db, uuid, clock) <==>
              x.pc.verdict == Cancelled || reports[|reports| - 1].sender == Some(g)
  {
    LastEndDecides(db, uuid, reports, clock);
  }

  /** The exact condition, over every run without overlap, shutdowns included: once the newest
      deployment has ended and all reports are delivered, the registered node's last record
      says its verdict if and only if that verdict is "cancelled" or the report sent last is
      the deployment's own end. */
  lemma {:induction false} RecordShowsVerdictExactly(
    steps: seq<Step>, db: NodeHistory.Database, uuid: string, clock: nat -> int)
    requires Along(Apply, INIT, steps, NoOverlap) && uuid in db
    requires var s := Exec(INIT, steps); |s.gens| > 0 && s.gens[|s.gens| - 1].pc.Ended?
    ensures var s := Exec(INIT, steps);
            var v := s.gens[|s.gens| - 1].pc.verdict;
            && s.reports != [] && s.reports[|s.reports| - 1].End?
            && (Shows(s.reports, v, db, uuid, clock) <==>
                  v == Cancelled || s.reports[|s.reports| - 1].sender == Some(|s.gens| - 1))
  {
    LastReportRun(steps);
    var s := Exec(INIT, steps);
    var g := |s.gens| - 1;
    FittingReportDecides(s.reports, g, s.gens[g], db, uuid, clock);
  }
}
