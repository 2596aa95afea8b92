/** End to end: the verdict of a deployment as the agent's state shows it, as DeployEnd
    reports it, and as the server's history keeps it. */
module Verdict {
  import opened Wrappers
  import opened DeployState
  import opened DeployProtocol
  import opened Runs
  import opened StageSync
  import NodeStore
  import NodeHistory

  /** The sync goroutine has returned when Finish is called. */
  predicate SyncGoneByFinish(s: Agent, step: Step) {
    step.Main? && step.g < |s.gens| && (s.gens[step.g].pc.Marked? || s.gens[step.g].pc.Rebroadcast?) ==>
      s.gens[step.g].sync.Gone?
  }

  /** No overlap, no late SetState, no report from a shutdown. Cancel requests, shutdown's
      included, may come at any time. */
  predicate Orderly(s: Agent, step: Step) {
    NoOverlap(s, step) && SyncGoneByFinish(s, step) && !step.ShutdownReport?
  }

  // ---- The verdict of one generation ----

  /** Completed if Run returned nil; otherwise cancelled if the context was cancelled at the
      error test, failed if not. */
  function VerdictOf(outcome: Outcome, sawCancelled: bool): State {
    if outcome.err.None? then Completed else if sawCancelled then Cancelled else State.Failed
  }

  predicate HasVerdict(x: Gen, v: State) {
    x.outcome.Some? && (x.outcome.value.err.Some? ==> x.saw.Some?) &&
    v == VerdictOf(x.outcome.value, x.saw.Some? && x.saw.value)
  }

  predicate Judged(x: Gen) {
    match x.pc
    case Failing(v) => HasVerdict(x, v) && x.outcome.value.err.Some?
    case Marked(v) => HasVerdict(x, v) && x.outcome.value.err.Some?
    case Ending(v) => HasVerdict(x, v)
    case Ended(v) => HasVerdict(x, v)
    case Acquired | Published | Prepared | Announced | Running => x.outcome.None?
    case _ => x.outcome.Some? && (!x.pc.Returned? && !x.pc.Closed? && !x.pc.Stored? ==> x.outcome.value.err.None?)
  }

  /** The byte count reported is what Run had written when it returned. */
  predicate Counted(x: Gen) {
    x.outcome.Some? ==> !x.BeforeReturn() && x.outcome.value.bytes == x.written
  }

  lemma MainKeepsJudged(x: Gen, cancelled: bool)
    requires Judged(x) && Counted(x)
    ensures Judged(MainGen(x, cancelled)) && Counted(MainGen(x, cancelled))
  {
  }

  lemma StepKeepsJudged(s: Agent, step: Step, now: nat, g: nat)
    requires g < |s.gens| && Judged(s.gens[g]) && Counted(s.gens[g])
    ensures Judged(Apply(s, step, now).gens[g]) && Counted(Apply(s, step, now).gens[g])
  {
    if step == Main(g) {
      MainKeepsJudged(s.gens[g], s.mgr.done[g]);
    }
  }

  // ---- The manager's final state ----

  /** The newest generation, once finished, has left its verdict in the manager. */
  ghost predicate Settled(s: Agent) {
    |s.gens| > 0 ==>
      var x := s.gens[|s.gens| - 1];
      x.pc.Ending? || x.pc.Ended? ==>
        && x.sync.Gone?
        && x.pc.verdict.IsTerminal()
        && s.mgr.current.Some?
        && s.mgr.current.value.state == x.pc.verdict
        && s.mgr.current.value.error == x.Message(x.pc.verdict)
  }

  lemma MainSettles(s: Agent, now: nat)
    requires |s.gens| > 0 && Settled(s) && Judged(s.gens[|s.gens| - 1])
    requires Orderly(s, Main(|s.gens| - 1))
    ensures Settled(Apply(s, Main(|s.gens| - 1), now))
  {
    var x := s.gens[|s.gens| - 1];
    match x.pc
    case Marked(v) =>
    case Rebroadcast =>
    case Ending(v) =>
    case Ended(v) =>
    case _ => assert !MainGen(x, s.mgr.done[|s.gens| - 1]).pc.Ending? && !MainGen(x, s.mgr.done[|s.gens| - 1]).pc.Ended?;
  }

  lemma StepSettles(s: Agent, step: Step, now: nat)
    requires EarlierQuiet(s) && Settled(s) && (|s.gens| > 0 ==> Judged(s.gens[|s.gens| - 1]))
    requires Orderly(s, step)
    ensures Settled(Apply(s, step, now))
  {
    if |s.gens| > 0 && step == Main(|s.gens| - 1) {
      MainSettles(s, now);
    }
  }

  // ---- The reports ----

  predicate HasAnnounced(x: Gen) {
    !(x.pc.Acquired? || x.pc.Published? || x.pc.Prepared?)
  }

  /** What one generation has reported. */
  function ReportsOf(g: nat, x: Gen): seq<Report> {
    (if HasAnnounced(x) then [Start(g, x.image, x.target)] else []) +
    (if x.pc.Ended? then [End(Some(g), x.pc.verdict, x.Bytes(), x.Message(x.pc.verdict))] else [])
  }

  /** What the generations from `lo` up to `hi` have reported. */
  function AllReports(gens: seq<Gen>, lo: nat, hi: nat): seq<Report>
    requires lo <= hi <= |gens|
    decreases hi
  {
    if lo == hi then [] else AllReports(gens, lo, hi - 1) + ReportsOf(hi - 1, gens[hi - 1])
  }

  lemma {:induction false} AllReportsFrame(a: seq<Gen>, b: seq<Gen>, lo: nat, hi: nat)
    requires lo <= hi <= |a| && hi <= |b| && forall g :: lo <= g < hi ==> a[g] == b[g]
    ensures AllReports(a, lo, hi) == AllReports(b, lo, hi)
    decreases hi
  {
    if lo < hi {
      AllReportsFrame(a, b, lo, hi - 1);
    }
  }

  lemma MainReportsOf(g: nat, x: Gen, cancelled: bool)
    ensures ReportsOf(g, MainGen(x, cancelled)) == ReportsOf(g, x) + MainReports(g, x)
  {
  }

  /** What a step reports. */
  function NewReports(s: Agent, step: Step): seq<Report> {
    if step.Main? && step.g < |s.gens| then MainReports(step.g, s.gens[step.g]) else []
  }

  lemma StepReports(s: Agent, step: Step, now: nat)
    requires !step.ShutdownReport?
    ensures Apply(s, step, now).reports == s.reports + NewReports(s, step)
  {
  }

  lemma OthersReportNothing(s: Agent, step: Step, now: nat, g: nat)
    requires g < |s.gens| && step != Main(g)
    ensures ReportsOf(g, Apply(s, step, now).gens[g]) == ReportsOf(g, s.gens[g])
  {
    var x, x' := s.gens[g], Apply(s, step, now).gens[g];
    assert x'.image == x.image && x'.target == x.target;
    assert (x'.pc == x.pc && x'.outcome == x.outcome) || (x.pc.Running? && x'.pc.Returned?);
    SameReports(g, x, x');
  }

  lemma SameReports(g: nat, x: Gen, x': Gen)
    requires x'.image == x.image && x'.target == x.target
    requires (x'.pc == x.pc && x'.outcome == x.outcome) || (x.pc.Running? && x'.pc.Returned?)
    ensures ReportsOf(g, x') == ReportsOf(g, x)
  {
  }

  /** A step adds to the reports what it adds to the newest generation's. */
  lemma NewestReportsOf(s: Agent, step: Step, now: nat)
    requires EarlierQuiet(s) && |s.gens| > 0
    ensures var n := |s.gens| - 1;
            ReportsOf(n, Apply(s, step, now).gens[n]) == ReportsOf(n, s.gens[n]) + NewReports(s, step)
  {
    var n := |s.gens| - 1;
    if step == Main(n) {
      MainReportsOf(n, s.gens[n], s.mgr.done[n]);
    } else {
      OthersReportNothing(s, step, now, n);
      assert NewReports(s, step) == [];
    }
  }

  // ---- The invariant of an orderly run ----

  ghost predicate ReportsMatch(s: Agent, base: nat, sent: seq<Report>) {
    base <= |s.gens| && s.reports == sent + AllReports(s.gens, base, |s.gens|)
  }

  ghost predicate AllJudged(s: Agent, base: nat) {
    forall g :: base <= g < |s.gens| ==> Judged(s.gens[g]) && Counted(s.gens[g])
  }

  /** Nothing is claimed about the generations before `base`, which have all returned. */
  ghost predicate OrderlyState(s: Agent, base: nat, sent: seq<Report>) {
    && EarlierQuiet(s)
    && (|s.gens| == base ==> AllQuiet(s))
    && (|s.gens| > base ==> Settled(s))
    && AllJudged(s, base)
    && ReportsMatch(s, base, sent)
  }

  lemma QuietReportsNothing(s: Agent, step: Step, now: nat)
    requires AllQuiet(s) && !step.ShutdownReport?
    ensures Apply(s, step, now).reports == s.reports
  {
  }

  lemma EarlierUnchanged(s: Agent, step: Step, now: nat)
    requires EarlierQuiet(s)
    ensures forall g :: 0 <= g < |s.gens| - 1 ==> Apply(s, step, now).gens[g] == s.gens[g]
  {
    forall g | 0 <= g < |s.gens| - 1
      ensures Apply(s, step, now).gens[g] == s.gens[g]
    {
      QuietStays(s, step, now, g);
    }
  }

  /** The newest generation moves. */
  lemma NewestReports(s: Agent, step: Step, s': Agent, now: nat, base: nat, sent: seq<Report>)
    requires EarlierQuiet(s) && Orderly(s, step) && s' == Apply(s, step, now)
    requires |s'.gens| == |s.gens| > base && ReportsMatch(s, base, sent)
    ensures ReportsMatch(s', base, sent)
  {
    EarlierUnchanged(s, step, now);
    StepReports(s, step, now);
    NewestReportsOf(s, step, now);
    GrownMatch(s, s', base, sent, NewReports(s, step));
  }

  lemma {:induction false} GrownMatch(s: Agent, s': Agent, base: nat, sent: seq<Report>, more: seq<Report>)
    requires |s'.gens| == |s.gens| > base && ReportsMatch(s, base, sent) && s'.reports == s.reports + more
    requires forall g :: 0 <= g < |s.gens| - 1 ==> s'.gens[g] == s.gens[g]
    requires ReportsOf(|s.gens| - 1, s'.gens[|s.gens| - 1]) == ReportsOf(|s.gens| - 1, s.gens[|s.gens| - 1]) + more
    ensures ReportsMatch(s', base, sent)
  {
    AllReportsGrow(s.gens, s'.gens, base, |s.gens|, more);
    ConcatAssociative(sent, AllReports(s.gens, base, |s.gens|), more);
  }

  lemma {:induction false} AllReportsGrow(a: seq<Gen>, b: seq<Gen>, lo: nat, n: nat, more: seq<Report>)
    requires lo < n <= |a| && n <= |b| && forall g :: lo <= g < n - 1 ==> a[g] == b[g]
    requires ReportsOf(n - 1, b[n - 1]) == ReportsOf(n - 1, a[n - 1]) + more
    ensures AllReports(b, lo, n) == AllReports(a, lo, n) + more
  {
    AllReportsFrame(a, b, lo, n - 1);
    ConcatAssociative(AllReports(a, lo, n - 1), ReportsOf(n - 1, a[n - 1]), more);
  }

  lemma ConcatAssociative<T>(a: seq<T>, b: seq<T>, c: seq<T>)
    ensures a + (b + c) == (a + b) + c
  {
  }

  /** A generation is added; it has reported nothing. */
  lemma AddedReports(s: Agent, image: string, target: string, now: nat, base: nat, sent: seq<Report>)
    requires s.mgr.Free() && ReportsMatch(s, base, sent)
    ensures ReportsMatch(Apply(s, Acquire(image, target), now), base, sent)
  {
    var s' := Apply(s, Acquire(image, target), now);
    AllReportsFrame(s'.gens, s.gens, base, |s.gens|);
    assert AllReports(s'.gens, base, |s'.gens|) == AllReports(s.gens, base, |s.gens|) + [];
  }

  lemma StepKeepsReported(s: Agent, step: Step, now: nat, base: nat, sent: seq<Report>)
    requires OrderlyState(s, base, sent) && Orderly(s, step)
    ensures ReportsMatch(Apply(s, step, now), base, sent)
  {
    if step.Acquire? {
      if s.mgr.Free() {
        AddedReports(s, step.image, step.target, now, base, sent);
      }
    } else if |s.gens| > base {
      NewestReports(s, step, Apply(s, step, now), now, base, sent);
    } else {
      QuietReportsNothing(s, step, now);
    }
  }

  lemma StepKeepsAllJudged(s: Agent, step: Step, now: nat, base: nat)
    requires AllJudged(s, base)
    ensures AllJudged(Apply(s, step, now), base)
  {
    var s' := Apply(s, step, now);
    forall g | base <= g < |s'.gens|
      ensures Judged(s'.gens[g]) && Counted(s'.gens[g])
    {
      if g < |s.gens| {
        StepKeepsJudged(s, step, now, g);
      }
    }
  }

  lemma StepKeepsAllQuiet(s: Agent, step: Step, now: nat)
    requires AllQuiet(s) && |Apply(s, step, now).gens| == |s.gens|
    ensures AllQuiet(Apply(s, step, now))
  {
    forall g | 0 <= g < |s.gens|
      ensures Apply(s, step, now).gens[g].Quiet()
    {
      QuietStays(s, step, now, g);
    }
  }

  lemma StepKeepsOrderly(s: Agent, step: Step, now: nat, base: nat, sent: seq<Report>)
    requires OrderlyState(s, base, sent) && Orderly(s, step)
    ensures OrderlyState(Apply(s, step, now), base, sent)
  {
    StepKeepsReported(s, step, now, base, sent);
    StepKeepsEarlierQuiet(s, step, now);
    StepKeepsAllJudged(s, step, now, base);
    GensGrow(s, step, now);
    if |s.gens| > base {
      StepSettles(s, step, now);
    } else if |Apply(s, step, now).gens| == |s.gens| {
      StepKeepsAllQuiet(s, step, now);
    }
  }

  lemma {:induction false} OrderlyRun(s: Agent, steps: seq<Step>)
    requires AllQuiet(s) && Along(Apply, s, steps, Orderly)
    ensures OrderlyState(Exec(s, steps), |s.gens|, s.reports)
  {
    var inv := (x: Agent) => OrderlyState(x, |s.gens|, s.reports);
    assert Inductive(Apply, Orderly, inv) by {
      forall x: Agent, step: Step, now: nat | inv(x) && Orderly(x, step)
        ensures inv(Apply(x, step, now))
      {
        StepKeepsOrderly(x, step, now, |s.gens|, s.reports);
      }
    }
    RunKeeps<Agent, Step>(Apply, s, steps, Orderly, inv);
  }

  /** Completed exactly when Run returned nil; otherwise cancelled or failed by what the
      error test saw. The byte count is what Run had written. */
  predicate VerdictFits(x: Gen, v: State) {
    && x.outcome.Some? && x.outcome.value.bytes == x.written
    && (v == Completed <==> x.outcome.value.err.None?)
    && (v == Cancelled <==> x.outcome.value.err.Some? && x.saw == Some(true))
    && (v == State.Failed <==> x.outcome.value.err.Some? && x.saw == Some(false))
  }

  predicate ManagerShows(m: Mgr, v: State, msg: string) {
    m.current.Some? && m.current.value.state == v && m.current.value.error == msg
  }

  lemma OrderlyVerdict(r: Agent, base: nat, sent: seq<Report>, g: nat)
    requires OrderlyState(r, base, sent) && base <= g < |r.gens| && r.gens[g].pc.Ended?
    ensures VerdictFits(r.gens[g], r.gens[g].pc.verdict)
    ensures g == |r.gens| - 1 ==> ManagerShows(r.mgr, r.gens[g].pc.verdict, r.gens[g].Message(r.gens[g].pc.verdict))
  {
    assert Judged(r.gens[g]) && Counted(r.gens[g]);
  }

  /** From any state whose goroutines have all returned, after any orderly schedule: a
      finished generation's verdict fits its Run (completed even if a Cancel came late); the
      newest one's verdict and message are the manager's; and the reports sent are, in
      order, one start and, once finished, one end with that verdict and with the bytes Run
      wrote, for each generation. */
  lemma {:induction false} EndToEndVerdict(s: Agent, steps: seq<Step>, g: nat)
    requires AllQuiet(s) && Along(Apply, s, steps, Orderly)
    requires |s.gens| <= g < |Exec(s, steps).gens| && Exec(s, steps).gens[g].pc.Ended?
    ensures var r := Exec(s, steps);
            var v := r.gens[g].pc.verdict;
            && VerdictFits(r.gens[g], v)
            && (g == |r.gens| - 1 ==> ManagerShows(r.mgr, v, r.gens[g].Message(v)))
            && r.reports == s.reports + AllReports(r.gens, |s.gens|, |r.gens|)
  {
    OrderlyRun(s, steps);
    OrderlyVerdict(Exec(s, steps), |s.gens|, s.reports, g);
  }

  /** Until its error test a generation's context is uncancelled. */
  ghost predicate Uncancelled(s: Agent, base: nat) {
    && EarlierQuiet(s) && base <= |s.gens|
    && (|s.gens| == base ==> AllQuiet(s))
    && forall g :: base <= g < |s.gens| ==> StaysUncancelled(s, g)
  }

  predicate OrderlyUncancelled(s: Agent, step: Step) {
    Orderly(s, step) && !step.Cancel? && !step.ShutdownCancel?
  }

  lemma StepKeepsUncancelled(s: Agent, step: Step, now: nat, base: nat)
    requires Uncancelled(s, base) && OrderlyUncancelled(s, step)
    ensures Uncancelled(Apply(s, step, now), base)
  {
    var s' := Apply(s, step, now);
    StepKeepsEarlierQuiet(s, step, now);
    forall g | 0 <= g < |s.gens|
      ensures s.gens[g].Quiet() ==> s'.gens[g] == s.gens[g]
      ensures base <= g ==> StaysUncancelled(s', g)
    {
      if s.gens[g].Quiet() {
        QuietStays(s, step, now, g);
        assert base <= g ==> StaysUncancelled(s, g);
      } else if base <= g {
        assert g == |s.gens| - 1;
        NewestUncancelled(s, step, now, base);
      }
    }
  }

  predicate StaysUncancelled(s: Agent, g: nat)
    requires g < |s.gens|
  {
    && s.gens[g].saw != Some(true)
    && (s.gens[g].BeforeReturn() || s.gens[g].pc.Returned? || s.gens[g].pc.Closed? || s.gens[g].pc.Stored? ==> !s.mgr.done[g])
  }

  lemma NewestUncancelled(s: Agent, step: Step, now: nat, base: nat)
    requires Uncancelled(s, base) && OrderlyUncancelled(s, step) && |s.gens| > base
    ensures StaysUncancelled(Apply(s, step, now), |s.gens| - 1)
  {
    assert StaysUncancelled(s, |s.gens| - 1);
  }

  /** A deployment of an orderly run ends cancelled only if somebody asked. */
  lemma CancelledOnlyOnRequest(s: Agent, steps: seq<Step>, g: nat)
    requires AllQuiet(s) && Along(Apply, s, steps, OrderlyUncancelled)
    requires |s.gens| <= g < |Exec(s, steps).gens|
    ensures Exec(s, steps).gens[g].saw != Some(true)
  {
    UncancelledRun(s, steps);
    assert StaysUncancelled(Exec(s, steps), g);
  }

  lemma UncancelledRun(s: Agent, steps: seq<Step>)
    requires AllQuiet(s) && Along(Apply, s, steps, OrderlyUncancelled)
    ensures Uncancelled(Exec(s, steps), |s.gens|)
  {
    var inv := (x: Agent) => Uncancelled(x, |s.gens|);
    assert Inductive(Apply, OrderlyUncancelled, inv) by {
      forall x: Agent, step: Step, now: nat | inv(x) && OrderlyUncancelled(x, step)
        ensures inv(Apply(x, step, now))
      {
        StepKeepsUncancelled(x, step, now, |s.gens|);
      }
    }
    RunKeeps<Agent, Step>(Apply, s, steps, OrderlyUncancelled, inv);
  }

  // ---- The server's history ----

  function ResultName(v: State): string {
    match v
    case Completed => NodeStore.COMPLETED
    case Cancelled => NodeStore.CANCELLED
    case Failed => NodeStore.FAILED
    case _ => ""
  }

  function EventOf(uuid: string, r: Report): NodeHistory.Event {
    match r
    case Start(_, image, target) => NodeHistory.DeployStart(uuid, image, target)
    case End(_, v, bytes, msg) => NodeHistory.DeployEnd(uuid, ResultName(v), bytes, msg)
  }

  /** The reports delivered in order, at times the server's clock gives. */
  function Deliver(uuid: string, reports: seq<Report>, clock: nat -> int): seq<NodeHistory.Timed> {
    seq(|reports|, i requires 0 <= i < |reports| => NodeHistory.At(EventOf(uuid, reports[i]), clock(i)))
  }

  /** A record without its times. */
  datatype Shape = Shape(imageID: string, targetDisk: string, result: string, bytes: int, error: string)

  function ShapeOf(d: NodeStore.Deploy): Shape {
    Shape(d.imageID, d.targetDisk, d.result, d.bytesWritten, d.error)
  }

  function Shapes(ds: seq<NodeStore.Deploy>): seq<Shape> {
    seq(|ds|, i requires 0 <= i < |ds| => ShapeOf(ds[i]))
  }

  /** The record a generation should have: none before it is announced, then running, then
      its verdict with the bytes it wrote. */
  function RecordOf(x: Gen): seq<Shape> {
    if !HasAnnounced(x) then []
    else if x.pc.Ended? then [Shape(x.image, x.target, ResultName(x.pc.verdict), x.Bytes(), x.Message(x.pc.verdict))]
    else [Shape(x.image, x.target, NodeStore.RUNNING, 0, "")]
  }

  function Records(gens: seq<Gen>, lo: nat, hi: nat): seq<Shape>
    requires lo <= hi <= |gens|
    decreases hi
  {
    if lo == hi then [] else Records(gens, lo, hi - 1) + RecordOf(gens[hi - 1])
  }

  function History(db: NodeHistory.Database, uuid: string): seq<Shape>
    requires uuid in db
  {
    Shapes(db[uuid].deploys)
  }

  lemma DeliverStart(db: NodeHistory.Database, uuid: string, image: string, target: string, g: nat, time: int, position: nat)
    requires uuid in db
    ensures var after := NodeHistory.Handle(db, NodeHistory.At(EventOf(uuid, Start(g, image, target)), time), position);
            uuid in after && History(after, uuid) == History(db, uuid) + [Shape(image, target, NodeStore.RUNNING, 0, "")]
  {
  }

  lemma DeliverEnd(db: NodeHistory.Database, uuid: string, r: Report, past: seq<Shape>, open: Shape, time: int, position: nat)
    requires uuid in db && r.End? && History(db, uuid) == past + [open]
    ensures var after := NodeHistory.Handle(db, NodeHistory.At(EventOf(uuid, r), time), position);
            && uuid in after
            && History(after, uuid) == past + [Shape(open.imageID, open.targetDisk, ResultName(r.verdict), r.bytes, r.msg)]
  {
    var ds := db[uuid].deploys;
    assert |ds| == |past| + 1 && ShapeOf(ds[|past|]) == History(db, uuid)[|past|] == open;
    forall i | 0 <= i < |past|
      ensures ShapeOf(ds[i]) == past[i]
    {
      assert ShapeOf(ds[i]) == History(db, uuid)[i];
    }
  }

  lemma DeliverSnoc(db: NodeHistory.Database, uuid: string, reports: seq<Report>, r: Report, clock: nat -> int)
    ensures NodeHistory.After(db, Deliver(uuid, reports + [r], clock)) ==
            NodeHistory.Handle(NodeHistory.After(db, Deliver(uuid, reports, clock)),
                               NodeHistory.At(EventOf(uuid, r), clock(|reports|)), |reports| + 1)
  {
    assert Deliver(uuid, reports + [r], clock) ==
           Deliver(uuid, reports, clock) + [NodeHistory.At(EventOf(uuid, r), clock(|reports|))];
    RunAppend<NodeHistory.Database, NodeHistory.Timed>(
      NodeHistory.Handle, db, Deliver(uuid, reports, clock), NodeHistory.At(EventOf(uuid, r), clock(|reports|)));
  }

  /** Delivered to `db`, the reports make the node's history `told`. */
  ghost predicate Tells(db: NodeHistory.Database, uuid: string, reports: seq<Report>, clock: nat -> int, told: seq<Shape>) {
    var after := NodeHistory.After(db, Deliver(uuid, reports, clock));
    uuid in after && History(after, uuid) == told
  }

  lemma {:induction false} TellStart(
    db: NodeHistory.Database, uuid: string, past: seq<Report>, told: seq<Shape>, g: nat, x: Gen, clock: nat -> int)
    requires Tells(db, uuid, past, clock, told)
    ensures Tells(db, uuid, past + [Start(g, x.image, x.target)], clock,
                  told + [Shape(x.image, x.target, NodeStore.RUNNING, 0, "")])
  {
    DeliverSnoc(db, uuid, past, Start(g, x.image, x.target), clock);
    DeliverStart(NodeHistory.After(db, Deliver(uuid, past, clock)), uuid, x.image, x.target, g, clock(|past|), |past| + 1);
  }

  lemma {:induction false} TellEnd(
    db: NodeHistory.Database, uuid: string, past: seq<Report>, told: seq<Shape>, open: Shape, end: Report, clock: nat -> int)
    requires Tells(db, uuid, past, clock, told + [open]) && end.End?
    ensures Tells(db, uuid, past + [end], clock,
                  told + [Shape(open.imageID, open.targetDisk, ResultName(end.verdict), end.bytes, end.msg)])
  {
    DeliverSnoc(db, uuid, past, end, clock);
    DeliverEnd(NodeHistory.After(db, Deliver(uuid, past, clock)), uuid, end, told, open, clock(|past|), |past| + 1);
  }

  /** One generation's reports turn its predecessors' history into one with its record. */
  lemma {:induction false} DeliverGeneration(
    db: NodeHistory.Database, uuid: string, past: seq<Report>, told: seq<Shape>, g: nat, x: Gen, clock: nat -> int)
    requires Tells(db, uuid, past, clock, told)
    ensures Tells(db, uuid, past + ReportsOf(g, x), clock, told + RecordOf(x))
  {
    if !HasAnnounced(x) {
      assert past + ReportsOf(g, x) == past;
      assert told + RecordOf(x) == told;
    } else {
      var start := Start(g, x.image, x.target);
      TellStart(db, uuid, past, told, g, x, clock);
      if x.pc.Ended? {
        var end := End(Some(g), x.pc.verdict, x.Bytes(), x.Message(x.pc.verdict));
        TellEnd(db, uuid, past + [start], told, Shape(x.image, x.target, NodeStore.RUNNING, 0, ""), end, clock);
        assert past + [start] + [end] == past + ReportsOf(g, x);
      } else {
        assert past + ReportsOf(g, x) == past + [start];
      }
    }
  }

  /** Induction over generations: what holds of no reports and no records, and is kept when
      one generation's are added to both, holds of all. */
  lemma {:induction false} FoldGenerations(
    holds: (seq<Report>, seq<Shape>) -> bool, gens: seq<Gen>, lo: nat, hi: nat, told: seq<Shape>)
    requires lo <= hi <= |gens| && holds([], told)
    requires forall past, sofar, g, x {:trigger holds(past + ReportsOf(g, x), sofar + RecordOf(x))} ::
               holds(past, sofar) ==> holds(past + ReportsOf(g, x), sofar + RecordOf(x))
    ensures holds(AllReports(gens, lo, hi), told + Records(gens, lo, hi))
    decreases hi
  {
    if lo == hi {
      assert told + [] == told;
    } else {
      FoldGenerations(holds, gens, lo, hi - 1, told);
      assert holds(AllReports(gens, lo, hi - 1) + ReportsOf(hi - 1, gens[hi - 1]),
                   told + Records(gens, lo, hi - 1) + RecordOf(gens[hi - 1]));
      ConcatAssociative(told, Records(gens, lo, hi - 1), RecordOf(gens[hi - 1]));
    }
  }

  lemma {:induction false} DeliveredHistory(
    db: NodeHistory.Database, uuid: string, gens: seq<Gen>, lo: nat, hi: nat, clock: nat -> int)
    requires uuid in db && lo <= hi <= |gens|
    ensures Tells(db, uuid, AllReports(gens, lo, hi), clock, History(db, uuid) + Records(gens, lo, hi))
  {
    ghost var holds := (past: seq<Report>, told: seq<Shape>) => Tells(db, uuid, past, clock, told);
    assert holds([], History(db, uuid)) by {
      assert Deliver(uuid, [], clock) == [];
    }
    forall past, told, g, x | holds(past, told)
      ensures holds(past + ReportsOf(g, x), told + RecordOf(x))
    {
      DeliverGeneration(db, uuid, past, told, g, x, clock);
    }
    FoldGenerations(holds, gens, lo, hi, History(db, uuid));
  }

  /** The same seen from a state an orderly run has reached. */
  lemma {:induction false} StateTells(
    r: Agent, base: nat, sent: seq<Report>, db: NodeHistory.Database, uuid: string, clock: nat -> int)
    requires OrderlyState(r, base, sent) && uuid in db
    ensures |sent| <= |r.reports| && base <= |r.gens|
    ensures Tells(db, uuid, r.reports[|sent|..], clock, History(db, uuid) + Records(r.gens, base, |r.gens|))
  {
    assert r.reports[|sent|..] == AllReports(r.gens, base, |r.gens|);
    DeliveredHistory(db, uuid, r.gens, base, |r.gens|, clock);
  }

  /** If the reports of an orderly run reach the server in order and the node is registered,
      its history afterwards is its history before, followed by exactly one record for each
      announced generation, in order, with that generation's image, disk, verdict, byte count
      and message ("running" while unfinished). */
  lemma {:induction false} HistoryTellsWhatHappened(
    s: Agent, steps: seq<Step>, db: NodeHistory.Database, uuid: string, clock: nat -> int)
    requires AllQuiet(s) && Along(Apply, s, steps, Orderly) && uuid in db
    ensures var r := Exec(s, steps);
            && |s.reports| <= |r.reports| && |s.gens| <= |r.gens|
            && Tells(db, uuid, r.reports[|s.reports|..], clock, History(db, uuid) + Records(r.gens, |s.gens|, |r.gens|))
  {
    OrderlyRun(s, steps);
    StateTells(Exec(s, steps), |s.gens|, s.reports, db, uuid, clock);
  }
}
