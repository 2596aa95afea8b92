/** The agent's deployment protocol as a transition system: the HTTP handler that
    acquires the manager, the `runDeploy` goroutine, its stage-sync goroutine, cancel
    requests and shutdown requests (agent/internal/api/deploy.go, handlers.go).

    Every section that holds a mutex is one atomic step. Each goroutine has its own
    program counter, and there may be any number of generations. A step that is not
    enabled leaves the state alone, so every sequence of steps is a schedule. */
module DeployProtocol {
  import opened Wrappers
  import opened DeployState
  import opened Runs
  import Channels

  const CANCEL_MESSAGE := "task cancelled"
  const SHUTDOWN_MESSAGE := "cancelled before reboot or poweroff"

  /** Where handleDeploy (after Acquire) and then runDeploy are. */
  datatype Pc =
    | Acquired                 // Acquire returned; s.tracker not yet assigned
    | Published                // runDeploy started; next SetState(preparing)
    | Prepared                 // next DeployStart
    | Announced                // next start the sync goroutine and call Run
    | Running                  // inside Run
    | Returned                 // Run returned; next close(stopSync)
    | Closed                   // next s.lastResult = res
    | Stored                   // next the error test
    | Failing(verdict: State)  // next tracker.Fail
    | Marked(verdict: State)   // next Finish
    | Completing               // SetState(completed) done; next tracker.SetStage
    | Notified                 // next tracker.Broadcast
    | Rebroadcast              // next Finish
    | Ending(verdict: State)   // Finish done; next DeployEnd
    | Ended(verdict: State)

  datatype SyncPc =
    | NotSpawned
    | Spawned                  // not yet subscribed
    | Listening                // in the select
    | Got(stage: State)        // received a snapshot; SetState still to come
    | Gone                     // returned and unsubscribed

  datatype Outcome = Outcome(err: Option<string>, bytes: nat)

  /** One generation: its goroutines, its tracker, and three histories: the stages
      broadcast so far, how many of them preceded the sync goroutine's Subscribe, and
      the stages that goroutine has received. */
  datatype Gen = Gen(
    image: string,
    target: string,
    pc: Pc,
    sync: SyncPc,
    stage: State,
    queue: seq<State>,
    written: nat,
    outcome: Option<Outcome>,
    saw: Option<bool>,
    sent: seq<State>,
    missed: nat,
    taken: seq<State>)
  {
    predicate BeforeReturn() {
      pc.Acquired? || pc.Published? || pc.Prepared? || pc.Announced? || pc.Running?
    }

    predicate StopClosed() {
      !BeforeReturn() && !pc.Returned?
    }

    predicate Subscribed() {
      sync.Listening? || sync.Got?
    }

    /** Run returned an error. */
    predicate RunFailed() {
      outcome.Some? && outcome.value.err.Some?
    }

    /** Both goroutines of the generation have returned. */
    predicate Quiet() {
      pc.Ended? && sync.Gone?
    }

    /** tracker.SetStage / Fail / Broadcast: a full queue drops the snapshot. */
    function Broadcast(s: State): Gen {
      this.(stage := s, sent := sent + [s],
            queue := if Subscribed() && |queue| < Channels.CAPACITY then queue + [s] else queue)
    }

    /** The message passed to Finish and DeployEnd. */
    function Message(verdict: State): string {
      match verdict
      case Cancelled => CANCEL_MESSAGE
      case Failed => if RunFailed() then outcome.value.err.value else ""
      case _ => ""
    }

    function Bytes(): nat {
      if outcome.Some? then outcome.value.bytes else 0
    }
  }

  datatype Report =
    | Start(gen: nat, image: string, target: string)
    | End(sender: Option<nat>, verdict: State, bytes: nat, msg: string)  // no generation: sent by shutdown

  datatype ShutdownPc = Checked | CancelSent | Waited | Reported

  datatype Sys = Sys(
    mgr: Mgr,
    gens: seq<Gen>,
    tracker: Option<nat>,
    lastResult: Option<Outcome>,
    reports: seq<Report>,
    shutdowns: seq<ShutdownPc>)
  {
    function SetGen(g: nat, gen: Gen): Sys
      requires g < |gens|
    {
      this.(gens := gens[g := gen])
    }
  }

  const INIT: Agent := Sys(DeployState.INITIAL, [], None, None, [], [])

  predicate WellFormed(s: Sys) {
    && Owned(s.mgr)
    && |s.gens| == |s.mgr.done|
    && (s.tracker.Some? ==> s.tracker.value < |s.gens|)
  }

  type Agent = s: Sys | WellFormed(s) witness Sys(DeployState.INITIAL, [], None, None, [], [])

  datatype Step =
    | Acquire(image: string, target: string)
    | Main(g: nat)                               // next statement of the handler / runDeploy
    | Progress(g: nat, n: nat)                   // Run writes n more bytes
    | Return(g: nat, err: Option<string>)        // Run returns
    | Sync(g: nat)                               // next statement of the sync goroutine
    | SyncStop(g: nat)                           // its select takes the closed stopSync
    | Cancel
    | ShutdownBegin
    | ShutdownCancel(i: nat)
    | ShutdownWait(i: nat, timedOut: bool)
    | ShutdownReport(i: nat)

  function NewGen(image: string, target: string): Gen {
    Gen(image, target, Acquired, NotSpawned, Idle, [], 0, None, None, [], 0, [])
  }

  function DoAcquire(s: Agent, image: string, target: string, now: nat): Agent {
    if s.mgr.Free() then s.(mgr := s.mgr.Acquire("", now), gens := s.gens + [NewGen(image, target)]) else s
  }

  function NextStage(stage: State): State {
    match stage
    case Preparing => Downloading
    case Downloading => Writing
    case _ => Syncing
  }

  /** The generation after the next statement of its handler / runDeploy goroutine;
      `cancelled` is what ctx.Err() says at the error test. */
  function MainGen(x: Gen, cancelled: bool): Gen {
    match x.pc
    case Acquired => x.(pc := Published)
    case Published => x.(pc := Prepared)
    case Prepared => x.(pc := Announced)
    case Announced => x.(pc := Running, sync := Spawned, stage := Preparing)
    case Running => if x.stage == Syncing then x else x.Broadcast(NextStage(x.stage))
    case Returned => x.(pc := Closed)
    case Closed => x.(pc := Stored)
    case Stored =>
      if x.RunFailed() then x.(pc := Failing(if cancelled then Cancelled else State.Failed), saw := Some(cancelled))
      else x.(pc := Completing)
    case Failing(v) => x.Broadcast(State.Failed).(pc := Marked(v))
    case Marked(v) => x.(pc := Ending(v))
    case Completing => x.Broadcast(Completed).(pc := Notified)
    case Notified => x.Broadcast(Completed).(pc := Rebroadcast)
    case Rebroadcast => x.(pc := Ending(Completed))
    case Ending(v) => x.(pc := Ended(v))
    case Ended(_) => x
  }

  /** Its effect on the manager. */
  function MainMgr(m: Mgr, x: Gen, now: nat): Mgr
    requires m.WellFormed()
  {
    match x.pc
    case Published => m.SetState(Preparing, "", now)
    case Stored => if x.RunFailed() then m else m.SetState(Completed, "", now)
    case Marked(v) => m.Finish(v, x.Message(v), now)
    case Rebroadcast => m.Finish(Completed, "", now)
    case _ => m
  }

  /** The reports it sends. */
  function MainReports(g: nat, x: Gen): seq<Report> {
    match x.pc
    case Prepared => [Start(g, x.image, x.target)]
    case Ending(v) => [End(Some(g), v, x.Bytes(), x.Message(v))]
    case _ => []
  }

  function DoMain(s: Agent, g: nat, now: nat): Agent
    requires g < |s.gens|
  {
    var x := s.gens[g];
    s.(mgr := MainMgr(s.mgr, x, now),
       gens := s.gens[g := MainGen(x, s.mgr.done[g])],
       reports := s.reports + MainReports(g, x),
       tracker := if x.pc.Acquired? then Some(g) else s.tracker,
       lastResult := if x.pc.Acquired? then None else if x.pc.Closed? then x.outcome else s.lastResult)
  }

  function DoProgress(s: Agent, g: nat, n: nat): Agent
    requires g < |s.gens|
  {
    var x := s.gens[g];
    if x.pc.Running? && x.stage == Writing then s.SetGen(g, x.(written := x.written + n)) else s
  }

  /** Run can fail as soon as it has asked for the image; it succeeds only from its fsync stage. */
  predicate CanReturn(x: Gen, err: Option<string>) {
    x.pc.Running? && x.stage != Preparing && (err.None? ==> x.stage == Syncing)
  }

  function DoReturn(s: Agent, g: nat, err: Option<string>): Agent
    requires g < |s.gens|
  {
    var x := s.gens[g];
    if CanReturn(x, err) then s.SetGen(g, x.(pc := Returned, outcome := Some(Outcome(err, x.written)))) else s
  }

  function SyncGen(x: Gen): Gen {
    match x.sync
    case Spawned => x.(sync := Listening, missed := |x.sent|)
    case Listening =>
      if x.queue == [] then x
      else x.(sync := Got(x.queue[0]), queue := x.queue[1..], taken := x.taken + [x.queue[0]])
    case Got(_) => x.(sync := Listening)
    case _ => x
  }

  function SyncMgr(m: Mgr, x: Gen, now: nat): Mgr {
    if x.sync.Got? && x.sync.stage.IsRunning() then m.SetState(x.sync.stage, "", now) else m
  }

  function DoSync(s: Agent, g: nat, now: nat): Agent
    requires g < |s.gens|
  {
    s.(mgr := SyncMgr(s.mgr, s.gens[g], now)).SetGen(g, SyncGen(s.gens[g]))
  }

  function DoSyncStop(s: Agent, g: nat): Agent
    requires g < |s.gens|
  {
    var x := s.gens[g];
    if x.sync.Listening? && x.StopClosed() then s.SetGen(g, x.(sync := Gone)) else s
  }

  /** ensureCancelledForShutdown; waitCancelled ends when nothing is running or at the deadline. */
  function DoShutdown(s: Agent, i: nat, timedOut: bool, now: nat): Agent
    requires i < |s.shutdowns|
  {
    match s.shutdowns[i]
    case Checked => s.(mgr := s.mgr.Cancel(now), shutdowns := s.shutdowns[i := CancelSent])
    case CancelSent => if s.mgr.Busy() && !timedOut then s else s.(shutdowns := s.shutdowns[i := Waited])
    case Waited =>
      var bytes := if s.lastResult.Some? then s.lastResult.value.bytes
                   else if s.tracker.Some? then s.gens[s.tracker.value].written else 0;
      s.(reports := s.reports + [End(None, Cancelled, bytes, SHUTDOWN_MESSAGE)],
         shutdowns := s.shutdowns[i := Reported])
    case Reported => s
  }

  function Apply(s: Agent, step: Step, now: nat): Agent
  {
    match step
    case Acquire(image, target) => DoAcquire(s, image, target, now)
    case Main(g) => if g < |s.gens| then DoMain(s, g, now) else s
    case Progress(g, n) => if g < |s.gens| then DoProgress(s, g, n) else s
    case Return(g, err) => if g < |s.gens| then DoReturn(s, g, err) else s
    case Sync(g) => if g < |s.gens| then DoSync(s, g, now) else s
    case SyncStop(g) => if g < |s.gens| then DoSyncStop(s, g) else s
    case Cancel => s.(mgr := s.mgr.Cancel(now))
    case ShutdownBegin => if s.mgr.Busy() then s.(shutdowns := s.shutdowns + [Checked]) else s
    case ShutdownCancel(i) => if i < |s.shutdowns| && s.shutdowns[i].Checked? then DoShutdown(s, i, false, now) else s
    case ShutdownWait(i, timedOut) =>
      if i < |s.shutdowns| && s.shutdowns[i].CancelSent? then DoShutdown(s, i, timedOut, now) else s
    case ShutdownReport(i) => if i < |s.shutdowns| && s.shutdowns[i].Waited? then DoShutdown(s, i, false, now) else s
  }

  /** The state a schedule reaches from `s`. */
  function Exec(s: Agent, steps: seq<Step>): Agent {
    Run(Apply, s, steps)
  }

  predicate IsCancelled(s: Agent, g: nat) {
    g < |s.gens| && s.mgr.done[g]
  }

  lemma StepKeepsCancelled(s: Agent, step: Step, now: nat, g: nat)
    requires IsCancelled(s, g)
    ensures IsCancelled(Apply(s, step, now), g)
  {
  }

  /** No step un-cancels a context. */
  lemma CancelledStaysCancelled(s: Agent, a: seq<Step>, b: seq<Step>, g: nat)
    requires IsCancelled(Exec(s, a), g)
    ensures IsCancelled(Exec(s, a + b), g)
  {
    assert (a + b)[..|a|] == a;
    var inv := (x: Agent) => IsCancelled(x, g);
    assert Stable<Agent, Step>(Apply, inv) by {
      forall x: Agent, step: Step, now: nat | inv(x)
        ensures inv(Apply(x, step, now))
      {
        StepKeepsCancelled(x, step, now, g);
      }
    }
    StableHolds<Agent, Step>(Apply, s, a + b, inv, |a|);
  }

  /** In every run, with no hypothesis on the schedule: the stored cancel function is the
      current task's own, or that task's context is already cancelled. Hence a cancel
      request that is not refused leaves that task's context cancelled, then and after
      any further steps, whatever late SetState had revived the task. */
  lemma ContextOwnership(before: seq<Step>, after: seq<Step>)
    ensures Owned(Exec(INIT, before).mgr)
    ensures var s := Exec(INIT, before);
            !s.mgr.Free() ==> IsCancelled(Exec(INIT, before + [Cancel] + after), s.mgr.current.value.gen)
  {
    var s := Exec(INIT, before);
    if !s.mgr.Free() {
      RunAppend<Agent, Step>(Apply, INIT, before, Cancel);
      CancelledStaysCancelled(INIT, before + [Cancel], after, s.mgr.current.value.gen);
    }
  }
}
