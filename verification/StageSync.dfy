/** The stage-sync goroutine: what it receives from the tracker, and the stage a client
    sees while Run is under way. */
module StageSync {
  import opened Wrappers
  import opened DeployState
  import opened DeployProtocol
  import opened Runs
  import Channels

  /** The i-th stage Run broadcasts. */
  function StageAt(i: nat): State {
    if i == 0 then Downloading else if i == 1 then Writing else Syncing
  }

  /** Run has broadcast its stages up to the one the tracker shows. */
  predicate RunStages(sent: seq<State>, stage: State) {
    && |sent| <= 3
    && (forall i :: 0 <= i < |sent| ==> sent[i] == StageAt(i))
    && stage == if |sent| == 0 then Preparing else StageAt(|sent| - 1)
  }

  /** What the tracker has broadcast by each program point. */
  predicate SentByNow(x: Gen) {
    match x.pc
    case Acquired | Published | Prepared | Announced => x.sent == [] && x.sync.NotSpawned?
    case Running | Returned | Closed | Stored | Failing(_) =>
      RunStages(x.sent, x.stage) && !x.sync.NotSpawned?
    case Completing => |x.sent| <= 3
    case Marked(_) | Notified => |x.sent| <= 4
    case _ => |x.sent| <= 5
  }

  /** What the sync goroutine has received, and what still waits in its channel, is exactly
      the broadcasts since it subscribed: in order, none dropped. */
  predicate Received(sync: SyncPc, queue: seq<State>, taken: seq<State>, missed: nat, sent: seq<State>) {
    match sync
    case NotSpawned => queue == [] && taken == []
    case Spawned => queue == [] && taken == []
    case Listening => missed <= |sent| && taken + queue == sent[missed..]
    case Got(st) => missed <= |sent| && taken + queue == sent[missed..] && taken != [] && taken[|taken| - 1] == st
    case Gone => missed <= |sent| && taken + queue <= sent[missed..]
  }

  predicate Delivered(x: Gen) {
    Received(x.sync, x.queue, x.taken, x.missed, x.sent)
  }

  predicate InOrder(x: Gen) {
    SentByNow(x) && Delivered(x)
  }

  lemma BroadcastKeepsDelivered(x: Gen, st: State)
    requires Delivered(x) && |x.sent| < Channels.CAPACITY
    ensures Delivered(x.Broadcast(st))
  {
    if x.Subscribed() {
      assert |x.taken + x.queue| == |x.sent| - x.missed;
      assert (x.sent + [st])[x.missed..] == x.sent[x.missed..] + [st];
      assert x.taken + (x.queue + [st]) == (x.taken + x.queue) + [st];
    } else if x.sync.Gone? {
      assert x.sent[x.missed..] <= (x.sent + [st])[x.missed..];
    }
  }

  lemma NextStageInOrder(x: Gen)
    requires InOrder(x) && x.pc.Running? && x.stage != Syncing
    ensures InOrder(x.Broadcast(NextStage(x.stage)))
  {
    BroadcastKeepsDelivered(x, NextStage(x.stage));
  }

  /** Every other statement either changes the program counter alone or broadcasts a
      verdict. */
  lemma MainKeepsSentByNow(x: Gen, cancelled: bool)
    requires SentByNow(x) && !x.pc.Running?
    ensures SentByNow(MainGen(x, cancelled))
  {
  }

  lemma {:induction false} MainKeepsDelivered(x: Gen, cancelled: bool)
    requires InOrder(x) && !x.pc.Running?
    ensures Delivered(MainGen(x, cancelled))
  {
    match x.pc
    case Failing(_) => BroadcastKeepsDelivered(x, State.Failed);
    case Completing => BroadcastKeepsDelivered(x, Completed);
    case Notified => BroadcastKeepsDelivered(x, Completed);
    case _ =>
  }

  lemma {:induction false} MainKeepsInOrder(x: Gen, cancelled: bool)
    requires InOrder(x)
    ensures InOrder(MainGen(x, cancelled))
  {
    if x.pc.Running? {
      if x.stage != Syncing {
        NextStageInOrder(x);
      }
    } else {
      MainKeepsSentByNow(x, cancelled);
      MainKeepsDelivered(x, cancelled);
    }
  }

  lemma SyncKeepsInOrder(x: Gen)
    requires InOrder(x)
    ensures InOrder(SyncGen(x))
  {
    if x.sync.Listening? && x.queue != [] {
      assert (x.taken + [x.queue[0]]) + x.queue[1..] == x.taken + x.queue;
    }
  }

  /** Any other step leaves the channel and its history alone. */
  predicate SameChannel(x: Gen, x': Gen) {
    && x'.sent == x.sent && x'.stage == x.stage && x'.queue == x.queue && x'.taken == x.taken && x'.missed == x.missed
    && (x'.pc == x.pc || (x.pc.Running? && x'.pc.Returned?))
    && (x'.sync == x.sync || (x.sync.Listening? && x'.sync.Gone?))
  }

  lemma SameChannelInOrder(x: Gen, x': Gen)
    requires InOrder(x) && SameChannel(x, x')
    ensures InOrder(x')
  {
  }

  lemma OtherStepSameChannel(s: Agent, step: Step, now: nat, g: nat)
    requires g < |s.gens| && step != Main(g) && step != Sync(g)
    ensures SameChannel(s.gens[g], Apply(s, step, now).gens[g])
  {
  }

  lemma {:induction false} StepKeepsInOrder(s: Agent, step: Step, now: nat, g: nat)
    requires g < |s.gens| && InOrder(s.gens[g])
    ensures InOrder(Apply(s, step, now).gens[g])
  {
    if step == Main(g) {
      MainKeepsInOrder(s.gens[g], s.mgr.done[g]);
    } else if step == Sync(g) {
      SyncKeepsInOrder(s.gens[g]);
    } else {
      OtherStepSameChannel(s, step, now, g);
      SameChannelInOrder(s.gens[g], Apply(s, step, now).gens[g]);
    }
  }

  /** In every run, whatever overlaps: each generation's broadcasts number at most five, so
      the 16-slot channel never drops one, and its sync goroutine receives an in-order
      prefix of the broadcasts since it subscribed, all of them once its channel is empty. */
  lemma UpdatesInOrder(steps: seq<Step>, g: nat)
    requires g < |Exec(INIT, steps).gens|
    ensures var x := Exec(INIT, steps).gens[g];
            && |x.sent| <= 5
            && (x.Subscribed() ==> x.missed <= |x.sent| && x.taken + x.queue == x.sent[x.missed..])
            && (x.sync.Gone? ==> x.missed <= |x.sent| && x.taken + x.queue <= x.sent[x.missed..])
  {
    var inv := (s: Agent) => forall h :: 0 <= h < |s.gens| ==> InOrder(s.gens[h]);
    assert Stable<Agent, Step>(Apply, inv) by {
      forall s: Agent, step: Step, now: nat | inv(s)
        ensures inv(Apply(s, step, now))
      {
        forall h | 0 <= h < |Apply(s, step, now).gens|
          ensures InOrder(Apply(s, step, now).gens[h])
        {
          if h < |s.gens| {
            StepKeepsInOrder(s, step, now, h);
          }
        }
      }
    }
    StableHolds<Agent, Step>(Apply, INIT, steps, inv, 0);
    assert InOrder(Exec(INIT, steps).gens[g]);
  }

  // ---- The visible stage climbs ----

  function Rank(s: State): nat {
    match s
    case Validating => 1
    case Preparing => 2
    case Downloading => 3
    case Writing => 4
    case Syncing => 5
    case _ => 0
  }

  /** No deployment starts before the previous one's goroutines have returned. */
  predicate NoOverlap(s: Agent, step: Step) {
    step.Acquire? && s.mgr.Free() ==> forall g :: 0 <= g < |s.gens| ==> s.gens[g].Quiet()
  }

  predicate NeitherOverlapNorCancel(s: Agent, step: Step) {
    NoOverlap(s, step) && !step.Cancel? && !step.ShutdownCancel?
  }

  /** How many updates the sync goroutine has made: all it received but the one it holds. */
  function Applied(x: Gen): int {
    if x.sync.Got? then |x.taken| - 1 else |x.taken|
  }

  /** The state a client sees before stopSync is closed. */
  function Visible(x: Gen): State {
    if x.pc.Acquired? || x.pc.Published? then Validating
    else if Applied(x) <= 0 then Preparing
    else x.taken[Applied(x) - 1]
  }

  ghost predicate EarlierQuiet(s: Agent) {
    forall g :: 0 <= g < |s.gens| - 1 ==> s.gens[g].Quiet()
  }

  /** The newest generation, if still active, is in order and determines what is visible. */
  ghost predicate NewestVisible(s: Agent) {
    |s.gens| > 0 && !s.gens[|s.gens| - 1].Quiet() ==>
      var x := s.gens[|s.gens| - 1];
      InOrder(x) && (!x.StopClosed() ==> s.mgr.current.Some? && s.mgr.current.value.state == Visible(x) && s.mgr.current.value.error == "")
  }

  ghost predicate Climbing(s: Agent) {
    EarlierQuiet(s) && NewestVisible(s)
  }

  /** A generation whose goroutines have returned is left alone by every step. */
  lemma QuietStays(s: Agent, step: Step, now: nat, g: nat)
    requires g < |s.gens| && s.gens[g].Quiet()
    ensures Apply(s, step, now).gens[g] == s.gens[g]
  {
  }

  lemma StepKeepsEarlierQuiet(s: Agent, step: Step, now: nat)
    requires EarlierQuiet(s) && NoOverlap(s, step)
    ensures EarlierQuiet(Apply(s, step, now))
  {
    var s' := Apply(s, step, now);
    forall g | 0 <= g < |s'.gens| - 1
      ensures s'.gens[g].Quiet()
    {
      QuietStays(s, step, now, g);
    }
  }

  lemma MainClimbs(m: Mgr, x: Gen, cancelled: bool, now: nat)
    requires m.WellFormed() && SentByNow(x) && Delivered(x)
    requires m.current.Some? && m.current.value.state == Visible(x) && m.current.value.error == ""
    ensures var x' := MainGen(x, cancelled);
            var m' := MainMgr(m, x, now);
            !x'.StopClosed() ==>
              && m'.current.Some? && m'.current.value.state == Visible(x') && m'.current.value.error == ""
              && Rank(m.current.value.state) <= Rank(m'.current.value.state)
  {
    if x.pc.Running? {
      assert MainGen(x, cancelled).taken == x.taken && MainGen(x, cancelled).sync == x.sync;
    } else if x.BeforeReturn() {
      EarlyMainClimbs(m, x, cancelled, now);
    } else {
      assert MainGen(x, cancelled).StopClosed();
    }
  }

  /** Before Run the sync goroutine does not exist yet. */
  lemma EarlyMainClimbs(m: Mgr, x: Gen, cancelled: bool, now: nat)
    requires m.WellFormed() && x.BeforeReturn() && !x.pc.Running? && x.sync.NotSpawned? && x.taken == []
    requires m.current.Some? && m.current.value.state == Visible(x) && m.current.value.error == ""
    ensures var m' := MainMgr(m, x, now);
            && m'.current.Some? && m'.current.value.state == Visible(MainGen(x, cancelled)) && m'.current.value.error == ""
            && Rank(m.current.value.state) <= Rank(m'.current.value.state)
  {
  }

  /** Before stopSync is closed the received stages are consecutive ones. */
  lemma TakenStages(x: Gen)
    requires InOrder(x) && !x.StopClosed()
    ensures forall i :: 0 <= i < |x.taken| ==> x.missed + i < 3 && x.taken[i] == StageAt(x.missed + i)
    ensures x.sync.Got? ==> |x.taken| > 0 && x.taken[|x.taken| - 1] == x.sync.stage
  {
    forall i | 0 <= i < |x.taken|
      ensures x.missed + i < 3 && x.taken[i] == StageAt(x.missed + i)
    {
      assert x.taken[i] == (x.taken + x.queue)[i] == x.sent[x.missed..][i];
    }
  }

  lemma SyncClimbs(m: Mgr, x: Gen, now: nat)
    requires x.sync.NotSpawned? || !(x.pc.Acquired? || x.pc.Published?)
    requires forall i :: 0 <= i < |x.taken| ==> x.taken[i] == StageAt(x.missed + i)
    requires x.sync.Got? ==> |x.taken| > 0 && x.taken[|x.taken| - 1] == x.sync.stage
    requires m.current.Some? && m.current.value.state == Visible(x) && m.current.value.error == ""
    ensures var m' := SyncMgr(m, x, now);
            && m'.current.Some? && m'.current.value.state == Visible(SyncGen(x)) && m'.current.value.error == ""
            && Rank(m.current.value.state) <= Rank(m'.current.value.state)
  {
    match x.sync
    case Got(st) =>
      assert st == StageAt(x.missed + |x.taken| - 1);
      if |x.taken| > 1 {
        assert Visible(x) == StageAt(x.missed + |x.taken| - 2);
      }
    case Listening =>
    case _ =>
  }

  /** Steps of returned goroutines and of anything but the newest generation. */
  lemma OthersDoNotTouch(s: Agent, step: Step, now: nat)
    requires EarlierQuiet(s) && |s.gens| > 0 && |Apply(s, step, now).gens| == |s.gens|
    requires !step.Cancel? && !step.ShutdownCancel?
    requires step != Main(|s.gens| - 1) && step != Sync(|s.gens| - 1)
    ensures var s' := Apply(s, step, now);
            && s'.mgr == s.mgr
            && Visible(s'.gens[|s.gens| - 1]) == Visible(s.gens[|s.gens| - 1])
            && (s.gens[|s.gens| - 1].StopClosed() ==> s'.gens[|s.gens| - 1].StopClosed())
  {
  }

  /** One step of a run without overlap or cancel, seen from the newest active generation. */
  lemma {:induction false} NewestClimbs(s: Agent, step: Step, s': Agent, now: nat)
    requires Climbing(s) && !step.Cancel? && !step.ShutdownCancel? && s' == Apply(s, step, now)
    requires |s'.gens| == |s.gens| > 0
    requires !s'.gens[|s.gens| - 1].StopClosed() && !s.gens[|s.gens| - 1].StopClosed()
    ensures && s.mgr.current.Some? && s'.mgr.current.Some?
            && s'.mgr.current.value.state == Visible(s'.gens[|s.gens| - 1]) && s'.mgr.current.value.error == ""
            && Rank(s.mgr.current.value.state) <= Rank(s'.mgr.current.value.state)
  {
    var x := s.gens[|s.gens| - 1];
    if step == Main(|s.gens| - 1) {
      assert s'.mgr == MainMgr(s.mgr, x, now) && s'.gens[|s.gens| - 1] == MainGen(x, s.mgr.done[|s.gens| - 1]);
      MainClimbs(s.mgr, x, s.mgr.done[|s.gens| - 1], now);
    } else if step == Sync(|s.gens| - 1) {
      assert s'.mgr == SyncMgr(s.mgr, x, now) && s'.gens[|s.gens| - 1] == SyncGen(x);
      TakenStages(x);
      SyncClimbs(s.mgr, x, now);
    } else {
      OthersDoNotTouch(s, step, now);
    }
  }

  /** Once closed, stopSync stays closed. */
  lemma StopStaysClosed(s: Agent, step: Step, now: nat, g: nat)
    requires g < |s.gens| && s.gens[g].StopClosed()
    ensures Apply(s, step, now).gens[g].StopClosed()
  {
  }

  /** The newest generation stays in order, or returns for good. */
  lemma NewestStaysInOrder(s: Agent, step: Step, s': Agent, now: nat)
    requires Climbing(s) && s' == Apply(s, step, now) && |s'.gens| == |s.gens| > 0
    ensures s'.gens[|s.gens| - 1].Quiet() || InOrder(s'.gens[|s.gens| - 1])
  {
    if s.gens[|s.gens| - 1].Quiet() {
      QuietStays(s, step, now, |s.gens| - 1);
    } else {
      StepKeepsInOrder(s, step, now, |s.gens| - 1);
    }
  }

  lemma {:induction false} StepClimbs(s: Agent, step: Step, now: nat)
    requires Climbing(s) && NeitherOverlapNorCancel(s, step)
    ensures Climbing(Apply(s, step, now))
    ensures var s' := Apply(s, step, now);
            |s'.gens| == |s.gens| > 0 && !s'.gens[|s.gens| - 1].StopClosed() ==>
              s.mgr.current.Some? && s'.mgr.current.Some? && s'.mgr.current.value.error == "" &&
              Rank(s.mgr.current.value.state) <= Rank(s'.mgr.current.value.state)
  {
    var s' := Apply(s, step, now);
    GensGrow(s, step, now);
    StepKeepsEarlierQuiet(s, step, now);
    if |s'.gens| > |s.gens| {
      StepAddsNewest(s, step, now);
    } else if |s.gens| > 0 {
      NewestStaysInOrder(s, step, s', now);
      if s.gens[|s.gens| - 1].StopClosed() {
        StopStaysClosed(s, step, now, |s.gens| - 1);
      } else if !s'.gens[|s.gens| - 1].StopClosed() {
        NewestClimbs(s, step, s', now);
      }
    }
  }

  lemma StepAddsNewest(s: Agent, step: Step, now: nat)
    requires |Apply(s, step, now).gens| > |s.gens|
    ensures NewestVisible(Apply(s, step, now))
  {
  }

  ghost predicate AllQuiet(s: Agent) {
    forall g :: 0 <= g < |s.gens| ==> s.gens[g].Quiet()
  }

  lemma {:induction false} RunClimbing(s: Agent, steps: seq<Step>)
    requires AllQuiet(s) && Along(Apply, s, steps, NeitherOverlapNorCancel)
    ensures Climbing(Exec(s, steps))
  {
    assert Inductive(Apply, NeitherOverlapNorCancel, Climbing) by {
      forall x: Agent, step: Step, now: nat | Climbing(x) && NeitherOverlapNorCancel(x, step)
        ensures Climbing(Apply(x, step, now))
      {
        StepClimbs(x, step, now);
      }
    }
    RunKeeps<Agent, Step>(Apply, s, steps, NeitherOverlapNorCancel, Climbing);
  }

  /** The visible state of a generation before its stopSync is closed has a rank. */
  lemma VisibleRanked(s: Agent)
    requires Climbing(s) && |s.gens| > 0 && !s.gens[|s.gens| - 1].StopClosed()
    ensures s.mgr.current.Some? && s.mgr.current.value.error == "" && 1 <= Rank(s.mgr.current.value.state)
  {
    var x := s.gens[|s.gens| - 1];
    TakenStages(x);
    VisibleHasRank(x);
  }

  lemma VisibleHasRank(x: Gen)
    requires forall i :: 0 <= i < |x.taken| ==> x.taken[i] == StageAt(x.missed + i)
    ensures 1 <= Rank(Visible(x))
  {
  }

  /** If the newest generation of `x` is the one of `a`, and its stopSync is not closed, then
      the state visible in `x` is as far as that in `a`, or further. */
  ghost predicate Ahead(a: Agent, x: Agent) {
    && |a.gens| <= |x.gens|
    && (|a.gens| == |x.gens| > 0 && !x.gens[|x.gens| - 1].StopClosed() ==>
          && !a.gens[|a.gens| - 1].StopClosed() && a.mgr.current.Some? && x.mgr.current.Some?
          && x.mgr.current.value.error == ""
          && 1 <= Rank(a.mgr.current.value.state) <= Rank(x.mgr.current.value.state))
  }

  lemma AheadOfItself(a: Agent)
    requires Climbing(a)
    ensures Ahead(a, a)
  {
    if |a.gens| > 0 && !a.gens[|a.gens| - 1].StopClosed() {
      VisibleRanked(a);
    }
  }

  lemma GensGrow(s: Agent, step: Step, now: nat)
    ensures |s.gens| <= |Apply(s, step, now).gens|
  {
  }

  lemma StepStaysAhead(a: Agent, x: Agent, step: Step, now: nat)
    requires Ahead(a, x) && Climbing(x) && NeitherOverlapNorCancel(x, step)
    ensures Ahead(a, Apply(x, step, now)) && Climbing(Apply(x, step, now))
  {
    GensGrow(x, step, now);
    StepClimbs(x, step, now);
    if |x.gens| > 0 && x.gens[|x.gens| - 1].StopClosed() {
      StopStaysClosed(x, step, now, |x.gens| - 1);
    }
  }

  lemma {:induction false} EndsAhead(s: Agent, steps: seq<Step>, i: nat, a: Agent)
    requires Along(Apply, s, steps, NeitherOverlapNorCancel) && i <= |steps|
    requires a == Exec(s, steps[..i]) && Climbing(a)
    ensures Ahead(a, Exec(s, steps))
  {
    AheadOfItself(a);
    var inv := (x: Agent) => Climbing(x) && Ahead(a, x);
    assert Inductive<Agent, Step>(Apply, NeitherOverlapNorCancel, inv) by {
      forall x: Agent, step: Step, now: nat | inv(x) && NeitherOverlapNorCancel(x, step)
        ensures inv(Apply(x, step, now))
      {
        StepStaysAhead(a, x, step, now);
      }
    }
    RunKeepsFrom<Agent, Step>(Apply, s, steps, NeitherOverlapNorCancel, inv, i);
  }

  /** In a run without overlap or cancel, from the Acquire of a generation until its
      stopSync is closed, the state clients see is one of validating, preparing,
      downloading, writing, syncing, without an error, and between any two moments it only
      moves forward. */
  lemma {:induction false} StagesClimb(s: Agent, steps: seq<Step>, i: nat)
    requires AllQuiet(s) && Along(Apply, s, steps, NeitherOverlapNorCancel) && i <= |steps|
    requires |Exec(s, steps[..i]).gens| == |Exec(s, steps).gens| > 0
    requires !Exec(s, steps).gens[|Exec(s, steps).gens| - 1].StopClosed()
    ensures var a := Exec(s, steps[..i]).mgr;
            var b := Exec(s, steps).mgr;
            && a.current.Some? && b.current.Some? && b.current.value.error == ""
            && 1 <= Rank(a.current.value.state) <= Rank(b.current.value.state)
  {
    AlongPrefix<Agent, Step>(Apply, s, steps, NeitherOverlapNorCancel, i);
    RunClimbing(s, steps[..i]);
    EndsAhead(s, steps, i, Exec(s, steps[..i]));
  }
}
