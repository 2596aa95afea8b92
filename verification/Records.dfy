/** What the server's records say of each deployment, told from what its Run returned and
    what the error test saw. */
module Records {
  import opened Wrappers
  import opened DeployState
  import opened DeployProtocol
  import opened Runs
  import opened StageSync
  import opened Verdict
  import NodeStore
  import NodeHistory

  /** The record of an ended deployment: its image and disk, the bytes it wrote, and result
      and message by how it ended. */
  predicate RecordTells(d: NodeStore.Deploy, x: Gen) {
    && d.imageID == x.image && d.targetDisk == x.target && d.bytesWritten == x.written
    && x.outcome.Some?
    && (d.result == "completed" <==> x.outcome.value.err.None?)
    && (d.result == "cancelled" <==> x.outcome.value.err.Some? && x.saw == Some(true))
    && (d.result == "failed" <==> x.outcome.value.err.Some? && x.saw == Some(false))
    && d.result != "running"
    && (x.outcome.value.err.None? ==> d.error == "")
    && (x.outcome.value.err.Some? && x.saw == Some(true) ==> d.error == "task cancelled")
    && (x.outcome.value.err.Some? && x.saw == Some(false) ==> d.error == x.outcome.value.err.value)
  }

  /** The record of a deployment under way. */
  predicate RunningTells(d: NodeStore.Deploy, x: Gen) {
    d.imageID == x.image && d.targetDisk == x.target && d.result == "running" && d.bytesWritten == 0 && d.error == ""
  }

  lemma {:induction false} RecordsAt(gens: seq<Gen>, lo: nat, hi: nat, g: nat)
    requires lo <= g < hi <= |gens| && HasAnnounced(gens[g]) && forall k :: lo <= k < hi - 1 ==> gens[k].pc.Ended?
    ensures |Records(gens, lo, hi)| > g - lo && [Records(gens, lo, hi)[g - lo]] == RecordOf(gens[g])
    ensures (forall k :: lo <= k < hi ==> HasAnnounced(gens[k])) ==> |Records(gens, lo, hi)| == hi - lo
    decreases hi
  {
    if lo < hi - 1 {
      AllAnnounced(gens, lo, hi - 1);
      if g < hi - 1 {
        RecordsAt(gens, lo, hi - 1, g);
      }
    }
  }

  lemma {:induction false} AllAnnounced(gens: seq<Gen>, lo: nat, hi: nat)
    requires lo <= hi <= |gens| && forall k :: lo <= k < hi ==> HasAnnounced(gens[k])
    ensures |Records(gens, lo, hi)| == hi - lo
    decreases hi
  {
    if lo < hi {
      AllAnnounced(gens, lo, hi - 1);
    }
  }

  lemma EndedShape(x: Gen, d: NodeStore.Deploy)
    requires x.pc.Ended? && VerdictFits(x, x.pc.verdict) && [ShapeOf(d)] == RecordOf(x)
    requires x.pc.verdict == Completed || x.pc.verdict == Cancelled || x.pc.verdict == State.Failed
    ensures RecordTells(d, x)
  {
    assert ShapeOf(d) == RecordOf(x)[0];
  }

  lemma OpenShape(x: Gen, d: NodeStore.Deploy)
    requires HasAnnounced(x) && !x.pc.Ended? && [ShapeOf(d)] == RecordOf(x)
    ensures RunningTells(d, x)
  {
    assert ShapeOf(d) == RecordOf(x)[0];
  }

  /** The generation has its record at this place of the history, and it tells the truth. */
  ghost predicate RecordedAt(db: NodeHistory.Database, uuid: string, i: int, x: Gen) {
    && uuid in db && 0 <= i < |db[uuid].deploys|
    && if x.pc.Ended? then RecordTells(db[uuid].deploys[i], x) else RunningTells(db[uuid].deploys[i], x)
  }

  lemma {:induction false} ToldAt(db: NodeHistory.Database, uuid: string, past: seq<Shape>, gens: seq<Gen>, base: nat, g: nat)
    requires uuid in db && base <= g < |gens| && History(db, uuid) == past + Records(gens, base, |gens|)
    requires HasAnnounced(gens[g]) && forall k :: base <= k < |gens| - 1 ==> gens[k].pc.Ended?
    ensures |past| + g - base < |db[uuid].deploys|
    ensures [ShapeOf(db[uuid].deploys[|past| + g - base])] == RecordOf(gens[g])
  {
    RecordsAt(gens, base, |gens|, g);
    var i := |past| + g - base;
    assert ShapeOf(db[uuid].deploys[i]) == History(db, uuid)[i] == Records(gens, base, |gens|)[g - base];
  }

  lemma JudgedVerdict(x: Gen)
    requires Judged(x) && x.pc.Ended?
    ensures x.pc.verdict == Completed || x.pc.verdict == Cancelled || x.pc.verdict == State.Failed
  {
  }

  lemma {:induction false} PlaceTells(
    after: NodeHistory.Database, uuid: string, past: seq<Shape>, r: Agent, base: nat, sent: seq<Report>, g: nat)
    requires OrderlyState(r, base, sent) && base <= g < |r.gens| && HasAnnounced(r.gens[g])
    requires uuid in after && History(after, uuid) == past + Records(r.gens, base, |r.gens|)
    ensures RecordedAt(after, uuid, |past| + g - base, r.gens[g])
  {
    ToldAt(after, uuid, past, r.gens, base, g);
    var d := after[uuid].deploys[|past| + g - base];
    if r.gens[g].pc.Ended? {
      OrderlyVerdict(r, base, sent, g);
      JudgedVerdict(r.gens[g]);
      EndedShape(r.gens[g], d);
    } else {
      OpenShape(r.gens[g], d);
    }
  }

  /** Once the server has heard, in order, the reports beyond the first `sent`, every announced
      generation from `base` on has its own record, in order behind the old ones. */
  ghost predicate AllRecorded(r: Agent, base: nat, sent: nat, db: NodeHistory.Database, uuid: string, clock: nat -> int) {
    sent <= |r.reports| && uuid in db &&
    var after := NodeHistory.After(db, Deliver(uuid, r.reports[sent..], clock));
    forall g :: base <= g < |r.gens| && HasAnnounced(r.gens[g]) ==>
      RecordedAt(after, uuid, |db[uuid].deploys| + g - base, r.gens[g])
  }

  lemma {:induction false} StateRecords(
    r: Agent, base: nat, sent: seq<Report>, db: NodeHistory.Database, uuid: string, clock: nat -> int)
    requires OrderlyState(r, base, sent) && uuid in db
    ensures AllRecorded(r, base, |sent|, db, uuid, clock)
  {
    StateTells(r, base, sent, db, uuid, clock);
    var after := NodeHistory.After(db, Deliver(uuid, r.reports[|sent|..], clock));
    forall g | base <= g < |r.gens| && HasAnnounced(r.gens[g])
      ensures RecordedAt(after, uuid, |db[uuid].deploys| + g - base, r.gens[g])
    {
      PlaceTells(after, uuid, History(db, uuid), r, base, sent, g);
    }
  }

  /** After an orderly run whose reports arrive in order, every announced generation has its
      own record. An ended one's says "completed" exactly if Run returned nil, "cancelled"
      exactly if it erred and the context was then seen cancelled, "failed" exactly if it erred
      and was not, never "running", with the bytes written and the message that goes with it;
      one still under way says "running". */
  lemma {:induction false} RecordsTellTheTruth(
    s: Agent, steps: seq<Step>, db: NodeHistory.Database, uuid: string, clock: nat -> int)
    requires AllQuiet(s) && Along(Apply, s, steps, Orderly) && uuid in db
    ensures AllRecorded(Exec(s, steps), |s.gens|, |s.reports|, db, uuid, clock)
  {
    OrderlyRun(s, steps);
    StateRecords(Exec(s, steps), |s.gens|, s.reports, db, uuid, clock);
  }

  /** And what a client is shown of the newest deployment, if it has ended: its result and
      message likewise. */
  predicate TaskTells(r: Agent, base: nat) {
    base < |r.gens| && r.gens[|r.gens| - 1].pc.Ended? ==>
      var x := r.gens[|r.gens| - 1];
      && r.mgr.current.Some? && x.outcome.Some?
      && var (state, error) := (r.mgr.current.value.state, r.mgr.current.value.error);
         match x.outcome.value.err
         case None => state == Completed && error == ""
         case Some(msg) =>
           || (x.saw == Some(true) && state == Cancelled && error == "task cancelled")
           || (x.saw == Some(false) && state == State.Failed && error == msg)
  }

  lemma {:induction false} StateTask(r: Agent, base: nat, sent: seq<Report>)
    requires OrderlyState(r, base, sent)
    ensures TaskTells(r, base)
  {
    if base < |r.gens| && r.gens[|r.gens| - 1].pc.Ended? {
      OrderlyVerdict(r, base, sent, |r.gens| - 1);
      JudgedVerdict(r.gens[|r.gens| - 1]);
    }
  }

  lemma {:induction false} TaskTellsTheTruth(s: Agent, steps: seq<Step>)
    requires AllQuiet(s) && Along(Apply, s, steps, Orderly)
    ensures TaskTells(Exec(s, steps), |s.gens|)
  {
    OrderlyRun(s, steps);
    StateTask(Exec(s, steps), |s.gens|, s.reports);
  }

  // ---- Which request a deployment is, and when it counts as cancelled ----

  ghost predicate AcquiredBy(steps: seq<Step>, g: nat, image: string, target: string) {
    exists i :: 0 <= i < |steps| && steps[i] == Acquire(image, target)
                && |Exec(INIT, steps[..i]).gens| == g && |Exec(INIT, steps[..i + 1]).gens| == g + 1
  }

  lemma {:induction false} AcquiredStays(steps: seq<Step>, step: Step, g: nat, image: string, target: string)
    requires AcquiredBy(steps, g, image, target)
    ensures AcquiredBy(steps + [step], g, image, target)
  {
    var i :| 0 <= i < |steps| && steps[i] == Acquire(image, target)
             && |Exec(INIT, steps[..i]).gens| == g && |Exec(INIT, steps[..i + 1]).gens| == g + 1;
    assert (steps + [step])[..i] == steps[..i] && (steps + [step])[..i + 1] == steps[..i + 1];
    assert (steps + [step])[i] == steps[i];
  }

  lemma StepKeepsRequest(s: Agent, step: Step, now: nat, g: nat)
    requires g < |Apply(s, step, now).gens|
    ensures var x := Apply(s, step, now).gens[g];
            if g < |s.gens| then x.image == s.gens[g].image && x.target == s.gens[g].target
            else g == |s.gens| && |Apply(s, step, now).gens| == g + 1 && step == Acquire(x.image, x.target)
  {
  }

  /** In every run each generation has the image and the disk of the accepted request that
      began it. */
  lemma {:induction false} GenerationIsRequested(steps: seq<Step>, g: nat)
    requires g < |Exec(INIT, steps).gens|
    ensures AcquiredBy(steps, g, Exec(INIT, steps).gens[g].image, Exec(INIT, steps).gens[g].target)
    decreases |steps|
  {
    var n := |steps| - 1;
    var s, x := Exec(INIT, steps[..n]), Exec(INIT, steps).gens[g];
    assert steps == steps[..n] + [steps[n]];
    StepKeepsRequest(s, steps[n], |steps|, g);
    if g < |s.gens| {
      GenerationIsRequested(steps[..n], g);
      AcquiredStays(steps[..n], steps[n], g, x.image, x.target);
    } else {
      assert steps[..n + 1] == steps;
    }
  }

  /** The error test is over, and it was an error. */
  predicate Tested(x: Gen) {
    x.RunFailed() && (x.pc.Failing? || x.pc.Marked? || x.pc.Ending? || x.pc.Ended?)
  }

  predicate CancelledInTime(s: Agent, g: nat) {
    IsCancelled(s, g) && (Tested(s.gens[g]) ==> s.gens[g].saw == Some(true))
  }

  predicate UpToTest(x: Gen) {
    x.BeforeReturn() || x.pc.Returned? || x.pc.Closed? || x.pc.Stored?
  }

  lemma StepKeepsCancelledInTime(s: Agent, step: Step, now: nat, g: nat)
    requires CancelledInTime(s, g)
    requires Judged(s.gens[g]) && Counted(s.gens[g])
    ensures CancelledInTime(Apply(s, step, now), g)
    ensures Judged(Apply(s, step, now).gens[g]) && Counted(Apply(s, step, now).gens[g])
  {
    StepKeepsJudged(s, step, now, g);
    StepKeepsCancelled(s, step, now, g);
    if step == Main(g) {
      MainInTime(s.gens[g]);
    } else {
      OtherKeepsTest(s, step, now, g);
    }
  }

  lemma MainInTime(x: Gen)
    requires Judged(x) && (Tested(x) ==> x.saw == Some(true))
    ensures Tested(MainGen(x, true)) ==> MainGen(x, true).saw == Some(true)
  {
  }

  lemma OtherKeepsTest(s: Agent, step: Step, now: nat, g: nat)
    requires g < |s.gens| && step != Main(g) && Judged(s.gens[g])
    ensures Tested(Apply(s, step, now).gens[g]) ==> Tested(s.gens[g]) && Apply(s, step, now).gens[g].saw == s.gens[g].saw
  {
  }

  lemma {:induction false} JudgedRun(steps: seq<Step>)
    ensures AllJudged(Exec(INIT, steps), 0)
  {
    var inv := (s: Agent) => AllJudged(s, 0);
    assert Stable<Agent, Step>(Apply, inv) by {
      forall s: Agent, step: Step, now: nat | inv(s)
        ensures inv(Apply(s, step, now))
      {
        StepKeepsAllJudged(s, step, now, 0);
      }
    }
    StableHolds<Agent, Step>(Apply, INIT, steps, inv, 0);
  }

  /** In every run: a deployment whose context is cancelled at any moment up to its error test,
      and whose Run errs, is found cancelled by that test. */
  lemma {:induction false} CancelInTimeIsSeen(before: seq<Step>, after: seq<Step>, g: nat)
    requires IsCancelled(Exec(INIT, before), g) && UpToTest(Exec(INIT, before).gens[g])
    ensures g < |Exec(INIT, before + after).gens|
    ensures var x := Exec(INIT, before + after).gens[g]; Tested(x) ==> x.saw == Some(true)
  {
    JudgedRun(before);
    assert (before + after)[..|before|] == before;
    var inv := (s: Agent) => CancelledInTime(s, g) && Judged(s.gens[g]) && Counted(s.gens[g]);
    assert Stable<Agent, Step>(Apply, inv) by {
      forall s: Agent, step: Step, now: nat | inv(s)
        ensures inv(Apply(s, step, now))
      {
        StepKeepsCancelledInTime(s, step, now, g);
      }
    }
    StableHolds<Agent, Step>(Apply, INIT, before + after, inv, |before|);
  }
}
