/** What a deployment's tracker broadcasts over its life. */
module Broadcasts {
  import opened Wrappers
  import opened DeployState
  import opened DeployProtocol
  import opened Runs

  const STAGES: seq<State> := [Downloading, Writing, Syncing]

  /** How many stages Run has broadcast when the tracker shows this one. */
  function Reached(stage: State): nat {
    match stage
    case Downloading => 1
    case Writing => 2
    case Syncing => 3
    case _ => 0
  }

  predicate Underway(x: Gen) {
    && (x.stage == Preparing || x.stage == Downloading || x.stage == Writing || x.stage == Syncing)
    && x.sent == STAGES[..Reached(x.stage)]
  }

  /** Some stages, from downloading on, and then the failure. */
  predicate SentFailure(sent: seq<State>) {
    || sent == [Downloading, State.Failed]
    || sent == [Downloading, Writing, State.Failed]
    || sent == [Downloading, Writing, Syncing, State.Failed]
  }

  predicate Succeeding(x: Gen) {
    x.stage == Syncing || x.RunFailed()
  }

  /** What has been broadcast at each program point. */
  predicate SentSoFar(x: Gen) {
    match x.pc
    case Acquired | Published | Prepared | Announced => x.sent == []
    case Running => Underway(x)
    case Returned | Closed | Stored => Underway(x) && x.stage != Preparing && Succeeding(x)
    case Failing(v) => Underway(x) && x.stage != Preparing && v != Completed
    case Marked(v) => SentFailure(x.sent) && v != Completed
    case Completing => x.sent == STAGES
    case Notified => x.sent == STAGES + [Completed]
    case Rebroadcast => x.sent == STAGES + [Completed, Completed]
    case Ending(v) => if v == Completed then x.sent == STAGES + [Completed, Completed] else SentFailure(x.sent)
    case Ended(v) => if v == Completed then x.sent == STAGES + [Completed, Completed] else SentFailure(x.sent)
  }

  lemma MainKeepsSent(x: Gen, cancelled: bool)
    requires SentSoFar(x)
    ensures SentSoFar(MainGen(x, cancelled))
  {
    assert STAGES[..3] == STAGES && STAGES[..2] == [Downloading, Writing] && STAGES[..1] == [Downloading] && STAGES[..0] == [];
  }

  lemma OtherKeepsSent(s: Agent, step: Step, now: nat, g: nat)
    requires g < |s.gens| && SentSoFar(s.gens[g]) && step != Main(g)
    ensures SentSoFar(Apply(s, step, now).gens[g])
  {
  }

  lemma StepKeepsSent(s: Agent, step: Step, now: nat, g: nat)
    requires g < |s.gens| && SentSoFar(s.gens[g])
    ensures SentSoFar(Apply(s, step, now).gens[g])
  {
    if step == Main(g) {
      MainKeepsSent(s.gens[g], s.mgr.done[g]);
    } else {
      OtherKeepsSent(s, step, now, g);
    }
  }

  ghost predicate AllSent(s: Agent) {
    forall g :: 0 <= g < |s.gens| ==> SentSoFar(s.gens[g])
  }

  /** In every run, whatever overlaps: a deployment that has completed has broadcast exactly
      downloading, writing, syncing, completed, completed; one that has ended otherwise, its
      stages so far, at least downloading, and then failed. */
  lemma {:induction false} BroadcastsExactly(steps: seq<Step>, g: nat)
    requires g < |Exec(INIT, steps).gens| && Exec(INIT, steps).gens[g].pc.Ended?
    ensures var x := Exec(INIT, steps).gens[g];
            if x.pc.verdict == Completed then x.sent == [Downloading, Writing, Syncing, Completed, Completed]
            else SentFailure(x.sent)
  {
    assert Stable<Agent, Step>(Apply, AllSent) by {
      forall s: Agent, step: Step, now: nat | AllSent(s)
        ensures AllSent(Apply(s, step, now))
      {
        forall h | 0 <= h < |Apply(s, step, now).gens|
          ensures SentSoFar(Apply(s, step, now).gens[h])
        {
          if h < |s.gens| {
            StepKeepsSent(s, step, now, h);
          }
        }
      }
    }
    StableHolds<Agent, Step>(Apply, INIT, steps, AllSent, 0);
    assert SentSoFar(Exec(INIT, steps).gens[g]);
  }
}
