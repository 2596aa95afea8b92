/** Whose bytes the disk holds. All generations write to one disk, each from offset 0 on;
    a Run that has been cancelled may still be writing when the next one begins. */
module DiskOwner {
  import opened Wrappers
  import opened DeployState
  import opened DeployProtocol
  import opened Runs
  import opened Schedules

  /** A write of the generation `g` to the bytes from `start` up to `end`. */
  datatype Write = Write(g: nat, start: nat, end: nat)

  /** The agent, and the writes made to the disk so far. */
  datatype Shared = Shared(agent: Agent, writes: seq<Write>)

  const START := Shared(INIT, [])

  /** What a step writes. */
  function WriteOf(s: Agent, step: Step): Option<Write> {
    if step.Progress? && step.g < |s.gens| && s.gens[step.g].pc.Running? && s.gens[step.g].stage == Writing then
      Some(Write(step.g, s.gens[step.g].written, s.gens[step.g].written + step.n))
    else None
  }

  function ApplyShared(s: Shared, step: Step, now: nat): Shared {
    Shared(Apply(s.agent, step, now), Extended(s.writes, WriteOf(s.agent, step)))
  }

  function Extended(writes: seq<Write>, w: Option<Write>): seq<Write> {
    if w.Some? then writes + [w.value] else writes
  }

  /** The agent does what it does without the record of its writes. */
  lemma {:induction false} AgentAsBefore(steps: seq<Step>)
    ensures Run(ApplyShared, START, steps).agent == Exec(INIT, steps)
    decreases |steps|
  {
    if steps != [] {
      AgentAsBefore(steps[..|steps| - 1]);
    }
  }

  /** The generation that wrote the byte at `i` last. */
  function LastWriter(writes: seq<Write>, i: nat): Option<nat> {
    if writes == [] then None
    else
      var w := writes[|writes| - 1];
      if w.start <= i < w.end then Some(w.g) else LastWriter(writes[..|writes| - 1], i)
  }

  lemma LastWriterSnoc(writes: seq<Write>, w: Write, i: nat)
    ensures LastWriter(writes + [w], i) == if w.start <= i < w.end then Some(w.g) else LastWriter(writes, i)
  {
    assert (writes + [w])[..|writes|] == writes;
  }

  /** What the newest generation has written is still what the disk holds. */
  predicate OwnBytes(s: Shared) {
    |s.agent.gens| > 0 ==>
      var g := |s.agent.gens| - 1;
      forall i: nat :: i < s.agent.gens[g].written ==> LastWriter(s.writes, i) == Some(g)
  }

  /** No earlier generation writes over what the newest one has written. */
  predicate NoOverwrite(s: Shared, step: Step) {
    var w := WriteOf(s.agent, step);
    w.Some? && w.value.g + 1 < |s.agent.gens| ==>
      w.value.start == w.value.end || s.agent.gens[|s.agent.gens| - 1].written <= w.value.start
  }

  /** A generation's count grows by its own writes alone. */
  lemma WrittenGrows(s: Agent, step: Step, now: nat, g: nat)
    requires g < |s.gens|
    ensures g < |Apply(s, step, now).gens|
    ensures var w := WriteOf(s, step);
            Apply(s, step, now).gens[g].written == if w.Some? && w.value.g == g then w.value.end else s.gens[g].written
  {
  }

  lemma NewGenerationUnwritten(s: Agent, step: Step, now: nat)
    requires |Apply(s, step, now).gens| != |s.gens|
    ensures |Apply(s, step, now).gens| == |s.gens| + 1 && Apply(s, step, now).gens[|s.gens|].written == 0
  {
  }

  lemma StepKeepsOwnBytes(s: Shared, step: Step, now: nat)
    requires OwnBytes(s) && NoOverwrite(s, step)
    ensures OwnBytes(ApplyShared(s, step, now))
  {
    var s' := ApplyShared(s, step, now);
    if |s'.agent.gens| != |s.agent.gens| {
      NewGenerationUnwritten(s.agent, step, now);
    } else if |s.agent.gens| > 0 {
      var g := |s.agent.gens| - 1;
      WrittenGrows(s.agent, step, now, g);
      GrownIsOwn(s.writes, WriteOf(s.agent, step), g, s.agent.gens[g].written, s'.agent.gens[g].written);
    }
  }

  lemma GrownIsOwn(writes: seq<Write>, w: Option<Write>, g: nat, before: nat, after: nat)
    requires forall i: nat :: i < before ==> LastWriter(writes, i) == Some(g)
    requires if w.Some? && w.value.g == g then w.value.start == before && w.value.end == after else after == before
    requires w.Some? && w.value.g != g ==> w.value.start == w.value.end || before <= w.value.start
    ensures forall i: nat :: i < after ==> LastWriter(Extended(writes, w), i) == Some(g)
  {
    if w.Some? {
      forall i: nat | i < after
        ensures LastWriter(writes + [w.value], i) == Some(g)
      {
        LastWriterSnoc(writes, w.value, i);
      }
    }
  }

  lemma OverwriteDisowns(s: Shared, step: Step, now: nat)
    requires !NoOverwrite(s, step)
    ensures !OwnBytes(ApplyShared(s, step, now))
  {
    var g := |s.agent.gens| - 1;
    var w := WriteOf(s.agent, step).value;
    WrittenGrows(s.agent, step, now, g);
    LastWriterSnoc(s.writes, w, w.start);
    assert |Apply(s.agent, step, now).gens| == |s.agent.gens|;
  }

  /** The exact condition: throughout a run the disk holds what the newest generation has
      written, all of it and as that generation wrote it, if and only if no earlier one
      writes over it. */
  lemma {:induction false} OwnBytesExactly(steps: seq<Step>)
    ensures Along(ApplyShared, START, steps, NoOverwrite) <==>
            forall k: nat :: k <= |steps| ==> OwnBytes(Run(ApplyShared, START, steps[..k]))
  {
    assert Inductive<Shared, Step>(ApplyShared, NoOverwrite, OwnBytes) by {
      forall s: Shared, step: Step, now: nat | OwnBytes(s) && NoOverwrite(s, step)
        ensures OwnBytes(ApplyShared(s, step, now))
      {
        StepKeepsOwnBytes(s, step, now);
      }
    }
    assert Breaks<Shared, Step>(ApplyShared, NoOverwrite, OwnBytes, OwnBytes) by {
      forall s: Shared, step: Step, now: nat | OwnBytes(s) && !NoOverwrite(s, step)
        ensures !OwnBytes(ApplyShared(s, step, now))
      {
        OverwriteDisowns(s, step, now);
      }
    }
    AlongExactly<Shared, Step>(ApplyShared, START, steps, NoOverwrite, OwnBytes, OwnBytes);
  }

  // ---- A condition on Acquire ----

  /** No Acquire succeeds while some Run, cancelled or not, has not returned. */
  predicate NoAcquireWhileUnreturned(s: Shared, step: Step) {
    step.Acquire? && s.agent.mgr.Free() ==> forall g :: 0 <= g < |s.agent.gens| ==> !s.agent.gens[g].BeforeReturn()
  }

  predicate OlderReturned(s: Shared) {
    forall g :: 0 <= g < |s.agent.gens| - 1 ==> !s.agent.gens[g].BeforeReturn()
  }

  predicate AtMostOneUnreturned(s: Shared) {
    forall g, h :: 0 <= g < h < |s.agent.gens| ==> !s.agent.gens[g].BeforeReturn() || !s.agent.gens[h].BeforeReturn()
  }

  lemma ReturnedStays(s: Agent, step: Step, now: nat, g: nat)
    requires g < |s.gens| && !s.gens[g].BeforeReturn()
    ensures !Apply(s, step, now).gens[g].BeforeReturn()
  {
  }

  lemma StepKeepsOlderReturned(s: Shared, step: Step, now: nat)
    requires OlderReturned(s) && NoAcquireWhileUnreturned(s, step)
    ensures OlderReturned(ApplyShared(s, step, now))
  {
    var s' := ApplyShared(s, step, now);
    forall g | 0 <= g < |s'.agent.gens| - 1
      ensures !s'.agent.gens[g].BeforeReturn()
    {
      ReturnedStays(s.agent, step, now, g);
    }
  }

  lemma EarlyAcquireOverlaps(s: Shared, step: Step, now: nat)
    requires !NoAcquireWhileUnreturned(s, step)
    ensures !AtMostOneUnreturned(ApplyShared(s, step, now))
  {
    var s' := ApplyShared(s, step, now);
    var g :| 0 <= g < |s.agent.gens| && s.agent.gens[g].BeforeReturn();
    assert s'.agent.gens[g].BeforeReturn() && s'.agent.gens[|s.agent.gens|].BeforeReturn();
  }

  /** At most one Run, cancelled ones included, has not returned in every state of a run if
      and only if every Acquire waits for the earlier ones to return; and then the disk
      always holds what the newest generation has written. */
  lemma {:induction false} SoleDiskUserExactly(steps: seq<Step>)
    ensures Along(ApplyShared, START, steps, NoAcquireWhileUnreturned) <==>
            forall k: nat :: k <= |steps| ==> AtMostOneUnreturned(Run(ApplyShared, START, steps[..k]))
    ensures Along(ApplyShared, START, steps, NoAcquireWhileUnreturned) ==>
            forall k: nat :: k <= |steps| ==> OwnBytes(Run(ApplyShared, START, steps[..k]))
  {
    OlderReturnedIsInductive();
    assert Breaks<Shared, Step>(ApplyShared, NoAcquireWhileUnreturned, OlderReturned, AtMostOneUnreturned) by {
      forall s: Shared, step: Step, now: nat | OlderReturned(s) && !NoAcquireWhileUnreturned(s, step)
        ensures !AtMostOneUnreturned(ApplyShared(s, step, now))
      {
        EarlyAcquireOverlaps(s, step, now);
      }
    }
    AlongExactly<Shared, Step>(ApplyShared, START, steps, NoAcquireWhileUnreturned, OlderReturned, AtMostOneUnreturned);
    if Along(ApplyShared, START, steps, NoAcquireWhileUnreturned) {
      AlongImplies<Shared, Step>(ApplyShared, START, steps, NoAcquireWhileUnreturned, NoOverwrite, OlderReturned);
      OwnBytesExactly(steps);
    }
  }

  lemma OlderReturnedIsInductive()
    ensures Inductive<Shared, Step>(ApplyShared, NoAcquireWhileUnreturned, OlderReturned)
  {
    forall s: Shared, step: Step, now: nat | OlderReturned(s) && NoAcquireWhileUnreturned(s, step)
      ensures OlderReturned(ApplyShared(s, step, now))
    {
      StepKeepsOlderReturned(s, step, now);
    }
  }

  // ---- The code does not wait ----

  /** A generation just acquired goes on until Run has opened the disk. */
  lemma LaunchToWriting(steps: seq<Step>, s: Agent, g: nat) returns (steps': seq<Step>, s': Agent)
    requires s == Exec(INIT, steps) && g < |s.gens| && s.gens[g] == NewGen(s.gens[g].image, s.gens[g].target)
    requires s.mgr.current.Some?
    ensures s' == Exec(INIT, steps') && |s'.gens| == |s.gens| && s'.mgr.current.Some? && !s'.mgr.Free()
    ensures s'.gens[g].pc.Running? && s'.gens[g].stage == Writing && s'.gens[g].written == 0
    ensures forall h :: 0 <= h < |s.gens| && h != g ==> s'.gens[h] == s.gens[h]
  {
    steps', s' := Launch(steps, s, g);
    assert !s'.mgr.Free() && s'.gens[g].pc.Running? && s'.gens[g].stage == Preparing && s'.gens[g].written == 0;
    steps', s' := TakeMain(steps', s', g);
    steps', s' := TakeMain(steps', s', g);
  }

  lemma FirstRunWriting() returns (steps: seq<Step>, s: Agent)
    ensures s == Exec(INIT, steps) && |s.gens| == 1 && !s.mgr.Free()
    ensures s.gens[0].pc.Running? && s.gens[0].stage == Writing && s.gens[0].written == 0
  {
    steps, s := TakeAcquire([], INIT, "a", "d");
    steps, s := LaunchToWriting(steps, s, 0);
  }

  lemma BothWriting() returns (steps: seq<Step>, s: Agent)
    ensures s == Exec(INIT, steps) && |s.gens| == 2
    ensures forall g :: 0 <= g < 2 ==> s.gens[g].pc.Running? && s.gens[g].stage == Writing && s.gens[g].written == 0
  {
    steps, s := FirstRunWriting();
    steps, s := Take(steps, s, Cancel);
    steps, s := TakeAcquire(steps, s, "b", "d");
    steps, s := LaunchToWriting(steps, s, 1);
  }

  /** A cancelled Run's last write can land over what the next deployment has written. */
  lemma OverwriteReachable()
    ensures exists steps :: !OwnBytes(Run(ApplyShared, START, steps))
  {
    var steps, s := BothWriting();
    steps, s := Take(steps, s, Progress(1, 1));
    assert |s.gens| == 2 && s.gens[0].written == 0 && s.gens[1].written == 1;
    assert s.gens[0].pc.Running? && s.gens[0].stage == Writing;
    AgentAsBefore(steps);
    OverwriteDisowns(Run(ApplyShared, START, steps), Progress(0, 1), |steps| + 1);
    RunAppend<Shared, Step>(ApplyShared, START, steps, Progress(0, 1));
  }
}
