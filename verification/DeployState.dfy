/** The deployment states and the value-level specification of the agent's
    deployment manager (agent/internal/deploy/state.go).

    A context is named by the index of the `Acquire` that created it: its generation.
    `done[g]` says whether the context of generation `g` has been cancelled; the
    cancel function stored in the manager is the generation whose context it cancels. */
module DeployState {
  import opened Wrappers

  datatype State =
    | Idle
    | Validating
    | Preparing
    | Downloading
    | Writing
    | Syncing
    | Verifying
    | Completed
    | Failed
    | Cancelled
  {
    predicate IsTerminal() {
      Completed? || Failed? || Cancelled?
    }

    predicate IsRunning() {
      Validating? || Preparing? || Downloading? || Writing? || Syncing? || Verifying?
    }
  }

  datatype TaskView = TaskView(gen: nat, state: State, error: string, startedAt: int, updatedAt: int)

  datatype Mgr = Mgr(current: Option<TaskView>, cancel: Option<nat>, done: seq<bool>) {
    /** The task exists and its generation has a context; so has the stored cancel function. */
    predicate WellFormed() {
      && (current.Some? ==> current.value.gen < |done|)
      && (cancel.Some? ==> cancel.value < |done|)
    }

    predicate Free() {
      current.None? || current.value.state.IsTerminal()
    }

    predicate Busy() {
      current.Some? && current.value.state.IsRunning()
    }

    /** Acquire on a free manager, for a task whose error text is `msg`; a busy manager
        answers ErrBusy and is left alone. */
    function Acquire(msg: string, now: int): Mgr {
      if Free() then
        Mgr(Some(TaskView(|done|, Validating, msg, now, now)), Some(|done|), done + [false])
      else
        this
    }

    function SetState(s: State, msg: string, now: int): Mgr {
      if current.None? then this
      else this.(current := Some(current.value.(state := s, error := msg, updatedAt := now)))
    }

    /** Invoking the stored cancel function, if any. */
    function CancelStored(): seq<bool>
      requires WellFormed()
    {
      if cancel.None? then done else done[cancel.value := true]
    }

    function Cancel(now: int): Mgr
      requires WellFormed()
    {
      if Free() then this
      else this.(current := Some(current.value.(state := Cancelled, updatedAt := now)), done := CancelStored())
    }

    function Finish(s: State, msg: string, now: int): Mgr
      requires WellFormed()
    {
      if current.None? then this
      else SetState(s, msg, now).(cancel := None, done := CancelStored())
    }
  }

  const INITIAL := Mgr(None, None, [])

  /** Ownership of the stored cancel function: it cancels exactly the context created
      with the current task; when it is gone that context is already cancelled. */
  predicate Owned(m: Mgr) {
    && m.WellFormed()
    && (m.current.Some? <==> |m.done| > 0)
    && (m.current.Some? ==> m.current.value.gen == |m.done| - 1)
    && (m.cancel.Some? ==> m.current.Some? && m.cancel.value == m.current.value.gen)
    && (m.current.Some? && m.cancel.None? ==> m.done[m.current.value.gen])
  }

  /** Every manager operation keeps ownership, whoever calls it and in whatever order,
      and a `Cancel` that returns true (the manager was not free) has cancelled the
      context of the task it marked. */
  lemma OperationsKeepOwnership(m: Mgr, s: State, msg: string, now: int)
    requires Owned(m)
    ensures Owned(m.Acquire(msg, now)) && Owned(m.SetState(s, msg, now)) && Owned(m.Cancel(now)) && Owned(m.Finish(s, msg, now))
    ensures !m.Free() ==>
              var m' := m.Cancel(now);
              m'.current.value.state == Cancelled && m'.done[m'.current.value.gen]
    ensures m.current.Some? ==> m.Finish(s, msg, now).done[m.current.value.gen]
    ensures m.Free() ==> var m' := m.Acquire(msg, now); m'.current.value.gen == |m.done| && !m'.done[|m.done|]
  {
  }

  /** The three final states; every other one keeps the manager. */
  predicate Final(m: Mgr) {
    m.current.None? || m.current.value.state in {Completed, Failed, Cancelled}
  }

  /** What each operation leaves, field by field. */
  lemma OperationsTell(m: Mgr, s: State, msg: string, now: int)
    requires m.WellFormed()
    ensures m.Free() <==> Final(m)
    ensures m.Busy() <==> m.current.Some? && m.current.value.state in {Validating, Preparing, Downloading, Writing, Syncing, Verifying}
    ensures m.Acquire(msg, now) ==
            if Final(m) then Mgr(Some(TaskView(|m.done|, Validating, msg, now, now)), Some(|m.done|), m.done + [false]) else m
    ensures m.current.None? ==> m.SetState(s, msg, now) == m.Cancel(now) == m.Finish(s, msg, now) == m
    ensures m.current.Some? ==>
              var t := m.current.value;
              var done := if m.cancel.Some? then m.done[m.cancel.value := true] else m.done;
              && m.SetState(s, msg, now) == Mgr(Some(TaskView(t.gen, s, msg, t.startedAt, now)), m.cancel, m.done)
              && m.Cancel(now) ==
                 (if Final(m) then m else Mgr(Some(TaskView(t.gen, Cancelled, t.error, t.startedAt, now)), m.cancel, done))
              && m.Finish(s, msg, now) == Mgr(Some(TaskView(t.gen, s, msg, t.startedAt, now)), None, done)
  {
  }
}
