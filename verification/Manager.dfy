/** The deployment manager as the object the agent shares between its goroutines
    (agent/internal/deploy/state.go). Each method is one section under `m.mu`; its
    contract gives the whole new state as the corresponding function on `Mgr`. */
module Manager {
  import opened Wrappers
  import opened DeployState

  /** A context that only its own cancel function cancels (its parent is Background). */
  class Context {
    var done: bool

    constructor ()
      ensures !done
    {
      done := false;
    }

    method CancelFunc()
      modifies this
      ensures done
    {
      done := true;
    }
  }

  /** What a client is shown of a task. */
  datatype Shown = Shown(imageID: string, target: string, state: State, error: string, startedAt: int, updatedAt: int)

  class Task {
    const imageID: string
    const target: string
    var state: State
    var error: string
    var startedAt: int
    var updatedAt: int
    ghost var gen: nat

    constructor (imageID: string, target: string)
      ensures this.imageID == imageID && this.target == target && error == ""
    {
      this.imageID, this.target := imageID, target;
      state, error, startedAt, updatedAt, gen := Idle, "", 0, 0, 0;
    }
  }

  class Manager {
    var current: Task?
    var cancel: Context?
    ghost var contexts: seq<Context>  // every context Acquire has created, in order

    ghost predicate Valid()
      reads this, current
    {
      && (forall i, j :: 0 <= i < j < |contexts| ==> contexts[i] != contexts[j])
      && (cancel != null ==> cancel in contexts)
      && (current != null ==> current.gen < |contexts|)
    }

    ghost function IndexOf(c: Context): (i: nat)
      requires c in contexts
      reads this
      ensures i < |contexts| && contexts[i] == c
    {
      var i :| 0 <= i < |contexts| && contexts[i] == c;
      i
    }

    ghost function Abs(): (m: Mgr)
      requires Valid()
      reads this, current, contexts
      ensures m.WellFormed() && |m.done| == |contexts|
    {
      Mgr(
        if current == null then None
        else Some(TaskView(current.gen, current.state, current.error, current.startedAt, current.updatedAt)),
        if cancel == null then None else Some(IndexOf(cancel)),
        seq(|contexts|, i requires 0 <= i < |contexts| reads this, contexts => contexts[i].done))
    }

    constructor ()
      ensures Valid() && Abs() == DeployState.INITIAL
    {
      current, cancel, contexts := null, null, [];
    }

    method Acquire(t: Task, now: int) returns (ctx: Context?)
      requires Valid()
      modifies this, t
      ensures Valid() && Abs() == old(Abs()).Acquire(old(t.error), now)
      ensures (ctx != null) == old(Abs()).Free()
      ensures ctx != null ==> fresh(ctx) && current == t && cancel == ctx && contexts == old(contexts) + [ctx]
      ensures ctx == null ==> unchanged(this) && unchanged(t)
    {
      if current != null && !current.state.IsTerminal() {
        return null;
      }
      ctx := new Context();
      t.startedAt := now;
      t.updatedAt := t.startedAt;
      t.state := Validating;
      t.gen := |contexts|;
      current := t;
      cancel := ctx;
      contexts := contexts + [ctx];
      assert Abs().done == old(Abs()).done + [false];
    }

    method SetState(s: State, errMsg: string, now: int)
      requires Valid()
      modifies current
      ensures Valid() && Abs() == old(Abs()).SetState(s, errMsg, now)
    {
      if current == null {
        return;
      }
      current.state := s;
      current.error := errMsg;
      current.updatedAt := now;
    }

    /** A copy of the current task, which later changes to the task do not reach. */
    method Snapshot() returns (task: Shown, ok: bool)
      requires Valid()
      ensures ok == Abs().current.Some?
      ensures !ok ==> task == Shown("", "", Idle, "", 0, 0)
      ensures ok ==>
                var t := Abs().current.value;
                task == Shown(current.imageID, current.target, t.state, t.error, t.startedAt, t.updatedAt)
    {
      if current == null {
        return Shown("", "", Idle, "", 0, 0), false;
      }
      return Shown(current.imageID, current.target, current.state, current.error, current.startedAt, current.updatedAt), true;
    }

    method Cancel(now: int) returns (ok: bool)
      requires Valid()
      modifies current, contexts
      ensures Valid() && Abs() == old(Abs()).Cancel(now)
      ensures ok == !old(Abs()).Free()
    {
      if current == null || current.state.IsTerminal() {
        return false;
      }
      if cancel != null {
        cancel.CancelFunc();
      }
      current.state := Cancelled;
      current.updatedAt := now;
      assert Abs().done == old(Abs().CancelStored());
      return true;
    }

    method Finish(s: State, errMsg: string, now: int)
      requires Valid()
      modifies this`cancel, current, contexts
      ensures Valid() && Abs() == old(Abs()).Finish(s, errMsg, now)
    {
      if current == null {
        return;
      }
      current.state := s;
      current.error := errMsg;
      current.updatedAt := now;
      if cancel != null {
        cancel.CancelFunc();
        cancel := null;
      }
      assert Abs().done == old(Abs().CancelStored());
    }

    method IsRunning() returns (running: bool)
      requires Valid()
      ensures running == Abs().Busy()
    {
      running := current != null && current.state.IsRunning();
    }
  }
}
