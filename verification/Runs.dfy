/** Runs of a transition system given by a total step function. The position of a step
    in its run is passed to the step function and serves as a clock. */
module Runs {
  function Run<S, T>(apply: (S, T, nat) -> S, s: S, steps: seq<T>): S
    decreases |steps|
  {
    if steps == [] then s
    else apply(Run(apply, s, steps[..|steps| - 1]), steps[|steps| - 1], |steps|)
  }

  /** A hypothesis on runs: every step satisfies `ok` in the state where it is taken. */
  ghost predicate Along<S, T>(apply: (S, T, nat) -> S, s: S, steps: seq<T>, ok: (S, T) -> bool)
    decreases |steps|
  {
    steps == [] ||
    (Along(apply, s, steps[..|steps| - 1], ok) && ok(Run(apply, s, steps[..|steps| - 1]), steps[|steps| - 1]))
  }

  ghost predicate Inductive<S(!new), T(!new)>(apply: (S, T, nat) -> S, ok: (S, T) -> bool, inv: S -> bool) {
    forall s: S, t: T, n: nat :: inv(s) && ok(s, t) ==> inv(apply(s, t, n))
  }

  lemma {:induction false} RunKeeps<S(!new), T(!new)>(
    apply: (S, T, nat) -> S, s: S, steps: seq<T>, ok: (S, T) -> bool, inv: S -> bool)
    requires inv(s) && Inductive(apply, ok, inv) && Along(apply, s, steps, ok)
    ensures inv(Run(apply, s, steps))
    decreases |steps|
  {
    if steps != [] {
      RunKeeps(apply, s, steps[..|steps| - 1], ok, inv);
    }
  }

  /** What holds after a prefix and is kept by every step that meets the hypothesis holds at
      the end. */
  lemma {:induction false} RunKeepsFrom<S(!new), T(!new)>(
    apply: (S, T, nat) -> S, s: S, steps: seq<T>, ok: (S, T) -> bool, inv: S -> bool, k: nat)
    requires k <= |steps| && inv(Run(apply, s, steps[..k]))
    requires Inductive(apply, ok, inv) && Along(apply, s, steps, ok)
    ensures inv(Run(apply, s, steps))
    decreases |steps|
  {
    if k == |steps| {
      assert steps[..k] == steps;
    } else {
      assert steps[..|steps| - 1][..k] == steps[..k];
      RunKeepsFrom(apply, s, steps[..|steps| - 1], ok, inv, k);
    }
  }

  lemma {:induction false} AlongPrefix<S, T>(apply: (S, T, nat) -> S, s: S, steps: seq<T>, ok: (S, T) -> bool, k: nat)
    requires k <= |steps| && Along(apply, s, steps, ok)
    ensures Along(apply, s, steps[..k], ok)
    decreases |steps|
  {
    if k == |steps| {
      assert steps[..k] == steps;
    } else {
      assert steps[..|steps| - 1][..k] == steps[..k];
      AlongPrefix(apply, s, steps[..|steps| - 1], ok, k);
    }
  }

  /** A hypothesis that follows from an invariant of another one. */
  lemma {:induction false} AlongImplies<S(!new), T(!new)>(
    apply: (S, T, nat) -> S, s: S, steps: seq<T>, ok: (S, T) -> bool, weaker: (S, T) -> bool, inv: S -> bool)
    requires inv(s) && Inductive(apply, ok, inv) && Along(apply, s, steps, ok)
    requires forall x: S, t: T :: inv(x) && ok(x, t) ==> weaker(x, t)
    ensures Along(apply, s, steps, weaker)
    decreases |steps|
  {
    if steps != [] {
      AlongImplies(apply, s, steps[..|steps| - 1], ok, weaker, inv);
      RunKeeps(apply, s, steps[..|steps| - 1], ok, inv);
    }
  }

  lemma {:induction false} RunAppend<S, T>(apply: (S, T, nat) -> S, s: S, a: seq<T>, t: T)
    ensures Run(apply, s, a + [t]) == apply(Run(apply, s, a), t, |a| + 1)
  {
    assert (a + [t])[..|a|] == a;
  }

  /** Kept by every step whatever, with no hypothesis. */
  ghost predicate Stable<S(!new), T(!new)>(apply: (S, T, nat) -> S, inv: S -> bool) {
    forall s: S, t: T, n: nat :: inv(s) ==> inv(apply(s, t, n))
  }

  /** What holds after a prefix and is stable holds at the end. */
  lemma {:induction false} StableHolds<S(!new), T(!new)>(
    apply: (S, T, nat) -> S, s: S, steps: seq<T>, inv: S -> bool, k: nat)
    requires k <= |steps| && inv(Run(apply, s, steps[..k])) && Stable(apply, inv)
    ensures inv(Run(apply, s, steps))
    decreases |steps|
  {
    if k == |steps| {
      assert steps[..k] == steps;
    } else {
      assert steps[..|steps| - 1][..k] == steps[..k];
      StableHolds(apply, s, steps[..|steps| - 1], inv, k);
    }
  }

  /** A step that does not satisfy `ok` leads out of `good`. */
  ghost predicate Breaks<S(!new), T(!new)>(apply: (S, T, nat) -> S, ok: (S, T) -> bool, inv: S -> bool, good: S -> bool) {
    forall s: S, t: T, n: nat :: inv(s) && !ok(s, t) ==> !good(apply(s, t, n))
  }

  /** Under `hyp`, steps that satisfy `ok` keep `inv`, and steps that do not lead out of `good`. */
  ghost predicate Decides<S(!new), T(!new)>(
    apply: (S, T, nat) -> S, hyp: (S, T) -> bool, ok: (S, T) -> bool, inv: S -> bool, good: S -> bool)
  {
    forall s: S, t: T, n: nat :: inv(s) && hyp(s, t) ==> if ok(s, t) then inv(apply(s, t, n)) else !good(apply(s, t, n))
  }

  /** A condition that decides is exact: along every run that meets the hypothesis, it holds
      if and only if every state on the way is good. */
  lemma {:induction false} AlongExactlyUnder<S(!new), T(!new)>(
    apply: (S, T, nat) -> S, s: S, steps: seq<T>, hyp: (S, T) -> bool, ok: (S, T) -> bool, inv: S -> bool, good: S -> bool)
    requires inv(s) && Along(apply, s, steps, hyp) && Decides(apply, hyp, ok, inv, good)
    requires forall x: S :: inv(x) ==> good(x)
    ensures Along(apply, s, steps, ok) <==> forall k: nat :: k <= |steps| ==> good(Run(apply, s, steps[..k]))
    ensures Along(apply, s, steps, ok) ==> inv(Run(apply, s, steps))
    decreases |steps|
  {
    assert steps[..|steps|] == steps;
    if steps != [] {
      var prefix := steps[..|steps| - 1];
      assert forall k: nat :: k <= |prefix| ==> prefix[..k] == steps[..k];
      AlongExactlyUnder(apply, s, prefix, hyp, ok, inv, good);
    }
  }

  lemma {:induction false} AlongAny<S(!new), T(!new)>(apply: (S, T, nat) -> S, s: S, steps: seq<T>, any: (S, T) -> bool)
    requires forall x: S, t: T :: any(x, t)
    ensures Along(apply, s, steps, any)
    decreases |steps|
  {
    if steps != [] {
      AlongAny(apply, s, steps[..|steps| - 1], any);
    }
  }

  /** The same with no hypothesis. */
  lemma {:induction false} AlongExactly<S(!new), T(!new)>(
    apply: (S, T, nat) -> S, s: S, steps: seq<T>, ok: (S, T) -> bool, inv: S -> bool, good: S -> bool)
    requires inv(s) && Inductive(apply, ok, inv) && Breaks(apply, ok, inv, good)
    requires forall x: S :: inv(x) ==> good(x)
    ensures Along(apply, s, steps, ok) <==> forall k: nat :: k <= |steps| ==> good(Run(apply, s, steps[..k]))
    ensures Along(apply, s, steps, ok) ==> inv(Run(apply, s, steps))
  {
    var any := (x: S, t: T) => true;
    AlongAny(apply, s, steps, any);
    assert Decides(apply, any, ok, inv, good);
    AlongExactlyUnder(apply, s, steps, any, ok, inv, good);
  }
}
