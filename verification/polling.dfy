/** The polling loop behind `PolledControllerWrapper::start`
    (src/execution/polled_controller.rs), stated for any state and any step:
    apply the step until the state is done, giving up after `fuel` steps. */
module Polling {

  /** The state after `k` steps from `s`. */
  function Iterate<S>(step: S -> S, s: S, k: nat): S
    decreases k
  {
    if k == 0 then s else step(Iterate(step, s, k - 1))
  }

  /** None of the states after 0 .. n - 1 steps is done. */
  predicate NoneBefore<S>(step: S -> S, done: S -> bool, s: S, n: nat)
    decreases n
  {
    n == 0 || (NoneBefore(step, done, s, n - 1) && !done(Iterate(step, s, n - 1)))
  }

  /** Reading `NoneBefore` at one earlier step count. */
  lemma {:induction false} NoneBeforeMeans<S>(step: S -> S, done: S -> bool, s: S, n: nat, k: nat)
    requires NoneBefore(step, done, s, n) && k < n
    ensures !done(Iterate(step, s, k))
    decreases n
  {
    if k < n - 1 {
      NoneBeforeMeans(step, done, s, n - 1, k);
    }
  }

  /** Conversely, a prefix with no done state satisfies `NoneBefore`. */
  lemma {:induction false} NoneBeforeFromAll<S>(step: S -> S, done: S -> bool, s: S, n: nat)
    requires forall k :: 0 <= k < n ==> !done(Iterate(step, s, k))
    ensures NoneBefore(step, done, s, n)
    decreases n
  {
    if n > 0 {
      NoneBeforeFromAll(step, done, s, n - 1);
    }
  }

  /** A step count reached with no earlier done state is the first done
      state: any step count whose state is done comes at or after it. */
  lemma FirstDoneIsFirst<S>(step: S -> S, done: S -> bool, s: S, n: nat, k: nat)
    requires NoneBefore(step, done, s, n) && done(Iterate(step, s, k))
    ensures n <= k
  {
    if k < n {
      NoneBeforeMeans(step, done, s, n, k);
    }
  }

  /** A property every step keeps holds after any number of steps. */
  lemma {:induction false} IterateKeeps<S>(step: S -> S, keep: S -> bool, s: S, k: nat)
    requires keep(s)
    requires forall t :: keep(t) ==> keep(step(t))
    ensures keep(Iterate(step, s, k))
    decreases k
  {
    if k > 0 {
      IterateKeeps(step, keep, s, k - 1);
    }
  }

  /** Under a property every step keeps, a measure every step raises by
      one has grown by exactly the number of steps. */
  lemma {:induction false} IterateCounts<S>(step: S -> S, keep: S -> bool, measure: S -> int, s: S, k: nat)
    requires keep(s)
    requires forall t :: keep(t) ==> keep(step(t)) && measure(step(t)) == measure(t) + 1
    ensures keep(Iterate(step, s, k)) && measure(Iterate(step, s, k)) == measure(s) + k
    decreases k
  {
    if k > 0 {
      IterateCounts(step, keep, measure, s, k - 1);
    }
  }

  /** The loop: stops at the first done state, or after `fuel` steps. */
  method Poll<S>(s: S, step: S -> S, done: S -> bool, fuel: nat) returns (r: S, n: nat)
    ensures n <= fuel && r == Iterate(step, s, n)
    ensures NoneBefore(step, done, s, n)
    ensures n < fuel ==> done(r)
  {
    r := s;
    n := 0;
    while !done(r) && n < fuel
      invariant n <= fuel && r == Iterate(step, s, n)
      invariant NoneBefore(step, done, s, n)
      decreases fuel - n
    {
      r := step(r);
      n := n + 1;
    }
  }
}
