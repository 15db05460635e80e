/**
 Runs of a transition function, and what its steps emit.
 */
module Traces {

  function RunAll<S, A>(next: (S, A) -> S, s: S, run: seq<A>): S {
    if run == [] then s else next(RunAll(next, s, run[..|run| - 1]), run[|run| - 1])
  }

  function Emitted<S, A, E>(next: (S, A) -> S, emit: (S, A) -> seq<E>, s: S, run: seq<A>): seq<E> {
    if run == [] then []
    else
      var init := run[..|run| - 1];
      Emitted(next, emit, s, init) + emit(RunAll(next, s, init), run[|run| - 1])
  }

  lemma {:induction false} RunAllConcat<S, A>(next: (S, A) -> S, s: S, a: seq<A>, b: seq<A>)
    ensures RunAll(next, s, a + b) == RunAll(next, RunAll(next, s, a), b)
  {
    if b == [] {
      assert a + b == a;
    } else {
      RunAllConcat(next, s, a, b[..|b| - 1]);
      assert (a + b)[..|a + b| - 1] == a + b[..|b| - 1];
    }
  }

  /** What one run emits after the other adds up. */
  lemma {:induction false} EmittedConcat<S, A, E>(
    next: (S, A) -> S, emit: (S, A) -> seq<E>, s: S, a: seq<A>, b: seq<A>)
    ensures Emitted(next, emit, s, a + b)
            == Emitted(next, emit, s, a) + Emitted(next, emit, RunAll(next, s, a), b)
  {
    if b == [] {
      assert a + b == a;
    } else {
      EmittedConcat(next, emit, s, a, b[..|b| - 1]);
      RunAllConcat(next, s, a, b[..|b| - 1]);
      assert (a + b)[..|a + b| - 1] == a + b[..|b| - 1];
    }
  }

  lemma {:induction false} EmittedPrefix<S, A, E>(
    next: (S, A) -> S, emit: (S, A) -> seq<E>, s: S, run: seq<A>, n: nat)
    requires n <= |run|
    ensures Emitted(next, emit, s, run[..n]) <= Emitted(next, emit, s, run)
  {
    if n == |run| {
      assert run[..n] == run;
    } else {
      var init := run[..|run| - 1];
      EmittedPrefix(next, emit, s, init, n);
      assert init[..n] == run[..n];
    }
  }

  /** Where every step emits at most one thing, the step behind the one at place `k`. */
  lemma {:induction false} EmissionPlace<S, A, E>(
    next: (S, A) -> S, emit: (S, A) -> seq<E>, s: S, run: seq<A>, k: nat) returns (n: nat)
    requires forall t: S, a: A :: |emit(t, a)| <= 1
    requires k < |Emitted(next, emit, s, run)|
    ensures n < |run|
    ensures |Emitted(next, emit, s, run[..n])| == k && |Emitted(next, emit, s, run[..n + 1])| == k + 1
  {
    var init := run[..|run| - 1];
    if k < |Emitted(next, emit, s, init)| {
      n := EmissionPlace(next, emit, s, init, k);
      assert init[..n] == run[..n] && init[..n + 1] == run[..n + 1];
    } else {
      n := |run| - 1;
      assert run[..n + 1] == run;
    }
  }
}
