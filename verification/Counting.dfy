/** Counting the ticks of a schedule, and the steps of a run. */
module Counting {

  /** The ticks that satisfy `f`. */
  function Ticks<T>(run: seq<T>, f: T -> bool): (n: nat)
    ensures n <= |run|
  {
    if run == [] then 0
    else Ticks(run[..|run| - 1], f) + if f(run[|run| - 1]) then 1 else 0
  }

  lemma {:induction false} TicksAdd<T>(run: seq<T>, f: T -> bool, g: T -> bool, h: T -> bool)
    requires forall c :: c in run ==> (h(c) <==> f(c) || g(c)) && !(f(c) && g(c))
    ensures Ticks(run, h) == Ticks(run, f) + Ticks(run, g)
  {
    if run != [] {
      TicksAdd(run[..|run| - 1], f, g, h);
    }
  }

  lemma {:induction false} TicksNone<T>(run: seq<T>, f: T -> bool)
    requires forall c :: c in run ==> !f(c)
    ensures Ticks(run, f) == 0
  {
    if run != [] {
      TicksNone(run[..|run| - 1], f);
    }
  }

  lemma {:induction false} TicksAll<T>(run: seq<T>, f: T -> bool)
    requires forall c :: c in run ==> f(c)
    ensures Ticks(run, f) == |run|
  {
    if run != [] {
      TicksAll(run[..|run| - 1], f);
    }
  }

  /** Ticks that only come from place x on are no more than are left. */
  lemma {:induction false} TicksFrom<T>(run: seq<T>, f: T -> bool, x: nat)
    requires forall y :: 0 <= y < |run| && f(run[y]) ==> x <= y
    ensures x <= |run| ==> Ticks(run, f) <= |run| - x
    ensures x > |run| ==> Ticks(run, f) == 0
  {
    if run != [] {
      TicksFrom(run[..|run| - 1], f, x);
    }
  }

  /** A run in two parts. */
  lemma {:induction false} TicksSplit<T>(run: seq<T>, x: nat, f: T -> bool)
    requires x <= |run|
    ensures Ticks(run, f) == Ticks(run[..x], f) + Ticks(run[x..], f)
  {
    if x < |run| {
      var rest := run[..|run| - 1];
      TicksSplit(rest, x, f);
      assert rest[..x] == run[..x] && run[x..][..|run| - x - 1] == rest[x..];
    } else {
      assert run[..x] == run;
    }
  }

  /** The steps of a run from state i to state j that satisfy `f`. */
  function Steps<T>(run: seq<T>, i: nat, j: nat, f: (T, T) -> bool): nat
    requires i <= j < |run|
  {
    if i == j then 0 else Steps(run, i, j - 1, f) + if f(run[j - 1], run[j]) then 1 else 0
  }

  /** What each step keeps, counting steps of two kinds, holds with their numbers. */
  lemma {:induction false} StepsKeep<T(!new)>(run: seq<T>, i: nat, j: nat, next: (T, T) -> bool, f: (T, T) -> bool,
                                              g: (T, T) -> bool, holds: (T, nat, nat) -> bool)
    requires i <= j < |run| && holds(run[i], 0, 0) && forall k :: i <= k < j ==> next(run[k], run[k + 1])
    requires forall s, s', m: nat, n: nat :: next(s, s') && holds(s, m, n) ==>
      holds(s', m + if f(s, s') then 1 else 0, n + if g(s, s') then 1 else 0)
    ensures holds(run[j], Steps(run, i, j, f), Steps(run, i, j, g))
  {
    if i < j {
      var k := j - 1;
      StepsKeep(run, i, k, next, f, g, holds);
      assert next(run[k], run[k + 1]);
    }
  }
}
