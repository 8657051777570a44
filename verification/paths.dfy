/** Reachability under an arbitrary step relation, with a bound on the
    number of steps. Resolution instantiates it with the moves of the
    saturation loop. */
module Paths {

  /** `b` is reached from `a` by at most `n` steps. */
  ghost predicate Reaches<T(!new)>(step: (T, T) -> bool, a: T, b: T, n: nat)
    decreases n
  {
    a == b || (n > 0 && exists m :: step(a, m) && Reaches(step, m, b, n - 1))
  }

  /** The first step of a path between different points. */
  lemma ReachesFirst<T(!new)>(step: (T, T) -> bool, a: T, b: T, n: nat) returns (m: T)
    requires a != b && Reaches(step, a, b, n)
    ensures n > 0 && step(a, m) && Reaches(step, m, b, n - 1)
  {
    m :| step(a, m) && Reaches(step, m, b, n - 1);
  }

  lemma ReachesCons<T(!new)>(step: (T, T) -> bool, a: T, m: T, c: T, n: nat)
    requires n > 0 && step(a, m) && Reaches(step, m, c, n - 1)
    ensures Reaches(step, a, c, n)
  {
  }

  /** A larger bound admits every path a smaller one does. */
  lemma {:induction false} ReachesMonotone<T(!new)>(step: (T, T) -> bool, a: T, b: T, n: nat, k: nat)
    requires Reaches(step, a, b, n) && n <= k
    ensures Reaches(step, a, b, k)
    decreases n
  {
    if a != b {
      var m := ReachesFirst(step, a, b, n);
      ReachesMonotone(step, m, b, n - 1, k - 1);
      ReachesCons(step, a, m, b, k);
    }
  }

  /** Paths compose, and their bounds add up. */
  lemma {:induction false} ReachesTrans<T(!new)>(step: (T, T) -> bool, a: T, b: T, c: T, n1: nat, n2: nat, n: nat)
    requires Reaches(step, a, b, n1) && Reaches(step, b, c, n2) && n1 + n2 <= n
    ensures Reaches(step, a, c, n)
    decreases n1
  {
    if a != b {
      var m := ReachesFirst(step, a, b, n1);
      ReachesTrans(step, m, b, c, n1 - 1, n2, n - 1);
      ReachesCons(step, a, m, c, n);
    } else {
      ReachesMonotone(step, b, c, n2, n);
    }
  }
}
