/** Counting sets of natural numbers. */
module Finite {
  /** A set of numbers below n has at most n elements, and is all of them when it has n. */
  lemma {:induction false} Bounded(s: set<nat>, n: nat)
    requires forall x :: x in s ==> x < n
    ensures |s| <= n
    ensures |s| == n ==> forall i :: 0 <= i < n ==> i in s
  {
    if n > 0 {
      Bounded(s - {n - 1}, n - 1);
    }
  }
}
