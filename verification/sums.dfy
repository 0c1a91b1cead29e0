/**
 * Sums of point values: the plain sum `sum(...)` of a sequence of reals, and the sum
 * restricted to a set of chosen indices (the gold steps already consumed).
 */
module Sums {

  /** Python's `sum(xs)` over exact reals (no floating-point rounding). */
  function Sum(xs: seq<real>): real
  {
    if xs == [] then 0.0 else Sum(xs[..|xs| - 1]) + xs[|xs| - 1]
  }

  predicate AllNonNegative(xs: seq<real>)
  {
    forall i :: 0 <= i < |xs| ==> 0.0 <= xs[i]
  }

  /** The sum of `xs[i]` over the indices `i < n` that lie in `chosen`. */
  function SumOver(xs: seq<real>, chosen: set<nat>, n: nat): real
    requires n <= |xs|
  {
    if n == 0 then 0.0
    else SumOver(xs, chosen, n - 1) + (if n - 1 in chosen then xs[n - 1] else 0.0)
  }

  lemma {:induction false} SumAppend(xs: seq<real>, x: real)
    ensures Sum(xs + [x]) == Sum(xs) + x
  {
    assert (xs + [x])[..|xs|] == xs;
  }

  /** Adding a fresh index to the chosen set adds exactly that index's value. */
  lemma {:induction false} SumOverInsert(xs: seq<real>, chosen: set<nat>, j: nat, n: nat)
    requires n <= |xs|
    requires j !in chosen
    ensures SumOver(xs, chosen + {j}, n) == SumOver(xs, chosen, n) + (if j < n then xs[j] else 0.0)
  {
    if n > 0 {
      SumOverInsert(xs, chosen, j, n - 1);
    }
  }

  /** With non-negative values, a restricted sum lies between zero and the full sum. */
  lemma {:induction false} SumOverBounds(xs: seq<real>, chosen: set<nat>, n: nat)
    requires n <= |xs|
    requires AllNonNegative(xs)
    ensures 0.0 <= SumOver(xs, chosen, n) <= Sum(xs[..n])
  {
    if n > 0 {
      SumOverBounds(xs, chosen, n - 1);
      assert xs[..n][..n - 1] == xs[..n - 1];
    }
  }

  /** Choosing every index below `n` gives the full sum of the prefix. */
  lemma {:induction false} SumOverEverything(xs: seq<real>, chosen: set<nat>, n: nat)
    requires n <= |xs|
    requires forall i :: 0 <= i < n ==> i in chosen
    ensures SumOver(xs, chosen, n) == Sum(xs[..n])
  {
    if n > 0 {
      SumOverEverything(xs, chosen, n - 1);
      assert xs[..n][..n - 1] == xs[..n - 1];
    }
  }

  lemma {:induction false} SumOverNothing(xs: seq<real>, n: nat)
    requires n <= |xs|
    ensures SumOver(xs, {}, n) == 0.0
  {
    if n > 0 {
      SumOverNothing(xs, n - 1);
    }
  }

  /** For a positive denominator, a quotient is one exactly when the two sides agree, and at most one below it. */
  lemma {:induction false} Quotient(x: real, y: real)
    requires 0.0 <= x <= y && 0.0 < y
    ensures 0.0 <= x / y <= 1.0
    ensures x / y == 1.0 <==> x == y
  {
  }
}
