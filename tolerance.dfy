/** Tolerance-aware comparison of tableau cells.
    Every sign and termination test of the solver goes through these
    relations, which compare with a fixed absolute tolerance EPS. */
module Tolerance {

  /** The absolute tolerance 1e-4. */
  const EPS: real := 1.0 / 10000.0

  function Abs(x: real): (r: real)
    ensures r >= 0.0
    ensures r == x || r == -x
  {
    if x < 0.0 then -x else x
  }

  /** `a` and `b` are within EPS of each other. */
  function IsClose(a: real, b: real): (r: bool)
    ensures r <==> (a - b <= EPS && b - a <= EPS)
  {
    Abs(a - b) <= EPS
  }

  /** `a` exceeds `b` by more than the tolerance. */
  function EpsilonGreaterThan(a: real, b: real): (r: bool)
    ensures r <==> a - b > EPS
  {
    a > b && !IsClose(a, b)
  }

  /** `a` is at least `b`, up to the tolerance. */
  function EpsilonGreaterThanEqualTo(a: real, b: real): (r: bool)
    ensures r <==> a >= b - EPS
  {
    a > b || IsClose(a, b)
  }

  /** `a` falls short of `b` by more than the tolerance. */
  function EpsilonLessThan(a: real, b: real): (r: bool)
    ensures r <==> b - a > EPS
  {
    a < b && !IsClose(a, b)
  }

  /** `a` is at most `b`, up to the tolerance. */
  function EpsilonLessThanEqualTo(a: real, b: real): (r: bool)
    ensures r <==> a <= b + EPS
  {
    a < b || IsClose(a, b)
  }

  /** Closeness does not depend on the order of the arguments. */
  lemma IsCloseSymmetric(a: real, b: real)
    ensures IsClose(a, b) == IsClose(b, a)
  {
  }

  /** "at least" and "strictly less" are complementary, and so are
      "at most" and "strictly greater". */
  lemma ComparatorsComplementary(a: real, b: real)
    ensures EpsilonGreaterThanEqualTo(a, b) <==> !EpsilonLessThan(a, b)
    ensures EpsilonLessThanEqualTo(a, b) <==> !EpsilonGreaterThan(a, b)
  {
  }

  /** Swapping the arguments turns each strict relation into its mirror. */
  lemma ComparatorsMirror(a: real, b: real)
    ensures EpsilonGreaterThan(a, b) <==> EpsilonLessThan(b, a)
    ensures EpsilonGreaterThanEqualTo(a, b) <==> EpsilonLessThanEqualTo(b, a)
  {
  }
}
