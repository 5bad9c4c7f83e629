/**
 * The Metropolis acceptance test. The exponential function comes from the
 * caller, constrained only by `exp(t) >= 1` for `t >= 0`; the uniform draw is
 * an input.
 */
module Acceptance {

  /** What the model assumes of the maths library's `exp`: at least 1 on non-negative arguments. */
  ghost predicate ExpAtLeastOne(expf: real -> real)
  {
    forall t: real :: t >= 0.0 ==> expf(t) >= 1.0
  }

  /** The two forms the acceptance test takes in the programs. */
  datatype Rule =
    | /** `exp(-beta * dE) > u`: accept with probability `min(1, exp(-beta * dE))`. */
      ExpAboveDraw
    | /** `exp(-beta * dE > u)`: the comparison is taken first and `exp` of the boolean is the condition. */
      ExpOfComparison

  /** Whether a proposed flip with energy change `dE` is accepted against the draw `u`. */
  function Accepts(rule: Rule, expf: real -> real, beta: real, dE: int, u: real): bool
  {
    match rule
    case ExpAboveDraw => expf(-beta * dE as real) > u
    case ExpOfComparison => expf(if -beta * dE as real > u then 1.0 else 0.0) != 0.0
  }

  /** A flip that does not raise the energy is always accepted, at any non-negative inverse temperature. */
  lemma DownhillAccepted(expf: real -> real, beta: real, dE: int, u: real)
    requires ExpAtLeastOne(expf) && beta >= 0.0 && dE <= 0 && u < 1.0
    ensures Accepts(ExpAboveDraw, expf, beta, dE, u)
  {
    assert -beta * dE as real == beta * (-dE) as real;
    assert beta * (-dE) as real >= 0.0;
  }

  /** With the comparison inside `exp`, every proposal is accepted whatever its energy change and draw. */
  lemma MisplacedParenthesisAcceptsAll(expf: real -> real, beta: real, dE: int, u: real)
    requires ExpAtLeastOne(expf)
    ensures Accepts(ExpOfComparison, expf, beta, dE, u)
  {
    var b := if -beta * dE as real > u then 1.0 else 0.0;
    assert b >= 0.0;
  }

  /**
   * The two forms disagree: at inverse temperature 1/2 a flip that raises the
   * energy by 8 is rejected against the draw 1/2 by the intended test (for any
   * exponential with `exp(-4) < 1/2`) but accepted by the misplaced form.
   */
  lemma MisplacedParenthesisAcceptsUphill(expf: real -> real)
    requires ExpAtLeastOne(expf) && expf(-4.0) < 0.5
    ensures !Accepts(ExpAboveDraw, expf, 0.5, 8, 0.5)
    ensures Accepts(ExpOfComparison, expf, 0.5, 8, 0.5)
  {
    MisplacedParenthesisAcceptsAll(expf, 0.5, 8, 0.5);
  }
}
