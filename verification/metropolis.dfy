/**
 * The single-site Metropolis step shared by the Python and C++ simulators: a
 * proposal draws a row and a column uniformly, the flip delta of that site is
 * computed from the current grid, and the site is negated when the acceptance
 * test passes. A run applies a sequence of proposals in order.
 */
module Metropolis {
  import opened Lattice
  import opened Hamiltonian
  import opened Acceptance
  import Arith

  /** The three uniform draws one proposal consumes, in the order the programs take them. */
  datatype Proposal = Proposal(rx: real, ry: real, u: real)

  predicate IsDraw(d: real)
  {
    0.0 <= d < 1.0
  }

  predicate IsProposal(p: Proposal)
  {
    IsDraw(p.rx) && IsDraw(p.ry) && IsDraw(p.u)
  }

  /** A grid on which a site can be proposed. */
  predicate IsLattice(g: Grid)
  {
    IsRect(g) && |g| > 0 && Cols(g) > 0
  }

  /** `floor(rand() * nrows)`, `floor(rand() * ncols)`. */
  function ProposedRow(g: Grid, p: Proposal): int
    requires IsDraw(p.rx)
  {
    Arith.ScaledFloor(p.rx, |g|)
  }

  function ProposedCol(g: Grid, p: Proposal): int
    requires IsDraw(p.ry)
  {
    Arith.ScaledFloor(p.ry, Cols(g))
  }

  /** The proposed site always lies inside the grid. */
  lemma ProposalInGrid(g: Grid, p: Proposal)
    requires IsLattice(g) && IsProposal(p)
    ensures 0 <= ProposedRow(g, p) < |g| && 0 <= ProposedCol(g, p) < Cols(g)
    ensures InGrid(g, ProposedRow(g, p), ProposedCol(g, p))
  {
  }

  /** Whether the proposal's flip passes the acceptance test on `g`. */
  predicate Accepted(rule: Rule, expf: real -> real, beta: real, g: Grid, p: Proposal)
    requires IsLattice(g) && IsProposal(p)
  {
    Accepts(rule, expf, beta, FlipDelta(g, ProposedRow(g, p), ProposedCol(g, p)), p.u)
  }

  /** One proposal: negate the proposed site if the test passes, else leave the grid as it is. */
  function Step(rule: Rule, expf: real -> real, beta: real, g: Grid, p: Proposal): (r: Grid)
    requires IsLattice(g) && IsProposal(p)
    ensures IsLattice(r) && |r| == |g| && Cols(r) == Cols(g)
  {
    var x, y := ProposedRow(g, p), ProposedCol(g, p);
    if Accepted(rule, expf, beta, g, p) then Flip(g, x, y) else g
  }

  /** A step, given the proposed site and its flip delta as a program computes them. */
  lemma StepAt(rule: Rule, expf: real -> real, beta: real, g: Grid, p: Proposal, x: int, y: int, dE: int)
    requires IsLattice(g) && IsProposal(p)
    requires x == Arith.ScaledFloor(p.rx, |g|) && y == Arith.ScaledFloor(p.ry, Cols(g))
    requires dE == FlipDelta(g, x, y)
    ensures Step(rule, expf, beta, g, p) == if Accepts(rule, expf, beta, dE, p.u) then Flip(g, x, y) else g
  {
  }

  /** Proposals applied one after another. */
  function Run(rule: Rule, expf: real -> real, beta: real, g: Grid, ps: seq<Proposal>): (r: Grid)
    requires IsLattice(g) && forall k :: 0 <= k < |ps| ==> IsProposal(ps[k])
    ensures IsLattice(r) && |r| == |g| && Cols(r) == Cols(g)
    decreases |ps|
  {
    if |ps| == 0 then g else Run(rule, expf, beta, Step(rule, expf, beta, g, ps[0]), ps[1..])
  }

  /** Sweeps applied one after another, each a run of proposals. */
  function Sweeps(rule: Rule, expf: real -> real, beta: real, g: Grid, sweeps: seq<seq<Proposal>>): (r: Grid)
    requires IsLattice(g)
    requires forall n, k :: 0 <= n < |sweeps| && 0 <= k < |sweeps[n]| ==> IsProposal(sweeps[n][k])
    ensures IsLattice(r) && |r| == |g| && Cols(r) == Cols(g)
    decreases |sweeps|
  {
    if |sweeps| == 0 then g
    else Sweeps(rule, expf, beta, Run(rule, expf, beta, g, sweeps[0]), sweeps[1..])
  }

  /** Running a prefix and then one more proposal is the run of the longer prefix. */
  lemma {:induction false} RunSnoc(rule: Rule, expf: real -> real, beta: real, g: Grid, ps: seq<Proposal>, p: Proposal)
    requires IsLattice(g) && (forall k :: 0 <= k < |ps| ==> IsProposal(ps[k])) && IsProposal(p)
    ensures Run(rule, expf, beta, g, ps + [p]) == Step(rule, expf, beta, Run(rule, expf, beta, g, ps), p)
    decreases |ps|
  {
    if |ps| > 0 {
      assert (ps + [p])[1..] == ps[1..] + [p];
      RunSnoc(rule, expf, beta, Step(rule, expf, beta, g, ps[0]), ps[1..], p);
    }
  }

  lemma {:induction false} SweepsSnoc(rule: Rule, expf: real -> real, beta: real, g: Grid,
                                      sweeps: seq<seq<Proposal>>, ps: seq<Proposal>)
    requires IsLattice(g)
    requires forall n, k :: 0 <= n < |sweeps| && 0 <= k < |sweeps[n]| ==> IsProposal(sweeps[n][k])
    requires forall k :: 0 <= k < |ps| ==> IsProposal(ps[k])
    ensures Sweeps(rule, expf, beta, g, sweeps + [ps]) == Run(rule, expf, beta, Sweeps(rule, expf, beta, g, sweeps), ps)
    decreases |sweeps|
  {
    if |sweeps| > 0 {
      assert (sweeps + [ps])[1..] == sweeps[1..] + [ps];
      SweepsSnoc(rule, expf, beta, Run(rule, expf, beta, g, sweeps[0]), sweeps[1..], ps);
    }
  }

  /** The run of the first `k + 1` proposals is one step after the run of the first `k`. */
  lemma RunPrefix(rule: Rule, expf: real -> real, beta: real, g: Grid, ps: seq<Proposal>, k: int)
    requires IsLattice(g) && (forall i :: 0 <= i < |ps| ==> IsProposal(ps[i])) && 0 <= k < |ps|
    ensures Run(rule, expf, beta, g, ps[..k + 1]) == Step(rule, expf, beta, Run(rule, expf, beta, g, ps[..k]), ps[k])
  {
    assert ps[..k + 1] == ps[..k] + [ps[k]];
    RunSnoc(rule, expf, beta, g, ps[..k], ps[k]);
  }

  /** The first `k + 1` sweeps are one run after the first `k`. */
  lemma SweepsPrefix(rule: Rule, expf: real -> real, beta: real, g: Grid, sweeps: seq<seq<Proposal>>, k: int)
    requires IsLattice(g) && 0 <= k < |sweeps|
    requires forall n, i :: 0 <= n < |sweeps| && 0 <= i < |sweeps[n]| ==> IsProposal(sweeps[n][i])
    ensures Sweeps(rule, expf, beta, g, sweeps[..k + 1]) == Run(rule, expf, beta, Sweeps(rule, expf, beta, g, sweeps[..k]), sweeps[k])
  {
    assert sweeps[..k + 1] == sweeps[..k] + [sweeps[k]];
    SweepsSnoc(rule, expf, beta, g, sweeps[..k], sweeps[k]);
  }

  /**
   * A step negates exactly the proposed site when the test passes and changes
   * nothing otherwise; every other site keeps its value.
   */
  lemma StepChangesOnlyProposedSite(rule: Rule, expf: real -> real, beta: real, g: Grid, p: Proposal)
    requires IsLattice(g) && IsProposal(p)
    ensures var x, y := ProposedRow(g, p), ProposedCol(g, p);
      var r := Step(rule, expf, beta, g, p);
      && InGrid(g, x, y)
      && r[x][y] == (if Accepted(rule, expf, beta, g, p) then -g[x][y] else g[x][y])
      && forall i, j :: InGrid(g, i, j) && (i != x || j != y) ==> r[i][j] == g[i][j]
  {
  }

  /** A step keeps every entry a spin. */
  lemma StepKeepsSpins(rule: Rule, expf: real -> real, beta: real, g: Grid, p: Proposal)
    requires IsLattice(g) && IsProposal(p) && IsSpinGrid(g)
    ensures IsSpinGrid(Step(rule, expf, beta, g, p))
  {
    var x, y := ProposedRow(g, p), ProposedCol(g, p);
    FlipKeepsSpins(g, x, y);
  }

  lemma {:induction false} RunKeepsSpins(rule: Rule, expf: real -> real, beta: real, g: Grid, ps: seq<Proposal>)
    requires IsLattice(g) && (forall k :: 0 <= k < |ps| ==> IsProposal(ps[k])) && IsSpinGrid(g)
    ensures IsSpinGrid(Run(rule, expf, beta, g, ps))
    decreases |ps|
  {
    if |ps| > 0 {
      StepKeepsSpins(rule, expf, beta, g, ps[0]);
      RunKeepsSpins(rule, expf, beta, Step(rule, expf, beta, g, ps[0]), ps[1..]);
    }
  }

  /** All spins stay +1 or -1 through every sweep. */
  lemma {:induction false} SweepsKeepSpins(rule: Rule, expf: real -> real, beta: real, g: Grid, sweeps: seq<seq<Proposal>>)
    requires IsLattice(g) && IsSpinGrid(g)
    requires forall n, k :: 0 <= n < |sweeps| && 0 <= k < |sweeps[n]| ==> IsProposal(sweeps[n][k])
    ensures IsSpinGrid(Sweeps(rule, expf, beta, g, sweeps))
    decreases |sweeps|
  {
    if |sweeps| > 0 {
      RunKeepsSpins(rule, expf, beta, g, sweeps[0]);
      SweepsKeepSpins(rule, expf, beta, Run(rule, expf, beta, g, sweeps[0]), sweeps[1..]);
    }
  }

  /**
   * On a grid of at least two rows and two columns, an accepted step changes
   * the energy by exactly the flip delta its acceptance test used; a rejected one
   * leaves it as it is.
   */
  lemma StepEnergy(rule: Rule, expf: real -> real, beta: real, g: Grid, p: Proposal)
    requires IsLattice(g) && IsProposal(p) && |g| >= 2 && Cols(g) >= 2
    ensures var x, y := ProposedRow(g, p), ProposedCol(g, p);
      Energy(Step(rule, expf, beta, g, p))
        == Energy(g) + if Accepted(rule, expf, beta, g, p) then FlipDelta(g, x, y) else 0
  {
    var x, y := ProposedRow(g, p), ProposedCol(g, p);
    FlipChangesEnergy(g, x, y);
  }

  /** With the intended test, a step that does not raise the energy always flips. */
  lemma DownhillStepFlips(expf: real -> real, beta: real, g: Grid, p: Proposal)
    requires IsLattice(g) && IsProposal(p) && ExpAtLeastOne(expf) && beta >= 0.0
    requires FlipDelta(g, ProposedRow(g, p), ProposedCol(g, p)) <= 0
    ensures Step(ExpAboveDraw, expf, beta, g, p) == Flip(g, ProposedRow(g, p), ProposedCol(g, p))
  {
    DownhillAccepted(expf, beta, FlipDelta(g, ProposedRow(g, p), ProposedCol(g, p)), p.u);
  }

  /** Every proposed site negated in turn, with no test at all. */
  function FlipAll(g: Grid, ps: seq<Proposal>): (r: Grid)
    requires IsLattice(g) && forall k :: 0 <= k < |ps| ==> IsProposal(ps[k])
    ensures IsLattice(r) && |r| == |g| && Cols(r) == Cols(g)
    decreases |ps|
  {
    if |ps| == 0 then g
    else
      var p := ps[0];
      assert IsProposal(p);
      FlipAll(Flip(g, ProposedRow(g, p), ProposedCol(g, p)), ps[1..])
  }

  /**
   * With the comparison inside `exp`, a run of proposals is the same as
   * negating every proposed site: the energy change plays no part.
   */
  lemma {:induction false} MisplacedParenthesisFlipsAll(expf: real -> real, beta: real, g: Grid, ps: seq<Proposal>)
    requires IsLattice(g) && (forall k :: 0 <= k < |ps| ==> IsProposal(ps[k])) && ExpAtLeastOne(expf)
    ensures Run(ExpOfComparison, expf, beta, g, ps) == FlipAll(g, ps)
    decreases |ps|
  {
    if |ps| > 0 {
      var x, y := ProposedRow(g, ps[0]), ProposedCol(g, ps[0]);
      MisplacedParenthesisAcceptsAll(expf, beta, FlipDelta(g, x, y), ps[0].u);
      MisplacedParenthesisFlipsAll(expf, beta, Flip(g, x, y), ps[1..]);
    }
  }
}
