/**
 * The plain Metropolis simulator in Python (`python/ising.py`): a numpy grid
 * of spins filled from uniform draws, the energy and flip-delta functions with
 * Python's floored `%` for the periodic neighbours, and the sweep loop that
 * negates grid entries in place.
 */
module PyIsing {
  import opened Lattice
  import opened Hamiltonian
  import opened Acceptance
  import opened Metropolis
  import Arith

  /** `plusminusone`: 1 when the draw exceeds one half, -1 otherwise. */
  function PlusMinusOne(draw: real): (s: int)
    ensures s == 1 || s == -1
    ensures s == 1 <==> draw > 0.5
  {
    if draw > 0.5 then 1 else -1
  }

  /** `initialize`: a fresh `gridSize` by `gridSize` grid, filled in row-major order from one draw per site. */
  method Initialize(gridSize: nat, draws: seq<seq<real>>) returns (model: array2<int>)
    requires IsShape(draws, gridSize, gridSize)
    ensures fresh(model)
    ensures model.Length0 == gridSize && model.Length1 == gridSize
    ensures forall i, j :: 0 <= i < gridSize && 0 <= j < gridSize ==> model[i, j] == PlusMinusOne(draws[i][j])
    ensures IsSpinGrid(Snapshot(model))
  {
    model := new int[gridSize, gridSize]((i, j) => 0);
    var i := 0;
    while i < gridSize
      invariant 0 <= i <= gridSize
      invariant forall i', j :: 0 <= i' < i && 0 <= j < gridSize ==> model[i', j] == PlusMinusOne(draws[i'][j])
    {
      var j := 0;
      while j < gridSize
        invariant 0 <= j <= gridSize
        invariant forall i', j' :: 0 <= i' < i && 0 <= j' < gridSize ==> model[i', j'] == PlusMinusOne(draws[i'][j'])
        invariant forall j' :: 0 <= j' < j ==> model[i, j'] == PlusMinusOne(draws[i][j'])
      {
        model[i, j] := PlusMinusOne(draws[i][j]);
        j := j + 1;
      }
      i := i + 1;
    }
  }

  /**
   * The four periodic neighbours of `(i, j)` as `calculateEnergy` and
   * `spinFlipEnergyChange` read them, with Python's `%` by the grid's
   * dimensions: the model's neighbour sum.
   */
  function Neighbours(model: array2<int>, nrows: nat, ncols: nat, i: int, j: int): (s: int)
    reads model
    requires model.Length0 == nrows && model.Length1 == ncols
    requires 0 <= i < nrows && 0 <= j < ncols
    ensures s == NeighbourSum(Snapshot(model), i, j)
  {
    NeighbourSumByMod(Snapshot(model), i, j);
    model[i, (j + 1) % ncols] + model[i, (j - 1) % ncols] +
    model[(i + 1) % nrows, j] + model[(i - 1) % nrows, j]
  }

  /** What `calculateEnergy` adds for site `(i, j)`: its spin times its four neighbours. */
  function SiteTerm(model: array2<int>, nrows: nat, ncols: nat, i: int, j: int): (t: int)
    reads model
    requires model.Length0 == nrows && model.Length1 == ncols
    requires 0 <= i < nrows && 0 <= j < ncols
    ensures t == PartAt(Snapshot(model), Whole, i, j)
  {
    var currentSpin := model[i, j];
    currentSpin * Neighbours(model, nrows, ncols, i, j)
  }

  /**
   * `calculateEnergy`: the sum of `s * (4 neighbours)` over an `nrows` by
   * `ncols` grid, negated and halved with `int(... / 2)`. It equals the
   * model's energy exactly, because the raw sum is even.
   */
  method CalculateEnergy(model: array2<int>) returns (e: int)
    requires model.Length0 > 0
    ensures e == Energy(Snapshot(model))
  {
    ghost var g := Snapshot(model);
    var energy := 0;
    var nrows, ncols := model.Length0, model.Length1;
    assert |g| == nrows && Cols(g) == ncols;
    var i := 0;
    while i < nrows
      invariant 0 <= i <= nrows
      invariant energy == GridSum(g, Whole, i)
    {
      var j := 0;
      while j < ncols
        invariant 0 <= j <= ncols
        invariant energy == GridSum(g, Whole, i) + RowSum(g, Whole, i, j)
      {
        energy := energy + SiteTerm(model, nrows, ncols, i, j);
        j := j + 1;
      }
      assert energy == GridSum(g, Whole, i + 1);
      i := i + 1;
    }
    HalvingIsExact(g);
    e := Arith.TruncToInt((-energy) as real / 2.0);
  }

  /** `spinFlipEnergyChange`: the flip delta of the site, read from the grid in place. */
  function SpinFlipEnergyChange(model: array2<int>, x: int, y: int): (dE: int)
    reads model
    requires 0 <= x < model.Length0 && 0 <= y < model.Length1
    ensures dE == FlipDelta(Snapshot(model), x, y)
  {
    2 * model[x, y] * Neighbours(model, model.Length0, model.Length1, x, y)
  }

  /**
   * The body of one proposal in `MonteCarloLoop`: draw a row and a column,
   * and negate that site in place when `exp(-beta * dE) > draw`.
   */
  method Propose(model: array2<int>, expf: real -> real, beta: real, p: Proposal)
    requires model.Length0 > 0 && model.Length1 > 0 && IsProposal(p)
    modifies model
    ensures Snapshot(model) == Step(ExpAboveDraw, expf, beta, old(Snapshot(model)), p)
  {
    ghost var current := Snapshot(model);
    var randX := Arith.ScaledFloor(p.rx, model.Length0);
    var randY := Arith.ScaledFloor(p.ry, model.Length1);
    var dE := SpinFlipEnergyChange(model, randX, randY);
    StepAt(ExpAboveDraw, expf, beta, current, p, randX, randY, dE);
    if Accepts(ExpAboveDraw, expf, beta, dE, p.u) {
      FlipAt(model, randX, randY);
    }
  }

  /** One sweep of `MonteCarloLoop`: `nrows * ncols` proposals, applied in place one after another. */
  method Sweep(model: array2<int>, expf: real -> real, beta: real, proposals: seq<Proposal>)
    requires model.Length0 > 0 && model.Length1 > 0
    requires |proposals| == model.Length0 * model.Length1
    requires forall k :: 0 <= k < |proposals| ==> IsProposal(proposals[k])
    modifies model
    ensures Snapshot(model) == Run(ExpAboveDraw, expf, beta, old(Snapshot(model)), proposals)
  {
    ghost var before := Snapshot(model);
    var stepsPerSweep := model.Length0 * model.Length1;
    var step := 0;
    while step < stepsPerSweep
      invariant 0 <= step <= stepsPerSweep
      invariant Snapshot(model) == Run(ExpAboveDraw, expf, beta, before, proposals[..step])
    {
      Propose(model, expf, beta, proposals[step]);
      RunPrefix(ExpAboveDraw, expf, beta, before, proposals, step);
      step := step + 1;
    }
    assert proposals[..step] == proposals;
  }

  /**
   * `MonteCarloLoop`: for each sweep, `nrows * ncols` proposals, applied in
   * place. The grid ends as the Metropolis sweeps of its initial contents.
   */
  method MonteCarloLoop(model: array2<int>, expf: real -> real, beta: real, sweeps: seq<seq<Proposal>>)
    requires model.Length0 > 0 && model.Length1 > 0
    requires forall n :: 0 <= n < |sweeps| ==> |sweeps[n]| == model.Length0 * model.Length1
    requires forall n, k :: 0 <= n < |sweeps| && 0 <= k < |sweeps[n]| ==> IsProposal(sweeps[n][k])
    modifies model
    ensures Snapshot(model) == Sweeps(ExpAboveDraw, expf, beta, old(Snapshot(model)), sweeps)
  {
    ghost var start := Snapshot(model);
    var sweep := 0;
    while sweep < |sweeps|
      invariant 0 <= sweep <= |sweeps|
      invariant Snapshot(model) == Sweeps(ExpAboveDraw, expf, beta, start, sweeps[..sweep])
    {
      Sweep(model, expf, beta, sweeps[sweep]);
      SweepsPrefix(ExpAboveDraw, expf, beta, start, sweeps, sweep);
      sweep := sweep + 1;
    }
    assert sweeps[..sweep] == sweeps;
  }
}
