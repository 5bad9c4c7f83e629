/**
 * The heat-bath simulator in Python (`python/ising_with_heatbath.py`) as one
 * object: the spin grid and the per-sweep series are fixed-size buffers that
 * `initialize`, `colorSwap`, `MonteCarloLoop` and `EnergyAnalysis` update in
 * place. The program keeps them as module globals; here they are the fields
 * of a `Simulation`.
 */
module HeatBath {
  import opened Lattice
  import opened Hamiltonian
  import opened Acceptance
  import opened Colors
  import opened ColorPass
  import opened Statistics
  import Arith
  import PyIsing

  /** The sum of a row. */
  function RowTotal(r: seq<int>): int
    decreases |r|
  {
    if |r| == 0 then 0 else RowTotal(r[..|r| - 1]) + r[|r| - 1]
  }

  /** `np.sum(isingModel)`: the total spin. */
  function Magnetization(g: Grid): int
    decreases |g|
  {
    if |g| == 0 then 0 else Magnetization(g[..|g| - 1]) + RowTotal(g[|g| - 1])
  }

  /** A row of spins sums to at most its length in absolute value. */
  lemma {:induction false} RowTotalBound(r: seq<int>)
    requires forall j :: 0 <= j < |r| ==> r[j] == 1 || r[j] == -1
    ensures -|r| <= RowTotal(r) <= |r|
    decreases |r|
  {
    if |r| > 0 {
      RowTotalBound(r[..|r| - 1]);
    }
  }

  /** The total spin of an `m` by `n` grid of spins lies in `[-m n, m n]`. */
  lemma {:induction false} MagnetizationBound(g: Grid, n: nat)
    requires IsShape(g, |g|, n) && IsSpinGrid(g)
    ensures -(|g| * n) <= Magnetization(g) <= |g| * n
    decreases |g|
  {
    if |g| > 0 {
      var m := |g| - 1;
      MagnetizationBound(g[..m], n);
      RowTotalBound(g[m]);
      assert |g| * n == m * n + n;
    }
  }

  /** The energy series as floats (exact reals). */
  function Reals(xs: seq<int>): (rs: seq<real>)
    ensures |rs| == |xs|
    ensures forall i :: 0 <= i < |xs| ==> rs[i] == xs[i] as real
  {
    seq(|xs|, i requires 0 <= i < |xs| => xs[i] as real)
  }

  /** A running average reads only the entries up to its index. */
  lemma RunningAverageOfPrefix(xs: seq<real>, ys: seq<real>, i: nat)
    requires i < |xs| && i < |ys| && xs[..i + 1] == ys[..i + 1]
    ensures RunningAverage(xs, i) == RunningAverage(ys, i)
  {
  }

  /**
   * `calculateEnergy`: the sum of `s * (4 neighbours)` with Python's `%`
   * for the periodic neighbours, turned into `int(-0.5 * energy)`. It is
   * the model's energy exactly, because the raw sum is even.
   */
  method CalculateEnergy(isingModel: array2<int>, simulationSize: nat) returns (e: int)
    requires simulationSize > 0 && isingModel.Length0 == simulationSize && isingModel.Length1 == simulationSize
    ensures e == Energy(Snapshot(isingModel))
  {
    ghost var g := Snapshot(isingModel);
    assert |g| == simulationSize && Cols(g) == simulationSize;
    var energy := 0;
    var i := 0;
    while i < simulationSize
      invariant 0 <= i <= simulationSize
      invariant energy == GridSum(g, Whole, i)
    {
      var j := 0;
      while j < simulationSize
        invariant 0 <= j <= simulationSize
        invariant energy == GridSum(g, Whole, i) + RowSum(g, Whole, i, j)
      {
        var term := PyIsing.SiteTerm(isingModel, simulationSize, simulationSize, i, j);
        assert term == PartAt(g, Whole, i, j);
        assert RowSum(g, Whole, i, j + 1) == RowSum(g, Whole, i, j) + term;
        energy := energy + term;
        j := j + 1;
      }
      assert energy == GridSum(g, Whole, i + 1);
      i := i + 1;
    }
    HalvingIsExact(g);
    e := Arith.TruncToInt(-0.5 * energy as real);
  }

  /**
   * The in-place assignment of `colorSwap`: each listed site whose flag is
   * set is negated, one site at a time in list order.
   */
  method FlipAccepted(isingModel: array2<int>, cells: seq<(int, int)>, flags: seq<bool>)
    requires 0 < isingModel.Length0 == isingModel.Length1
    requires InRange(isingModel.Length0, cells) && |flags| == |cells|
    modifies isingModel
    ensures Snapshot(isingModel) == FlipPrefix(old(Snapshot(isingModel)), cells, flags, |cells|)
  {
    ghost var g := Snapshot(isingModel);
    var k := 0;
    while k < |cells|
      invariant 0 <= k <= |cells|
      invariant Snapshot(isingModel) == FlipPrefix(g, cells, flags, k)
    {
      if flags[k] {
        FlipAt(isingModel, cells[k].0, cells[k].1);
      }
      k := k + 1;
    }
  }

  /** Squaring an integer energy and then converting it to a float agrees with squaring the float. */
  lemma SquareAsReal(e: int)
    ensures (e * e) as real == (e as real) * (e as real)
  {
  }

  /** Equal floats have equal squares. */
  lemma SquareOfEqual(a: real, b: real)
    requires a == b
    ensures a * a == b * b
  {
  }

  /**
   * One step of `EnergyAnalysis` written with the values it reads: the heat
   * capacity from the running average of the squares and the squared
   * running average is the heat capacity of the series at that index.
   */
  lemma HeatCapacityFrom(beta: real, perParticle: real, es: seq<real>, i: nat,
                         squaredAverage: real, average: real, averageSquared: real)
    requires i < |es|
    requires squaredAverage == RunningAverage(Squares(es), i)
    requires average == RunningAverage(es, i) && averageSquared == average * average
    ensures (beta * beta) * perParticle * (squaredAverage - averageSquared) == HeatCapacities(beta, perParticle, es)[i]
  {
  }

  /** The square of the running average is the squared-average entry at that index. */
  lemma AverageSquaredFrom(es: seq<real>, i: nat, average: real)
    requires i < |es| && average == RunningAverage(es, i)
    ensures average * average == AveragesSquared(es)[i]
  {
  }

  /**
   * Series filled to their full length with the reference values are,
   * entry by entry, the squared energies, the running averages of the
   * energies and of their squares, and the squares of those averages.
   */
  lemma AnalysisComplete(energy: seq<int>, squares: seq<real>, averages: seq<real>,
                         squaredAverages: seq<real>, averagesSquared: seq<real>)
    requires var n := |energy|; var es := Reals(energy);
      && |squares| == n && |averages| == n && |squaredAverages| == n && |averagesSquared| == n
      && squares[..n] == Squares(es)[..n] && averages[..n] == RunningAverages(es)[..n]
      && squaredAverages[..n] == RunningAverages(Squares(es))[..n]
      && averagesSquared[..n] == AveragesSquared(es)[..n]
    ensures forall k :: 0 <= k < |energy| ==> squares[k] == (energy[k] * energy[k]) as real
    ensures forall k :: 0 <= k < |energy| ==> averages[k] == RunningAverage(Reals(energy), k)
    ensures forall k :: 0 <= k < |energy| ==> squaredAverages[k] == RunningAverage(Squares(Reals(energy)), k)
    ensures forall k :: 0 <= k < |energy| ==> averagesSquared[k] == averages[k] * averages[k]
  {
    var n, es := |energy|, Reals(energy);
    assert squares == Squares(es) && averages == RunningAverages(es);
    assert squaredAverages == RunningAverages(Squares(es)) && averagesSquared == AveragesSquared(es);
    forall k | 0 <= k < n
      ensures squares[k] == (energy[k] * energy[k]) as real
      ensures averagesSquared[k] == averages[k] * averages[k]
    {
      SquareAsReal(energy[k]);
      SquareOfEqual(averages[k], RunningAverage(es, k));
    }
  }

  class Simulation {
    /** `simulation_size`: the grid is `size` by `size`. */
    const size: nat
    /** `number_of_sweeps`: the series have one entry per sweep plus the initial one. */
    const sweeps: nat
    /** `inv_temperature`. */
    const beta: real
    /** `per_particle`: one over the number of sites. */
    const perParticle: real
    /** `isingModel`, negated in place by the colour passes. */
    const model: array2<int>
    /** `energy_array`. */
    var energy: seq<int>
    /** `magnitizationSquared_array`. */
    var magnetizationSquared: seq<int>
    /** `energySquared_array`. */
    var energySquared: seq<real>
    /** `energyAverage_array`. */
    var energyAverage: seq<real>
    /** `energySquared_average_array`. */
    var energySquaredAverage: seq<real>
    /** `energyAverage_squared_array`. */
    var energyAverageSquared: seq<real>
    /** `heatCapacity_array`. */
    var heatCapacity: seq<real>

    /** The grid is `size` by `size` and every series has `sweeps + 1` entries. */
    predicate Valid()
      reads this
    {
      && size > 0 && model.Length0 == size && model.Length1 == size
      && perParticle > 0.0
      && |energy| == sweeps + 1 && |magnetizationSquared| == sweeps + 1
      && |energySquared| == sweeps + 1 && |energyAverage| == sweeps + 1
      && |energySquaredAverage| == sweeps + 1 && |energyAverageSquared| == sweeps + 1
      && |heatCapacity| == sweeps + 1
    }

    /**
     * `startProgram` and `initialize`: the constants of the run, a grid of
     * spins with one draw per site, every series zero except its first entry,
     * which records the energy, its square and the squared magnetization of
     * the initial grid.
     */
    constructor (gridSize: nat, numberOfSweeps: nat, temperature: real, draws: seq<seq<real>>)
      requires gridSize > 0 && temperature != 0.0
      requires IsShape(draws, gridSize, gridSize)
      ensures Valid() && fresh(model)
      ensures size == gridSize && sweeps == numberOfSweeps && beta == 1.0 / temperature
      ensures perParticle == 1.0 / ((gridSize * gridSize) as real)
      ensures forall i, j :: 0 <= i < size && 0 <= j < size ==> model[i, j] == PyIsing.PlusMinusOne(draws[i][j])
      ensures IsSpinGrid(Snapshot(model))
      ensures energy[0] == Energy(Snapshot(model))
      ensures energySquared[0] == (energy[0] * energy[0]) as real
      ensures magnetizationSquared[0] == Magnetization(Snapshot(model)) * Magnetization(Snapshot(model))
      ensures forall i :: 1 <= i <= sweeps ==> energy[i] == 0 && magnetizationSquared[i] == 0 && energySquared[i] == 0.0
      ensures forall i :: 0 <= i <= sweeps ==> energyAverage[i] == 0.0 && energySquaredAverage[i] == 0.0
      ensures forall i :: 0 <= i <= sweeps ==> energyAverageSquared[i] == 0.0 && heatCapacity[i] == 0.0
    {
      var isingModel := PyIsing.Initialize(gridSize, draws);
      var e := CalculateEnergy(isingModel, gridSize);
      var m := Magnetization(Snapshot(isingModel));
      var stepsPerSweep := gridSize * gridSize;
      Arith.MulAtLeast(gridSize, gridSize);
      var zeros := seq(numberOfSweeps + 1, _ => 0.0);
      size := gridSize;
      sweeps := numberOfSweeps;
      beta := 1.0 / temperature;
      perParticle := 1.0 / (stepsPerSweep as real);
      model := isingModel;
      energy := seq(numberOfSweeps + 1, _ => 0)[0 := e];
      energySquared := zeros[0 := (e * e) as real];
      magnetizationSquared := seq(numberOfSweeps + 1, _ => 0)[0 := m * m];
      energySquaredAverage := zeros;
      energyAverageSquared := zeros;
      heatCapacity := zeros;
      energyAverage := zeros;
    }

    /**
     * `colorSwap`: every flip delta of the colour's sites read from the grid
     * before the pass (`color_dE`), one test per site against its draw
     * (`color_prob`), the accepted sites negated in place, and the accepted
     * deltas (`energySum`) added to `energy_array[sweep]`. No other entry of
     * the series and no site of another colour changes.
     */
    method ColorSwap(c: Color, sweep: nat, expf: real -> real, us: seq<real>)
      requires Valid() && sweep <= sweeps && |us| == |ColorCells(size, c)|
      modifies model, this`energy
      ensures Valid()
      ensures Snapshot(model) == Pass(old(Snapshot(model)), c, expf, beta, us)
      ensures energy[sweep] == old(energy[sweep]) + PassSum(old(Snapshot(model)), c, expf, beta, us)
      ensures forall s :: 0 <= s <= sweeps && s != sweep ==> energy[s] == old(energy[s])
    {
      var cells := ColorCells(size, c);
      var colorDE := Deltas(Snapshot(model), cells);
      var colorProb := Decisions(expf, beta, colorDE, us);
      FlipAccepted(model, cells, colorProb);
      var energySum := AcceptedSum(colorDE, colorProb, |cells|);
      energy := energy[sweep := energy[sweep] + energySum];
    }

    /**
     * One sweep of `MonteCarloLoop`: the previous energy is copied into the
     * sweep's entry and the four colour passes run in turn, so the grid
     * becomes `SweepGrid` of its previous contents and the entry grows by
     * `SweepSum`; no other entry changes.
     */
    method Sweep(sweep: nat, expf: real -> real, d: SweepDraws)
      requires Valid() && 1 <= sweep <= sweeps && FitsGrid(size, d)
      modifies model, this`energy
      ensures Valid()
      ensures Snapshot(model) == SweepGrid(old(Snapshot(model)), expf, beta, d)
      ensures energy[sweep] == old(energy[sweep - 1]) + SweepSum(old(Snapshot(model)), expf, beta, d)
      ensures forall s :: 0 <= s <= sweeps && s != sweep ==> energy[s] == old(energy[s])
    {
      energy := energy[sweep := energy[sweep - 1]];
      ColorSwap(Red, sweep, expf, d.red);
      ColorSwap(Blue, sweep, expf, d.blue);
      ColorSwap(Green, sweep, expf, d.green);
      ColorSwap(Yellow, sweep, expf, d.yellow);
    }

    /**
     * Sweep number `sweep` of a run that started from grid `g0` with entry 0
     * equal to `e0`: it carries the grid and the record of the first
     * `sweep - 1` sweeps on to the first `sweep`.
     */
    method NextSweep(sweep: nat, expf: real -> real, draws: seq<SweepDraws>, ghost g0: Grid, ghost e0: int)
      requires Valid() && 1 <= sweep <= sweeps && |draws| == sweeps && AllFit(size, draws) && IsModel(g0) && |g0| == size
      requires AllFit(size, draws[..sweep - 1]) && Snapshot(model) == Evolve(g0, expf, beta, draws[..sweep - 1])
      requires energy[sweep - 1] == Recorded(e0, g0, expf, beta, draws[..sweep - 1])
      modifies model, this`energy
      ensures Valid() && AllFit(size, draws[..sweep])
      ensures Snapshot(model) == Evolve(g0, expf, beta, draws[..sweep])
      ensures energy[sweep] == Recorded(e0, g0, expf, beta, draws[..sweep])
      ensures forall s :: 0 <= s <= sweeps && s != sweep ==> energy[s] == old(energy[s])
    {
      EvolvePrefix(e0, g0, expf, beta, draws, sweep - 1);
      Sweep(sweep, expf, draws[sweep - 1]);
    }

    /**
     * `MonteCarloLoop`: for each sweep, copy the previous energy into the
     * sweep's entry, then run the red, blue, green and yellow passes. The
     * grid ends as `Evolve` of its initial contents, entry 0 of the energy
     * series is kept and every later entry `s` holds the record after `s`
     * sweeps, which `RecordsAreEnergies` shows to be the energy of the grid
     * at that time when entry 0 is the energy of the initial grid.
     */
    method MonteCarloLoop(expf: real -> real, draws: seq<SweepDraws>)
      requires Valid() && |draws| == sweeps && AllFit(size, draws)
      modifies model, this`energy
      ensures Valid()
      ensures Snapshot(model) == Evolve(old(Snapshot(model)), expf, beta, draws)
      ensures energy[0] == old(energy[0])
      ensures forall s :: 0 <= s <= sweeps ==>
                AllFit(size, draws[..s]) && energy[s] == Recorded(old(energy[0]), old(Snapshot(model)), expf, beta, draws[..s])
    {
      ghost var g0, e0 := Snapshot(model), energy[0];
      PrefixesFit(size, draws);
      var sweep := 1;
      while sweep <= sweeps
        invariant 1 <= sweep <= sweeps + 1 && Valid()
        invariant Snapshot(model) == Evolve(g0, expf, beta, draws[..sweep - 1])
        invariant forall s :: 0 <= s < sweep ==> energy[s] == Recorded(e0, g0, expf, beta, draws[..s])
      {
        NextSweep(sweep, expf, draws, g0, e0);
        sweep := sweep + 1;
      }
      assert draws[..sweeps] == draws;
    }

    /** The squared energies and the two running averages agree with their reference values on the first `i` entries. */
    ghost predicate AveragedUpTo(es: seq<real>, i: nat)
      reads this
      requires Valid() && i <= sweeps + 1 && |es| == sweeps + 1
    {
      && energySquared[..i] == Squares(es)[..i]
      && energyAverage[..i] == RunningAverages(es)[..i]
      && energySquaredAverage[..i] == RunningAverages(Squares(es))[..i]
    }

    /** The squared averages and the heat capacities agree with their reference values on the first `i` entries. */
    ghost predicate CapacitiesUpTo(es: seq<real>, i: nat)
      reads this
      requires Valid() && i <= sweeps + 1 && |es| == sweeps + 1
    {
      && energyAverageSquared[..i] == AveragesSquared(es)[..i]
      && heatCapacity[..i] == HeatCapacities(beta, perParticle, es)[..i]
    }

    /**
     * The first half of an iteration of `EnergyAnalysis`: entry `i` of the
     * squared energies, then of the running averages of the energies and of
     * the squared energies just written.
     */
    method AverageEntry(i: nat, ghost es: seq<real>)
      requires Valid() && i <= sweeps && es == Reals(energy) && AveragedUpTo(es, i)
      modifies this`energySquared, this`energyAverage, this`energySquaredAverage
      ensures Valid() && AveragedUpTo(es, i + 1)
      ensures energyAverage[i] == RunningAverage(es, i)
      ensures energySquaredAverage[i] == RunningAverage(Squares(es), i)
    {
      var square := (energy[i] * energy[i]) as real;
      SquareAsReal(energy[i]);
      SquareOfEqual(es[i], energy[i] as real);
      ExtendPrefix(energySquared, Squares(es), i, square);
      energySquared := energySquared[i := square];
      RunningAverageOfPrefix(energySquared, Squares(es), i);

      var average := RunningAverage(Reals(energy), i);
      ExtendPrefix(energyAverage, RunningAverages(es), i, average);
      energyAverage := energyAverage[i := average];

      var squaredAverage := RunningAverage(energySquared, i);
      ExtendPrefix(energySquaredAverage, RunningAverages(Squares(es)), i, squaredAverage);
      energySquaredAverage := energySquaredAverage[i := squaredAverage];
    }

    /**
     * The second half of an iteration of `EnergyAnalysis`: entry `i` of the
     * squared average and of the heat capacity, from the averages at `i`.
     */
    method CapacityEntry(i: nat, ghost es: seq<real>)
      requires Valid() && i <= sweeps && |es| == sweeps + 1 && CapacitiesUpTo(es, i)
      requires energyAverage[i] == RunningAverage(es, i)
      requires energySquaredAverage[i] == RunningAverage(Squares(es), i)
      modifies this`energyAverageSquared, this`heatCapacity
      ensures Valid() && CapacitiesUpTo(es, i + 1)
    {
      var average, squaredAverage := energyAverage[i], energySquaredAverage[i];
      var averageSquared := average * average;
      AverageSquaredFrom(es, i, average);
      ExtendPrefix(energyAverageSquared, AveragesSquared(es), i, averageSquared);
      energyAverageSquared := energyAverageSquared[i := averageSquared];

      var capacity := (beta * beta) * perParticle * (squaredAverage - averageSquared);
      HeatCapacityFrom(beta, perParticle, es, i, squaredAverage, average, averageSquared);
      ExtendPrefix(heatCapacity, HeatCapacities(beta, perParticle, es), i, capacity);
      heatCapacity := heatCapacity[i := capacity];
    }

    /**
     * `EnergyAnalysis`: for every index, the squared energy, the running
     * averages of the energy and of its square, the squared average, and the
     * heat capacity from them. Each heat capacity is non-negative, and the
     * first one is zero.
     */
    method EnergyAnalysis()
      requires Valid()
      modifies this`energySquared, this`energyAverage, this`energySquaredAverage
      modifies this`energyAverageSquared, this`heatCapacity
      ensures Valid()
      ensures forall i :: 0 <= i <= sweeps ==> energySquared[i] == (energy[i] * energy[i]) as real
      ensures forall i :: 0 <= i <= sweeps ==> energyAverage[i] == RunningAverage(Reals(energy), i)
      ensures forall i :: 0 <= i <= sweeps ==> energySquaredAverage[i] == RunningAverage(Squares(Reals(energy)), i)
      ensures forall i :: 0 <= i <= sweeps ==> energyAverageSquared[i] == energyAverage[i] * energyAverage[i]
      ensures forall i :: 0 <= i <= sweeps ==> heatCapacity[i] == HeatCapacity(beta, perParticle, Reals(energy), i)
      ensures forall i :: 0 <= i <= sweeps ==> heatCapacity[i] >= 0.0
      ensures heatCapacity[0] == 0.0
    {
      ghost var es := Reals(energy);
      var i := 0;
      while i <= sweeps
        invariant 0 <= i <= sweeps + 1 && Valid()
        invariant AveragedUpTo(es, i) && CapacitiesUpTo(es, i)
      {
        AverageEntry(i, es);
        CapacityEntry(i, es);
        i := i + 1;
      }
      AnalysisComplete(energy, energySquared, energyAverage, energySquaredAverage, energyAverageSquared);
      forall k | 0 <= k <= sweeps
        ensures heatCapacity[k] == HeatCapacity(beta, perParticle, es, k)
        ensures heatCapacity[k] >= 0.0
      {
        assert heatCapacity[..sweeps + 1][k] == HeatCapacities(beta, perParticle, es)[..sweeps + 1][k];
        HeatCapacityNonNegative(beta, perParticle, es, k);
      }
      HeatCapacityAtStart(beta, perParticle, es);
    }
  }
}
