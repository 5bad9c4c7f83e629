/**
 * The C++ Ising simulators (`cpp/ising_vis.cpp`, `cpp/main.cpp`,
 * `cpp/ising_optimization.cpp`), which share their lattice functions: a
 * square `vector<vector<int>>` filled from uniform draws, the energy and flip
 * delta with `superMod` for the periodic neighbours, and the sweep loop that
 * negates lattice entries in place. The lattice functions take the lattice by
 * value, so they are modelled on grid values; the sweep loop mutates the
 * lattice, modelled as a two-dimensional buffer.
 */
module CppIsing {
  import opened Lattice
  import opened Hamiltonian
  import opened Acceptance
  import opened Metropolis
  import Arith
  import PyIsing

  /** `plusminusone`: -1 when the draw is below one half, 1 otherwise. */
  function PlusMinusOne(draw: real): (s: int)
    ensures s == 1 || s == -1
    ensures s == -1 <==> draw < 0.5
  {
    if draw < 0.5 then -1 else 1
  }

  /**
   * The C++ and Python coin flips agree on every draw except exactly one half,
   * which C++ maps to 1 and Python to -1.
   */
  lemma PlusMinusOneAgree(draw: real)
    ensures PlusMinusOne(draw) == PyIsing.PlusMinusOne(draw) <==> draw != 0.5
    ensures draw == 0.5 ==> PlusMinusOne(draw) == 1 && PyIsing.PlusMinusOne(draw) == -1
  {
  }

  /** `superMod(x, size)` is the periodic index the energy model uses, and the trailing `% size` keeps it. */
  lemma SuperModIsWrap(x: int, size: int)
    requires size > 0
    ensures Arith.SuperMod(x, size) == Wrap(x, size)
    ensures Arith.TruncRem(Arith.SuperMod(x, size), size) == Wrap(x, size)
  {
    Arith.SuperModIsFloorMod(x, size);
    WrapIsMod(x, size);
    Arith.TruncRemOfReduced(Arith.SuperMod(x, size), size);
  }

  /** A square lattice, as `initializeSimulation` makes it. */
  predicate IsSquare(lattice: Grid)
  {
    IsShape(lattice, |lattice|, |lattice|)
  }

  /** The four-neighbour sum as the C++ code indexes it, with `superMod` and the extra `% size` on the row above. */
  function NeighbourTotal(lattice: Grid, x: int, y: int): (sum: int)
    requires IsSquare(lattice) && InGrid(lattice, x, y)
    ensures sum == NeighbourSum(lattice, x, y)
  {
    var size := |lattice|;
    SuperModIsWrap(y + 1, size);
    SuperModIsWrap(y - 1, size);
    SuperModIsWrap(x + 1, size);
    SuperModIsWrap(x - 1, size);
    lattice[x][Arith.SuperMod(y + 1, size)] + lattice[x][Arith.SuperMod(y - 1, size)] +
    lattice[Arith.SuperMod(x + 1, size)][y] + lattice[Arith.TruncRem(Arith.SuperMod(x - 1, size), size)][y]
  }

  /** `spinFlipEnergyChange`: the flip delta of the model, on the lattice passed by value. */
  function SpinFlipEnergyChange(lattice: Grid, x: int, y: int): (dE: int)
    requires IsSquare(lattice) && InGrid(lattice, x, y)
    ensures dE == FlipDelta(lattice, x, y)
  {
    2 * lattice[x][y] * NeighbourTotal(lattice, x, y)
  }

  /**
   * `calculateEnergy`: the sum of `s * (4 neighbours)`, negated and halved
   * with C++'s truncating `/ 2`. It equals the model's energy exactly,
   * because the raw sum is even.
   */
  method CalculateEnergy(lattice: Grid) returns (e: int)
    requires IsSquare(lattice)
    ensures e == Energy(lattice)
  {
    var size := |lattice|;
    var energy := 0;
    var i := 0;
    while i < size
      invariant 0 <= i <= size
      invariant energy == GridSum(lattice, Whole, i)
    {
      var j := 0;
      while j < size
        invariant 0 <= j <= size
        invariant energy == GridSum(lattice, Whole, i) + RowSum(lattice, Whole, i, j)
      {
        energy := energy + lattice[i][j] * NeighbourTotal(lattice, i, j);
        j := j + 1;
      }
      i := i + 1;
    }
    HalvingIsExact(lattice);
    e := Arith.TruncHalf(-energy);
  }

  /**
   * `initializeSimulation`: a `latticeSize` by `latticeSize` lattice filled in
   * row-major order from one draw per site; its initial energy is computed and
   * discarded, as in the programs.
   */
  method InitializeSimulation(latticeSize: nat, draws: seq<seq<real>>) returns (lattice: array2<int>)
    requires IsShape(draws, latticeSize, latticeSize)
    ensures fresh(lattice)
    ensures lattice.Length0 == latticeSize && lattice.Length1 == latticeSize
    ensures forall i, j :: 0 <= i < latticeSize && 0 <= j < latticeSize ==> lattice[i, j] == PlusMinusOne(draws[i][j])
    ensures IsSpinGrid(Snapshot(lattice))
  {
    lattice := new int[latticeSize, latticeSize]((i, j) => 0);
    var i := 0;
    while i < latticeSize
      invariant 0 <= i <= latticeSize
      invariant forall i', j :: 0 <= i' < i && 0 <= j < latticeSize ==> lattice[i', j] == PlusMinusOne(draws[i'][j])
    {
      var j := 0;
      while j < latticeSize
        invariant 0 <= j <= latticeSize
        invariant forall i', j' :: 0 <= i' < i && 0 <= j' < latticeSize ==> lattice[i', j'] == PlusMinusOne(draws[i'][j'])
        invariant forall j' :: 0 <= j' < j ==> lattice[i, j'] == PlusMinusOne(draws[i][j'])
      {
        lattice[i, j] := PlusMinusOne(draws[i][j]);
        j := j + 1;
      }
      i := i + 1;
    }
    var initialEnergy := CalculateEnergy(Snapshot(lattice));
  }

  /**
   * One proposal of the sweep loop: draw a row and a column, compute the flip
   * delta on a copy of the lattice, and negate the site in place when the
   * program's acceptance test passes.
   */
  method Propose(lattice: array2<int>, rule: Rule, expf: real -> real, beta: real, p: Proposal)
    requires lattice.Length0 == lattice.Length1 > 0 && IsProposal(p)
    modifies lattice
    ensures Snapshot(lattice) == Step(rule, expf, beta, old(Snapshot(lattice)), p)
  {
    ghost var current := Snapshot(lattice);
    var latticeSize := lattice.Length0;
    var randX := Arith.ScaledFloor(p.rx, latticeSize);
    var randY := Arith.ScaledFloor(p.ry, latticeSize);
    var spinFlipCandidate := SpinFlipEnergyChange(Snapshot(lattice), randX, randY);
    StepAt(rule, expf, beta, current, p, randX, randY, spinFlipCandidate);
    if Accepts(rule, expf, beta, spinFlipCandidate, p.u) {
      FlipAt(lattice, randX, randY);
    }
  }

  /** One sweep of the loop in `main`: `latticeSize * latticeSize` proposals, applied in place one after another. */
  method Sweep(lattice: array2<int>, rule: Rule, expf: real -> real, beta: real, proposals: seq<Proposal>)
    requires lattice.Length0 == lattice.Length1 > 0
    requires |proposals| == lattice.Length0 * lattice.Length0
    requires forall k :: 0 <= k < |proposals| ==> IsProposal(proposals[k])
    modifies lattice
    ensures Snapshot(lattice) == Run(rule, expf, beta, old(Snapshot(lattice)), proposals)
  {
    ghost var before := Snapshot(lattice);
    var stepsPerSweep := lattice.Length0 * lattice.Length0;
    var m := 0;
    while m < stepsPerSweep
      invariant 0 <= m <= stepsPerSweep
      invariant Snapshot(lattice) == Run(rule, expf, beta, before, proposals[..m])
    {
      Propose(lattice, rule, expf, beta, proposals[m]);
      RunPrefix(rule, expf, beta, before, proposals, m);
      m := m + 1;
    }
    assert proposals[..m] == proposals;
  }

  /**
   * The sweep loop of `main`: `latticeSize * latticeSize` proposals per
   * sweep, applied in place. `cpp/ising_vis.cpp` runs it with the intended
   * test and `cpp/main.cpp` with the comparison inside `exp`.
   */
  method RunSweeps(lattice: array2<int>, rule: Rule, expf: real -> real, beta: real, sweeps: seq<seq<Proposal>>)
    requires lattice.Length0 == lattice.Length1 > 0
    requires forall n :: 0 <= n < |sweeps| ==> |sweeps[n]| == lattice.Length0 * lattice.Length0
    requires forall n, k :: 0 <= n < |sweeps| && 0 <= k < |sweeps[n]| ==> IsProposal(sweeps[n][k])
    modifies lattice
    ensures Snapshot(lattice) == Sweeps(rule, expf, beta, old(Snapshot(lattice)), sweeps)
  {
    ghost var start := Snapshot(lattice);
    var n := 0;
    while n < |sweeps|
      invariant 0 <= n <= |sweeps|
      invariant Snapshot(lattice) == Sweeps(rule, expf, beta, start, sweeps[..n])
    {
      Sweep(lattice, rule, expf, beta, sweeps[n]);
      SweepsPrefix(rule, expf, beta, start, sweeps, n);
      n := n + 1;
    }
    assert sweeps[..n] == sweeps;
  }

  /**
   * The sweep loop of `cpp/ising_optimization.cpp`: it draws a row and a
   * column for every step and does nothing with them, so the lattice keeps
   * its initial contents (the method has no `modifies` clause). The program
   * keeps no count of its draws: `drawn` exists only to give the loop an
   * observable result, the number of coordinate pairs it consumes.
   */
  method IdleSweeps(lattice: array2<int>, sweeps: seq<seq<(real, real)>>) returns (drawn: nat)
    requires lattice.Length0 == lattice.Length1 > 0
    requires forall n :: 0 <= n < |sweeps| ==> |sweeps[n]| == lattice.Length0 * lattice.Length0
    requires forall n, k :: 0 <= n < |sweeps| && 0 <= k < |sweeps[n]| ==> IsDraw(sweeps[n][k].0) && IsDraw(sweeps[n][k].1)
    ensures drawn == |sweeps| * (lattice.Length0 * lattice.Length0)
    ensures Snapshot(lattice) == old(Snapshot(lattice))
  {
    var latticeSize := lattice.Length0;
    var stepsPerSweep := latticeSize * latticeSize;
    drawn := 0;
    var n := 0;
    while n < |sweeps|
      invariant 0 <= n <= |sweeps|
      invariant drawn == n * stepsPerSweep
    {
      var m := 0;
      while m < stepsPerSweep
        invariant 0 <= m <= stepsPerSweep
        invariant drawn == n * stepsPerSweep + m
      {
        var randX := Arith.ScaledFloor(sweeps[n][m].0, latticeSize);
        var randY := Arith.ScaledFloor(sweeps[n][m].1, latticeSize);
        drawn := drawn + 1;
        m := m + 1;
      }
      n := n + 1;
    }
  }
}
