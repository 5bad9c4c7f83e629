/**
 * One colour pass of the heat-bath simulator (`colorSwap`) and the sweep of
 * four passes, as functions of the grid before them. A pass reads every flip
 * delta of its colour from the grid as it was before the pass (`np.roll`
 * of the whole grid), decides each site against its own draw, negates the
 * accepted sites, and adds the accepted deltas up (`energySum`).
 */
module ColorPass {
  import opened Lattice
  import opened Hamiltonian
  import opened Acceptance
  import opened Colors

  /** The heat-bath grid: `N` by `N`, with `N >= 1`. */
  predicate IsModel(g: Grid)
  {
    |g| > 0 && IsShape(g, |g|, |g|)
  }

  /** The sites of a list all lie in an `n` by `n` grid. */
  predicate InRange(n: int, cells: seq<(int, int)>)
  {
    forall k :: 0 <= k < |cells| ==> 0 <= cells[k].0 < n && 0 <= cells[k].1 < n
  }

  /** `color_dE`: the flip delta of every listed site, all read from `g`. */
  function Deltas(g: Grid, cells: seq<(int, int)>): (ds: seq<int>)
    requires IsModel(g) && InRange(|g|, cells)
    ensures |ds| == |cells|
    ensures forall k :: 0 <= k < |cells| ==> ds[k] == FlipDelta(g, cells[k].0, cells[k].1)
  {
    seq(|cells|, k requires 0 <= k < |cells| => FlipDelta(g, cells[k].0, cells[k].1))
  }

  /** `color_prob`: each delta compared with its own draw. */
  function Decisions(expf: real -> real, beta: real, ds: seq<int>, us: seq<real>): (flags: seq<bool>)
    requires |us| == |ds|
    ensures |flags| == |ds|
    ensures forall k :: 0 <= k < |ds| ==> flags[k] == Accepts(ExpAboveDraw, expf, beta, ds[k], us[k])
  {
    seq(|ds|, k requires 0 <= k < |ds| => Accepts(ExpAboveDraw, expf, beta, ds[k], us[k]))
  }

  /** The grid after the first `k` listed sites have been negated where their flag is set. */
  function FlipPrefix(g: Grid, cells: seq<(int, int)>, flags: seq<bool>, k: nat): (r: Grid)
    requires IsModel(g) && InRange(|g|, cells) && |flags| == |cells| && k <= |cells|
    ensures IsModel(r) && |r| == |g|
    decreases k
  {
    if k == 0 then g
    else
      var h := FlipPrefix(g, cells, flags, k - 1);
      if flags[k - 1] then Flip(h, cells[k - 1].0, cells[k - 1].1) else h
  }

  /** `energySum` over the first `k` sites: the deltas of the accepted ones. */
  function AcceptedSum(ds: seq<int>, flags: seq<bool>, k: nat): int
    requires |flags| == |ds| && k <= |ds|
  {
    if k == 0 then 0 else AcceptedSum(ds, flags, k - 1) + (if flags[k - 1] then ds[k - 1] else 0)
  }

  /** The grid after the pass of colour `c` with draws `us`. */
  function Pass(g: Grid, c: Color, expf: real -> real, beta: real, us: seq<real>): (r: Grid)
    requires IsModel(g) && |us| == |ColorCells(|g|, c)|
    ensures IsModel(r) && |r| == |g|
  {
    var cells := ColorCells(|g|, c);
    FlipPrefix(g, cells, Decisions(expf, beta, Deltas(g, cells), us), |cells|)
  }

  /** The `energySum` of the pass of colour `c` with draws `us`. */
  function PassSum(g: Grid, c: Color, expf: real -> real, beta: real, us: seq<real>): int
    requires IsModel(g) && |us| == |ColorCells(|g|, c)|
  {
    var cells := ColorCells(|g|, c);
    var ds := Deltas(g, cells);
    AcceptedSum(ds, Decisions(expf, beta, ds, us), |cells|)
  }

  /** A site not among the first `k` listed keeps its value. */
  lemma {:induction false} FlipPrefixOutside(g: Grid, cells: seq<(int, int)>, flags: seq<bool>, k: nat, a: int, b: int)
    requires IsModel(g) && InRange(|g|, cells) && |flags| == |cells| && k <= |cells|
    requires 0 <= a < |g| && 0 <= b < |g| && (a, b) !in cells[..k]
    ensures FlipPrefix(g, cells, flags, k)[a][b] == g[a][b]
    decreases k
  {
    if k > 0 {
      assert cells[..k - 1] <= cells[..k];
      FlipPrefixOutside(g, cells, flags, k - 1, a, b);
      assert cells[k - 1] in cells[..k];
    }
  }

  /** In a list without repetitions, the `i`-th site ends negated exactly when its flag is set. */
  lemma {:induction false} FlipPrefixInside(g: Grid, cells: seq<(int, int)>, flags: seq<bool>, k: nat, i: int)
    requires IsModel(g) && InRange(|g|, cells) && |flags| == |cells| && k <= |cells| && RowMajor(cells)
    requires 0 <= i < k
    ensures FlipPrefix(g, cells, flags, k)[cells[i].0][cells[i].1]
         == if flags[i] then -g[cells[i].0][cells[i].1] else g[cells[i].0][cells[i].1]
    decreases k
  {
    var x, y := cells[i].0, cells[i].1;
    if i == k - 1 {
      assert (x, y) !in cells[..k - 1] by {
        forall j | 0 <= j < k - 1
          ensures cells[j] != (x, y)
        {
          assert Before(cells[j], cells[i]);
        }
      }
      FlipPrefixOutside(g, cells, flags, k - 1, x, y);
    } else {
      FlipPrefixInside(g, cells, flags, k - 1, i);
      assert Before(cells[i], cells[k - 1]);
    }
  }

  /**
   * A pass changes only sites of its colour: each listed site is negated
   * exactly when its test passed, and every other site is unchanged.
   */
  lemma PassChangesOnlyColor(g: Grid, c: Color, expf: real -> real, beta: real, us: seq<real>)
    requires IsModel(g) && |us| == |ColorCells(|g|, c)|
    ensures var cells, r := ColorCells(|g|, c), Pass(g, c, expf, beta, us);
      var flags := Decisions(expf, beta, Deltas(g, cells), us);
      && (forall k :: 0 <= k < |cells| ==>
            r[cells[k].0][cells[k].1] == if flags[k] then -g[cells[k].0][cells[k].1] else g[cells[k].0][cells[k].1])
      && (forall a, b :: 0 <= a < |g| && 0 <= b < |g| && !InMask(|g|, c, a, b) ==> r[a][b] == g[a][b])
  {
    var n, cells := |g|, ColorCells(|g|, c);
    var flags := Decisions(expf, beta, Deltas(g, cells), us);
    forall k | 0 <= k < |cells|
      ensures Pass(g, c, expf, beta, us)[cells[k].0][cells[k].1]
           == if flags[k] then -g[cells[k].0][cells[k].1] else g[cells[k].0][cells[k].1]
    {
      FlipPrefixInside(g, cells, flags, |cells|, k);
    }
    forall a, b | 0 <= a < n && 0 <= b < n && !InMask(n, c, a, b)
      ensures Pass(g, c, expf, beta, us)[a][b] == g[a][b]
    {
      assert cells[..|cells|] == cells;
      FlipPrefixOutside(g, cells, flags, |cells|, a, b);
    }
  }

  /** A pass keeps every entry a spin. */
  lemma {:induction false} FlipPrefixKeepsSpins(g: Grid, cells: seq<(int, int)>, flags: seq<bool>, k: nat)
    requires IsModel(g) && InRange(|g|, cells) && |flags| == |cells| && k <= |cells| && IsSpinGrid(g)
    ensures IsSpinGrid(FlipPrefix(g, cells, flags, k))
    decreases k
  {
    if k > 0 {
      FlipPrefixKeepsSpins(g, cells, flags, k - 1);
      FlipKeepsSpins(FlipPrefix(g, cells, flags, k - 1), cells[k - 1].0, cells[k - 1].1);
    }
  }

  lemma PassKeepsSpins(g: Grid, c: Color, expf: real -> real, beta: real, us: seq<real>)
    requires IsModel(g) && |us| == |ColorCells(|g|, c)| && IsSpinGrid(g)
    ensures IsSpinGrid(Pass(g, c, expf, beta, us))
  {
    var cells := ColorCells(|g|, c);
    FlipPrefixKeepsSpins(g, cells, Decisions(expf, beta, Deltas(g, cells), us), |cells|);
  }

  /** Two grids that agree at a site and its four neighbours give it the same flip delta. */
  lemma FlipDeltaLocal(g: Grid, h: Grid, x: int, y: int)
    requires IsModel(g) && IsModel(h) && |h| == |g| && 0 <= x < |g| && 0 <= y < |g|
    requires h[x][y] == g[x][y]
    requires forall a, b :: 0 <= a < |g| && 0 <= b < |g| && IsNeighbour(|g|, x, y, a, b) ==> h[a][b] == g[a][b]
    ensures FlipDelta(h, x, y) == FlipDelta(g, x, y)
  {
    var n := |g|;
    assert IsNeighbour(n, x, y, x, Wrap(y + 1, n)) && IsNeighbour(n, x, y, x, Wrap(y - 1, n));
    assert IsNeighbour(n, x, y, Wrap(x + 1, n), y) && IsNeighbour(n, x, y, Wrap(x - 1, n), y);
  }

  /**
   * Midway through a pass, the next site and its neighbours still hold their
   * values from before the pass, so its delta read from the pre-pass grid is
   * its delta on the current grid.
   */
  lemma NextDeltaUnchanged(g: Grid, c: Color, cells: seq<(int, int)>, flags: seq<bool>, k: nat)
    requires IsModel(g) && cells == ColorCells(|g|, c) && |flags| == |cells| && k < |cells|
    ensures FlipDelta(FlipPrefix(g, cells, flags, k), cells[k].0, cells[k].1) == FlipDelta(g, cells[k].0, cells[k].1)
  {
    var n, h, x, y := |g|, FlipPrefix(g, cells, flags, k), cells[k].0, cells[k].1;
    assert (x, y) !in cells[..k] by {
      forall j | 0 <= j < k
        ensures cells[j] != (x, y)
      {
        assert Before(cells[j], cells[k]);
      }
    }
    FlipPrefixOutside(g, cells, flags, k, x, y);
    forall a, b | 0 <= a < n && 0 <= b < n && IsNeighbour(n, x, y, a, b)
      ensures h[a][b] == g[a][b]
    {
      if (a, b) in cells[..k] {
        var j :| 0 <= j < k && cells[j] == (a, b);
        ColorIndependent(n, c, x, y, a, b);
      } else {
        FlipPrefixOutside(g, cells, flags, k, a, b);
      }
    }
    FlipDeltaLocal(g, h, x, y);
  }

  /**
   * Negating the first `k` listed sites where their flag is set changes the
   * energy by the sum of their deltas read before the pass, whatever the flags.
   */
  lemma {:induction false} FlipPrefixEnergy(g: Grid, c: Color, cells: seq<(int, int)>, flags: seq<bool>, k: nat)
    requires IsModel(g) && |g| >= 2 && cells == ColorCells(|g|, c) && |flags| == |cells| && k <= |cells|
    ensures Energy(FlipPrefix(g, cells, flags, k)) == Energy(g) + AcceptedSum(Deltas(g, cells), flags, k)
    decreases k
  {
    if k > 0 {
      FlipPrefixEnergy(g, c, cells, flags, k - 1);
      NextDeltaUnchanged(g, c, cells, flags, k - 1);
      if flags[k - 1] {
        FlipChangesEnergy(FlipPrefix(g, cells, flags, k - 1), cells[k - 1].0, cells[k - 1].1);
      }
    }
  }

  /**
   * For `N >= 2`, a pass changes the energy by exactly its `energySum`: the
   * incremental bookkeeping of `colorSwap` agrees with recomputing the energy.
   */
  lemma PassEnergy(g: Grid, c: Color, expf: real -> real, beta: real, us: seq<real>)
    requires IsModel(g) && |g| >= 2 && |us| == |ColorCells(|g|, c)|
    ensures Energy(Pass(g, c, expf, beta, us)) == Energy(g) + PassSum(g, c, expf, beta, us)
  {
    var cells := ColorCells(|g|, c);
    FlipPrefixEnergy(g, c, cells, Decisions(expf, beta, Deltas(g, cells), us), |cells|);
  }

  /** The draws one sweep consumes: one per site of each colour, in pass order. */
  datatype SweepDraws = SweepDraws(red: seq<real>, blue: seq<real>, green: seq<real>, yellow: seq<real>)

  predicate FitsGrid(n: nat, d: SweepDraws)
  {
    && |d.red| == |ColorCells(n, Red)| && |d.blue| == |ColorCells(n, Blue)|
    && |d.green| == |ColorCells(n, Green)| && |d.yellow| == |ColorCells(n, Yellow)|
  }

  /** One sweep: the red, blue, green and yellow passes, each on the grid the previous one left. */
  function SweepGrid(g: Grid, expf: real -> real, beta: real, d: SweepDraws): (r: Grid)
    requires IsModel(g) && FitsGrid(|g|, d)
    ensures IsModel(r) && |r| == |g|
  {
    var g1 := Pass(g, Red, expf, beta, d.red);
    var g2 := Pass(g1, Blue, expf, beta, d.blue);
    var g3 := Pass(g2, Green, expf, beta, d.green);
    Pass(g3, Yellow, expf, beta, d.yellow)
  }

  /** What one sweep adds to `energy_array[sweep]`: the four passes' `energySum`s. */
  function SweepSum(g: Grid, expf: real -> real, beta: real, d: SweepDraws): int
    requires IsModel(g) && FitsGrid(|g|, d)
  {
    var g1 := Pass(g, Red, expf, beta, d.red);
    var g2 := Pass(g1, Blue, expf, beta, d.blue);
    var g3 := Pass(g2, Green, expf, beta, d.green);
    PassSum(g, Red, expf, beta, d.red) + PassSum(g1, Blue, expf, beta, d.blue)
    + PassSum(g2, Green, expf, beta, d.green) + PassSum(g3, Yellow, expf, beta, d.yellow)
  }

  /** For `N >= 2`, a sweep changes the energy by exactly what it adds to the record. */
  lemma SweepEnergy(g: Grid, expf: real -> real, beta: real, d: SweepDraws)
    requires IsModel(g) && |g| >= 2 && FitsGrid(|g|, d)
    ensures Energy(SweepGrid(g, expf, beta, d)) == Energy(g) + SweepSum(g, expf, beta, d)
  {
    var g1 := Pass(g, Red, expf, beta, d.red);
    var g2 := Pass(g1, Blue, expf, beta, d.blue);
    var g3 := Pass(g2, Green, expf, beta, d.green);
    PassEnergy(g, Red, expf, beta, d.red);
    PassEnergy(g1, Blue, expf, beta, d.blue);
    PassEnergy(g2, Green, expf, beta, d.green);
    PassEnergy(g3, Yellow, expf, beta, d.yellow);
  }

  lemma SweepKeepsSpins(g: Grid, expf: real -> real, beta: real, d: SweepDraws)
    requires IsModel(g) && FitsGrid(|g|, d) && IsSpinGrid(g)
    ensures IsSpinGrid(SweepGrid(g, expf, beta, d))
  {
    var g1 := Pass(g, Red, expf, beta, d.red);
    var g2 := Pass(g1, Blue, expf, beta, d.blue);
    var g3 := Pass(g2, Green, expf, beta, d.green);
    PassKeepsSpins(g, Red, expf, beta, d.red);
    PassKeepsSpins(g1, Blue, expf, beta, d.blue);
    PassKeepsSpins(g2, Green, expf, beta, d.green);
    PassKeepsSpins(g3, Yellow, expf, beta, d.yellow);
  }

  predicate AllFit(n: nat, ds: seq<SweepDraws>)
  {
    forall s :: 0 <= s < |ds| ==> FitsGrid(n, ds[s])
  }

  /** The grid after the given sweeps, one after another. */
  function Evolve(g: Grid, expf: real -> real, beta: real, ds: seq<SweepDraws>): (r: Grid)
    requires IsModel(g) && AllFit(|g|, ds)
    ensures IsModel(r) && |r| == |g|
    decreases |ds|
  {
    if |ds| == 0 then g
    else SweepGrid(Evolve(g, expf, beta, ds[..|ds| - 1]), expf, beta, ds[|ds| - 1])
  }

  /** `energy_array[|ds|]`: the recorded energy `e0` plus every sweep's sum, each taken on the grid of its time. */
  function Recorded(e0: int, g: Grid, expf: real -> real, beta: real, ds: seq<SweepDraws>): int
    requires IsModel(g) && AllFit(|g|, ds)
    decreases |ds|
  {
    if |ds| == 0 then e0
    else Recorded(e0, g, expf, beta, ds[..|ds| - 1]) + SweepSum(Evolve(g, expf, beta, ds[..|ds| - 1]), expf, beta, ds[|ds| - 1])
  }

  /**
   * For `N >= 2`, when the record starts from the energy of the initial grid,
   * the recorded energy after every number of sweeps is the energy of the
   * grid at that time.
   */
  lemma {:induction false} RecordedIsEnergy(g: Grid, expf: real -> real, beta: real, ds: seq<SweepDraws>)
    requires IsModel(g) && |g| >= 2 && AllFit(|g|, ds)
    ensures Recorded(Energy(g), g, expf, beta, ds) == Energy(Evolve(g, expf, beta, ds))
    decreases |ds|
  {
    if |ds| > 0 {
      var init := ds[..|ds| - 1];
      RecordedIsEnergy(g, expf, beta, init);
      SweepEnergy(Evolve(g, expf, beta, init), expf, beta, ds[|ds| - 1]);
    }
  }

  /** All spins stay +1 or -1 through every sweep. */
  lemma {:induction false} EvolveKeepsSpins(g: Grid, expf: real -> real, beta: real, ds: seq<SweepDraws>)
    requires IsModel(g) && AllFit(|g|, ds) && IsSpinGrid(g)
    ensures IsSpinGrid(Evolve(g, expf, beta, ds))
    decreases |ds|
  {
    if |ds| > 0 {
      var init := ds[..|ds| - 1];
      EvolveKeepsSpins(g, expf, beta, init);
      SweepKeepsSpins(Evolve(g, expf, beta, init), expf, beta, ds[|ds| - 1]);
    }
  }

  /** Sweeping the first `k + 1` draws is sweeping the first `k` and then draw `k`; likewise for the record. */
  lemma EvolvePrefix(e0: int, g: Grid, expf: real -> real, beta: real, ds: seq<SweepDraws>, k: nat)
    requires IsModel(g) && AllFit(|g|, ds) && k < |ds|
    ensures AllFit(|g|, ds[..k]) && AllFit(|g|, ds[..k + 1])
    ensures Evolve(g, expf, beta, ds[..k + 1]) == SweepGrid(Evolve(g, expf, beta, ds[..k]), expf, beta, ds[k])
    ensures Recorded(e0, g, expf, beta, ds[..k + 1])
         == Recorded(e0, g, expf, beta, ds[..k]) + SweepSum(Evolve(g, expf, beta, ds[..k]), expf, beta, ds[k])
  {
    assert ds[..k + 1][..k] == ds[..k];
  }

  /** The draws of every prefix of a run fit the grid. */
  lemma PrefixesFit(n: nat, ds: seq<SweepDraws>)
    requires AllFit(n, ds)
    ensures forall s :: 0 <= s <= |ds| ==> AllFit(n, ds[..s])
  {
  }

  /**
   * Every entry of a record that starts from the energy of the initial grid
   * is the energy of the grid after that many sweeps.
   */
  lemma RecordsAreEnergies(g: Grid, expf: real -> real, beta: real, ds: seq<SweepDraws>)
    requires IsModel(g) && |g| >= 2 && AllFit(|g|, ds)
    ensures forall s :: 0 <= s <= |ds| ==>
              AllFit(|g|, ds[..s]) && Recorded(Energy(g), g, expf, beta, ds[..s]) == Energy(Evolve(g, expf, beta, ds[..s]))
  {
    forall s | 0 <= s <= |ds|
      ensures AllFit(|g|, ds[..s]) && Recorded(Energy(g), g, expf, beta, ds[..s]) == Energy(Evolve(g, expf, beta, ds[..s]))
    {
      PrefixesFit(|g|, ds);
      RecordedIsEnergy(g, expf, beta, ds[..s]);
    }
  }
}
