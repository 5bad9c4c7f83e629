/**
 * The Ising energy of a grid under periodic boundary conditions, shared by all
 * the scripts: the total energy `-1/2 * sum of s * (4 neighbours)` and the
 * energy change of flipping one spin, `2 * s * (4 neighbours)`.
 *
 * The central facts proved here are that the raw neighbour sum is exactly twice
 * the sum over bonds (so it is even and halving it is exact), and that for a
 * grid of at least two rows and two columns flipping one spin changes the
 * energy by exactly the flip delta computed before the flip.
 */
module Hamiltonian {
  import opened Lattice
  import Arith

  /**
   * Python's `k % n` for a grid dimension `n > 0`, by repeated shifting by `n`
   * (`WrapIsMod` proves it equal to the Euclidean remainder, which is what
   * Python's floored `%` gives for a positive modulus).
   */
  function Wrap(k: int, n: int): (w: int)
    requires n > 0
    ensures 0 <= w < n
    decreases if k < 0 then n - k else k
  {
    if k < 0 then Wrap(k + n, n) else if k >= n then Wrap(k - n, n) else k
  }

  lemma {:induction false} WrapIsMod(k: int, n: int)
    requires n > 0
    ensures Wrap(k, n) == k % n
    decreases if k < 0 then n - k else k
  {
    if k < 0 {
      WrapIsMod(k + n, n);
      ModShift(k, n);
    } else if k >= n {
      WrapIsMod(k - n, n);
      ModShift(k - n, n);
    } else {
      Arith.EuclideanUnique(k, n, 0, k);
    }
  }

  /** Adding the modulus does not change the remainder. */
  lemma ModShift(k: int, n: int)
    requires n > 0
    ensures (k + n) % n == k % n
  {
    Arith.EuclideanUnique(k + n, n, k / n + 1, k % n);
  }

  /** The periodic successor and predecessor of an index that is already in range. */
  lemma WrapStep(k: int, n: int)
    requires 0 <= k < n
    ensures Wrap(k, n) == k
    ensures Wrap(k + 1, n) == if k == n - 1 then 0 else k + 1
    ensures Wrap(k - 1, n) == if k == 0 then n - 1 else k - 1
  {
    if k == n - 1 {
      assert Wrap(k + 1, n) == Wrap(0, n);
    }
    if k == 0 {
      assert Wrap(k - 1, n) == Wrap(n - 1, n);
    }
  }

  /** The sum of the four periodic neighbours of `(x, y)`: right, left, down, up. */
  function NeighbourSum(g: Grid, x: int, y: int): int
    requires IsRect(g) && InGrid(g, x, y)
  {
    var rows, cols := |g|, Cols(g);
    g[x][Wrap(y + 1, cols)] + g[x][Wrap(y - 1, cols)] + g[Wrap(x + 1, rows)][y] + g[Wrap(x - 1, rows)][y]
  }

  /** The neighbour sum written with the remainder operator, as the programs index. */
  lemma NeighbourSumByMod(g: Grid, x: int, y: int)
    requires IsRect(g) && InGrid(g, x, y)
    ensures NeighbourSum(g, x, y)
         == g[x][(y + 1) % Cols(g)] + g[x][(y - 1) % Cols(g)] + g[(x + 1) % |g|][y] + g[(x - 1) % |g|][y]
  {
    WrapIsMod(y + 1, Cols(g));
    WrapIsMod(y - 1, Cols(g));
    WrapIsMod(x + 1, |g|);
    WrapIsMod(x - 1, |g|);
  }

  /** `spinFlipEnergyChange`: the energy change that flipping `(x, y)` would cause. */
  function FlipDelta(g: Grid, x: int, y: int): int
    requires IsRect(g) && InGrid(g, x, y)
  {
    2 * g[x][y] * NeighbourSum(g, x, y)
  }

  /**
   * The per-site terms that the energy sums: the whole term `s * (4 neighbours)`
   * of `calculateEnergy`, and its four products with one neighbour each.
   */
  datatype Part = Whole | Right | Left | Down | Up

  function PartAt(g: Grid, p: Part, x: int, y: int): int
    requires IsRect(g) && InGrid(g, x, y)
  {
    var rows, cols := |g|, Cols(g);
    match p
    case Whole => g[x][y] * NeighbourSum(g, x, y)
    case Right => g[x][y] * g[x][Wrap(y + 1, cols)]
    case Left => g[x][y] * g[x][Wrap(y - 1, cols)]
    case Down => g[x][y] * g[Wrap(x + 1, rows)][y]
    case Up => g[x][y] * g[Wrap(x - 1, rows)][y]
  }

  /** The sum of a part over the first `n` cells of row `x`. */
  function RowSum(g: Grid, p: Part, x: int, n: nat): int
    requires IsRect(g) && 0 <= x < |g| && n <= Cols(g)
  {
    if n == 0 then 0 else RowSum(g, p, x, n - 1) + PartAt(g, p, x, n - 1)
  }

  /** The sum of a part over the first `m` rows. */
  function GridSum(g: Grid, p: Part, m: nat): int
    requires IsRect(g) && m <= |g|
  {
    if m == 0 then 0 else GridSum(g, p, m - 1) + RowSum(g, p, m - 1, Cols(g))
  }

  /** The `energy` that `calculateEnergy` accumulates over every site before halving. */
  function RawEnergy(g: Grid): int
    requires IsRect(g)
  {
    GridSum(g, Whole, |g|)
  }

  /** The total energy: the raw sum halved and negated. */
  function Energy(g: Grid): int
    requires IsRect(g)
  {
    -RawEnergy(g) / 2
  }

  /** Every nearest-neighbour bond counted once: to the right and downward of each site. */
  function Bonds(g: Grid): int
    requires IsRect(g)
  {
    GridSum(g, Right, |g|) + GridSum(g, Down, |g|)
  }

  lemma {:induction false} RowSplit(g: Grid, x: int, n: nat)
    requires IsRect(g) && 0 <= x < |g| && n <= Cols(g)
    ensures RowSum(g, Whole, x, n)
         == RowSum(g, Right, x, n) + RowSum(g, Left, x, n) + RowSum(g, Down, x, n) + RowSum(g, Up, x, n)
  {
    if n > 0 {
      RowSplit(g, x, n - 1);
    }
  }

  lemma {:induction false} GridSplit(g: Grid, m: nat)
    requires IsRect(g) && m <= |g|
    ensures GridSum(g, Whole, m)
         == GridSum(g, Right, m) + GridSum(g, Left, m) + GridSum(g, Down, m) + GridSum(g, Up, m)
  {
    if m > 0 {
      GridSplit(g, m - 1);
      RowSplit(g, m - 1, Cols(g));
    }
  }

  /** The left products of a row are its right products shifted by one place around the row. */
  lemma {:induction false} LeftPrefix(g: Grid, x: int, n: nat)
    requires IsRect(g) && 0 <= x < |g| && 1 <= n <= Cols(g)
    ensures RowSum(g, Left, x, n) == PartAt(g, Right, x, Cols(g) - 1) + RowSum(g, Right, x, n - 1)
  {
    var cols := Cols(g);
    WrapStep(n - 1, cols);
    WrapStep(cols - 1, cols);
    if n > 1 {
      LeftPrefix(g, x, n - 1);
      WrapStep(n - 2, cols);
    }
  }

  lemma {:induction false} LeftIsRight(g: Grid, m: nat)
    requires IsRect(g) && m <= |g|
    ensures GridSum(g, Left, m) == GridSum(g, Right, m)
  {
    if m > 0 {
      LeftIsRight(g, m - 1);
      if Cols(g) > 0 {
        LeftPrefix(g, m - 1, Cols(g));
      }
    }
  }

  /** The up products of row `x` are the down products of the row above it. */
  lemma {:induction false} UpRowIsDownRowAbove(g: Grid, x: int, n: nat)
    requires IsRect(g) && 0 <= x < |g| && n <= Cols(g)
    ensures RowSum(g, Up, x, n) == RowSum(g, Down, Wrap(x - 1, |g|), n)
  {
    if n > 0 {
      UpRowIsDownRowAbove(g, x, n - 1);
      WrapStep(x, |g|);
      WrapStep(Wrap(x - 1, |g|), |g|);
    }
  }

  lemma {:induction false} UpPrefix(g: Grid, m: nat)
    requires IsRect(g) && 1 <= m <= |g|
    ensures GridSum(g, Up, m) == RowSum(g, Down, |g| - 1, Cols(g)) + GridSum(g, Down, m - 1)
  {
    UpRowIsDownRowAbove(g, m - 1, Cols(g));
    WrapStep(m - 1, |g|);
    if m > 1 {
      UpPrefix(g, m - 1);
    }
  }

  /**
   * The raw neighbour sum counts every bond twice, once from each end, for
   * any integer grid: so it is even and `calculateEnergy`'s halving is exact.
   */
  lemma RawIsTwiceBonds(g: Grid)
    requires IsRect(g)
    ensures RawEnergy(g) == 2 * Bonds(g)
    ensures RawEnergy(g) % 2 == 0
    ensures Energy(g) == -Bonds(g) && 2 * Energy(g) == -RawEnergy(g)
  {
    GridSplit(g, |g|);
    LeftIsRight(g, |g|);
    if |g| > 0 {
      UpPrefix(g, |g|);
    }
  }

  /**
   * Because the raw sum is even, every way the programs halve it gives the
   * energy exactly: Python's `int(-raw / 2)` and `int(-0.5 * raw)`, and C++'s
   * truncating `-raw / 2`.
   */
  lemma HalvingIsExact(g: Grid)
    requires IsRect(g)
    ensures Arith.TruncToInt((-RawEnergy(g)) as real / 2.0) == Energy(g)
    ensures Arith.TruncToInt(-0.5 * RawEnergy(g) as real) == Energy(g)
    ensures Arith.TruncHalf(-RawEnergy(g)) == Energy(g)
  {
    var raw := RawEnergy(g);
    RawIsTwiceBonds(g);
    Arith.HalvingEvenIsExact(-raw);
    assert -0.5 * raw as real == (-raw) as real / 2.0;
  }

  /** Changing the terms of a row at (at most) two columns changes its sum by the two changes. */
  lemma {:induction false} RowSumChange(g: Grid, h: Grid, p: Part, x: int, n: nat,
                                        y1: int, d1: int, y2: int, d2: int)
    requires IsRect(g) && IsRect(h) && |h| == |g| && Cols(h) == Cols(g)
    requires 0 <= x < |g| && n <= Cols(g) && y1 != y2
    requires forall y :: 0 <= y < Cols(g) && y != y1 && y != y2 ==> PartAt(h, p, x, y) == PartAt(g, p, x, y)
    requires 0 <= y1 < Cols(g) ==> PartAt(h, p, x, y1) == PartAt(g, p, x, y1) + d1
    requires 0 <= y2 < Cols(g) ==> PartAt(h, p, x, y2) == PartAt(g, p, x, y2) + d2
    ensures RowSum(h, p, x, n)
         == RowSum(g, p, x, n) + (if 0 <= y1 < n then d1 else 0) + (if 0 <= y2 < n then d2 else 0)
  {
    if n > 0 {
      RowSumChange(g, h, p, x, n - 1, y1, d1, y2, d2);
    }
  }

  /** Changing the row sums of (at most) two rows changes the grid sum by the two changes. */
  lemma {:induction false} GridSumChange(g: Grid, h: Grid, p: Part, m: nat,
                                         x1: int, d1: int, x2: int, d2: int)
    requires IsRect(g) && IsRect(h) && |h| == |g| && Cols(h) == Cols(g)
    requires m <= |g| && x1 != x2
    requires forall x :: 0 <= x < |g| && x != x1 && x != x2 ==> RowSum(h, p, x, Cols(g)) == RowSum(g, p, x, Cols(g))
    requires 0 <= x1 < |g| ==> RowSum(h, p, x1, Cols(g)) == RowSum(g, p, x1, Cols(g)) + d1
    requires 0 <= x2 < |g| ==> RowSum(h, p, x2, Cols(g)) == RowSum(g, p, x2, Cols(g)) + d2
    ensures GridSum(h, p, m)
         == GridSum(g, p, m) + (if 0 <= x1 < m then d1 else 0) + (if 0 <= x2 < m then d2 else 0)
  {
    if m > 0 {
      GridSumChange(g, h, p, m - 1, x1, d1, x2, d2);
    }
  }

  /** In row `x`, flipping `(x, y)` changes only the two rightward bonds that meet `(x, y)`. */
  lemma FlipRightRow(g: Grid, x: int, y: int)
    requires IsRect(g) && Cols(g) >= 2 && InGrid(g, x, y)
    ensures IsRect(Flip(g, x, y))
    ensures RowSum(Flip(g, x, y), Right, x, Cols(g))
         == RowSum(g, Right, x, Cols(g)) - 2 * g[x][y] * (g[x][Wrap(y + 1, Cols(g))] + g[x][Wrap(y - 1, Cols(g))])
  {
    var h, s, cols := Flip(g, x, y), g[x][y], Cols(g);
    assert Cols(h) == cols;
    var yr, yl := Wrap(y + 1, cols), Wrap(y - 1, cols);
    WrapStep(y, cols);
    WrapStep(yl, cols);
    forall y' | 0 <= y' < cols && y' != y && y' != yl
      ensures PartAt(h, Right, x, y') == PartAt(g, Right, x, y')
    {
      WrapStep(y', cols);
    }
    assert PartAt(h, Right, x, y) == PartAt(g, Right, x, y) - 2 * s * g[x][yr];
    assert PartAt(h, Right, x, yl) == PartAt(g, Right, x, yl) - 2 * s * g[x][yl];
    RowSumChange(g, h, Right, x, cols, y, -2 * s * g[x][yr], yl, -2 * s * g[x][yl]);
  }

  /** A row whose terms read only unchanged entries keeps its sum. */
  lemma RowUnchanged(g: Grid, h: Grid, p: Part, x: int)
    requires IsRect(g) && IsRect(h) && |h| == |g| && Cols(h) == Cols(g) && 0 <= x < |g|
    requires forall y :: 0 <= y < Cols(g) ==> PartAt(h, p, x, y) == PartAt(g, p, x, y)
    ensures RowSum(h, p, x, Cols(g)) == RowSum(g, p, x, Cols(g))
  {
    RowSumChange(g, h, p, x, Cols(g), Cols(g), 0, Cols(g) + 1, 0);
  }

  /** Flipping `(x, y)` changes the rightward bonds only at the two bonds of row `x` that meet `(x, y)`. */
  lemma FlipChangesRightBonds(g: Grid, x: int, y: int)
    requires IsRect(g) && Cols(g) >= 2 && InGrid(g, x, y)
    ensures IsRect(Flip(g, x, y))
    ensures GridSum(Flip(g, x, y), Right, |g|)
         == GridSum(g, Right, |g|) - 2 * g[x][y] * (g[x][Wrap(y + 1, Cols(g))] + g[x][Wrap(y - 1, Cols(g))])
  {
    var h, rows, cols := Flip(g, x, y), |g|, Cols(g);
    FlipRightRow(g, x, y);
    forall x' | 0 <= x' < rows && x' != x
      ensures RowSum(h, Right, x', cols) == RowSum(g, Right, x', cols)
    {
      assert h[x'] == g[x'];
      RowUnchanged(g, h, Right, x');
    }
    GridSumChange(g, h, Right, rows, x, -2 * g[x][y] * (g[x][Wrap(y + 1, cols)] + g[x][Wrap(y - 1, cols)]), rows, 0);
  }

  /** In row `x`, flipping `(x, y)` changes only the downward bond from `(x, y)`. */
  lemma FlipDownRow(g: Grid, x: int, y: int)
    requires IsRect(g) && |g| >= 2 && InGrid(g, x, y)
    ensures IsRect(Flip(g, x, y))
    ensures RowSum(Flip(g, x, y), Down, x, Cols(g))
         == RowSum(g, Down, x, Cols(g)) - 2 * g[x][y] * g[Wrap(x + 1, |g|)][y]
  {
    var h, rows, cols := Flip(g, x, y), |g|, Cols(g);
    var xb := Wrap(x + 1, rows);
    WrapStep(x, rows);
    assert h[xb] == g[xb];
    RowSumChange(g, h, Down, x, cols, y, -2 * g[x][y] * g[xb][y], cols, 0);
  }

  /** In the row above `x`, flipping `(x, y)` changes only the downward bond into `(x, y)`. */
  lemma FlipDownRowAbove(g: Grid, x: int, y: int)
    requires IsRect(g) && |g| >= 2 && InGrid(g, x, y)
    ensures IsRect(Flip(g, x, y))
    ensures RowSum(Flip(g, x, y), Down, Wrap(x - 1, |g|), Cols(g))
         == RowSum(g, Down, Wrap(x - 1, |g|), Cols(g)) - 2 * g[x][y] * g[Wrap(x - 1, |g|)][y]
  {
    var h, rows, cols := Flip(g, x, y), |g|, Cols(g);
    var xa := Wrap(x - 1, rows);
    WrapStep(x, rows);
    WrapStep(xa, rows);
    assert Wrap(xa + 1, rows) == x;
    forall y' | 0 <= y' < cols && y' != y
      ensures PartAt(h, Down, xa, y') == PartAt(g, Down, xa, y')
    {
      assert h[xa][y'] == g[xa][y'] && h[x][y'] == g[x][y'];
    }
    assert h[xa][y] == g[xa][y];
    assert h[x][y] == -g[x][y];
    assert |h| == rows;
    assert PartAt(h, Down, xa, y) == h[xa][y] * h[x][y];
    assert PartAt(h, Down, xa, y) == g[xa][y] * -g[x][y];
    RowSumChange(g, h, Down, xa, cols, y, -2 * g[x][y] * g[xa][y], cols, 0);
  }

  /** Flipping `(x, y)` changes the downward bonds only at the two bonds of column `y` that meet `(x, y)`. */
  lemma FlipChangesDownBonds(g: Grid, x: int, y: int)
    requires IsRect(g) && |g| >= 2 && InGrid(g, x, y)
    ensures IsRect(Flip(g, x, y))
    ensures GridSum(Flip(g, x, y), Down, |g|)
         == GridSum(g, Down, |g|) - 2 * g[x][y] * (g[Wrap(x + 1, |g|)][y] + g[Wrap(x - 1, |g|)][y])
  {
    var h, rows, cols := Flip(g, x, y), |g|, Cols(g);
    var xa := Wrap(x - 1, rows);
    WrapStep(x, rows);
    FlipDownRow(g, x, y);
    FlipDownRowAbove(g, x, y);
    forall x' | 0 <= x' < rows && x' != x && x' != xa
      ensures RowSum(h, Down, x', cols) == RowSum(g, Down, x', cols)
    {
      WrapStep(x', rows);
      assert h[x'] == g[x'] && h[Wrap(x' + 1, rows)] == g[Wrap(x' + 1, rows)];
      RowUnchanged(g, h, Down, x');
    }
    GridSumChange(g, h, Down, rows, x, -2 * g[x][y] * g[Wrap(x + 1, rows)][y], xa, -2 * g[x][y] * g[xa][y]);
  }

  /**
   * For a grid of at least two rows and two columns, flipping one spin
   * changes the total energy by exactly the flip delta computed before the
   * flip: the incremental energy bookkeeping agrees with recomputation.
   */
  lemma FlipChangesEnergy(g: Grid, x: int, y: int)
    requires IsRect(g) && |g| >= 2 && Cols(g) >= 2 && InGrid(g, x, y)
    ensures IsRect(Flip(g, x, y))
    ensures Energy(Flip(g, x, y)) == Energy(g) + FlipDelta(g, x, y)
  {
    var h, s, rows, cols := Flip(g, x, y), g[x][y], |g|, Cols(g);
    assert Cols(h) == cols;
    var a, b := g[x][Wrap(y + 1, cols)], g[x][Wrap(y - 1, cols)];
    var c, d := g[Wrap(x + 1, rows)][y], g[Wrap(x - 1, rows)][y];
    assert Bonds(h) == Bonds(g) - 2 * s * (a + b) - 2 * s * (c + d) by {
      FlipChangesRightBonds(g, x, y);
      FlipChangesDownBonds(g, x, y);
    }
    assert Energy(h) == -Bonds(h) && Energy(g) == -Bonds(g) by {
      RawIsTwiceBonds(g);
      RawIsTwiceBonds(h);
    }
    assert FlipDelta(g, x, y) == 2 * s * (a + b + c + d);
  }

  /**
   * On a 1x1 grid every neighbour of the one site is the site itself: the
   * flip delta is 8, yet flipping leaves the energy unchanged. This is why the
   * incremental bookkeeping needs two rows and two columns.
   */
  lemma SingleSiteGrid(s: int)
    requires s == 1 || s == -1
    ensures FlipDelta([[s]], 0, 0) == 8
    ensures Energy(Flip([[s]], 0, 0)) == Energy([[s]]) == -2
  {
    var g := [[s]];
    WrapStep(0, 1);
    assert NeighbourSum(g, 0, 0) == 4 * s;
    assert RowSum(g, Whole, 0, 1) == PartAt(g, Whole, 0, 0) == 4;
    assert RawEnergy(g) == GridSum(g, Whole, 1) == 4;
    var h := Flip(g, 0, 0);
    assert h[0] == [-s];
    assert NeighbourSum(h, 0, 0) == -4 * s;
    assert RowSum(h, Whole, 0, 1) == PartAt(h, Whole, 0, 0) == 4;
    assert RawEnergy(h) == GridSum(h, Whole, 1) == 4;
  }

  /** On a spin grid the flip delta is one of -8, -4, 0, 4, 8. */
  lemma FlipDeltaRange(g: Grid, x: int, y: int)
    requires IsRect(g) && IsSpinGrid(g) && InGrid(g, x, y)
    ensures FlipDelta(g, x, y) in {-8, -4, 0, 4, 8}
  {
    var ns := NeighbourSum(g, x, y);
    assert ns in {-4, -2, 0, 2, 4};
  }

  lemma {:induction false} AllUpRow(g: Grid, x: int, n: nat)
    requires IsRect(g) && 0 <= x < |g| && n <= Cols(g)
    requires forall i, j :: 0 <= i < |g| && 0 <= j < Cols(g) ==> g[i][j] == 1
    ensures RowSum(g, Whole, x, n) == 4 * n
  {
    if n > 0 {
      AllUpRow(g, x, n - 1);
    }
  }

  lemma {:induction false} AllUpRows(g: Grid, m: nat)
    requires IsRect(g) && m <= |g|
    requires forall i, j :: 0 <= i < |g| && 0 <= j < Cols(g) ==> g[i][j] == 1
    ensures GridSum(g, Whole, m) == 4 * Cols(g) * m
  {
    if m > 0 {
      AllUpRows(g, m - 1);
      AllUpRow(g, m - 1, Cols(g));
    }
  }

  /** A fully aligned grid, all spins +1, has energy `-2 * rows * cols`. */
  lemma AllUpEnergy(g: Grid)
    requires IsRect(g)
    requires forall i, j :: 0 <= i < |g| && 0 <= j < Cols(g) ==> g[i][j] == 1
    ensures Energy(g) == -2 * |g| * Cols(g)
  {
    AllUpRows(g, |g|);
  }
}
