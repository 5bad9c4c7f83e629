/**
 * The four colour classes of the heat-bath simulator
 * (`python/ising_with_heatbath.py`). The masks are built from the parity of
 * `x + y` and from whether a site lies on the last row or column; the corner
 * `(N-1, N-1)` is moved from green to red so that, for every `N`, no two
 * distinct sites of one colour are periodic neighbours. A colour pass visits
 * its sites in numpy's row-major order.
 */
module Colors {
  import opened Hamiltonian

  datatype Color = Red | Blue | Green | Yellow

  /** Whether site `(x, y)` of an `n` by `n` grid belongs to the mask of colour `c`. */
  predicate InMask(n: int, c: Color, x: int, y: int)
  {
    var corner := x == n - 1 && y == n - 1;
    match c
    case Red => ((x + y) % 2 == 0 && x < n - 1 && y < n - 1) || corner
    case Blue => (x + y) % 2 == 1 && x < n - 1 && y < n - 1
    case Green => (x + y) % 2 == 0 && (x == n - 1 || y == n - 1) && !corner
    case Yellow => (x + y) % 2 == 1 && (x == n - 1 || y == n - 1)
  }

  /** The colour of a site, decided directly: the corner is red; otherwise parity and the border decide. */
  function ColorOf(n: int, x: int, y: int): Color
  {
    if x == n - 1 && y == n - 1 then Red
    else if x < n - 1 && y < n - 1 then (if (x + y) % 2 == 0 then Red else Blue)
    else if (x + y) % 2 == 0 then Green
    else Yellow
  }

  /** The four masks partition the grid: every site is in the mask of its colour and of no other. */
  lemma MasksPartition(n: int, x: int, y: int)
    requires 0 <= x < n && 0 <= y < n
    ensures InMask(n, ColorOf(n, x, y), x, y)
    ensures forall c :: InMask(n, c, x, y) ==> c == ColorOf(n, x, y)
  {
  }

  /** The corner is red and not green. */
  lemma CornerIsRed(n: int)
    requires n >= 1
    ensures InMask(n, Red, n - 1, n - 1) && !InMask(n, Green, n - 1, n - 1)
  {
  }

  /** Red and green sites have even `x + y`; blue and yellow sites odd. */
  lemma MaskParity(n: int, c: Color, x: int, y: int)
    requires 0 <= x < n && 0 <= y < n && InMask(n, c, x, y)
    ensures (x + y) % 2 == if c == Red || c == Green then 0 else 1
  {
    if c == Red && x == n - 1 && y == n - 1 {
      assert x + y == 2 * (n - 1);
    }
  }

  /** `(a, b)` is one of the four periodic neighbours of `(x, y)`, as `np.roll` by one along either axis reaches it. */
  predicate IsNeighbour(n: int, x: int, y: int, a: int, b: int)
    requires n > 0
  {
    (a == x && (b == Wrap(y + 1, n) || b == Wrap(y - 1, n))) ||
    (b == y && (a == Wrap(x + 1, n) || a == Wrap(x - 1, n)))
  }

  /** Neighbours one step apart without wrapping have `x + y` of different parity. */
  lemma StepFlipsParity(s: int)
    requires s >= 0
    ensures (s + 1) % 2 != s % 2
  {
  }

  /** A neighbour reached across the last column or row wraps from `n - 1` to `0` or back. */
  lemma NeighbourCases(n: int, x: int, y: int, a: int, b: int)
    requires 0 <= x < n && 0 <= y < n && IsNeighbour(n, x, y, a, b)
    ensures 0 <= a < n && 0 <= b < n
    ensures || (a == x && (b == y + 1 || b == y - 1 || (y == n - 1 && b == 0) || (y == 0 && b == n - 1)))
            || (b == y && (a == x + 1 || a == x - 1 || (x == n - 1 && a == 0) || (x == 0 && a == n - 1)))
  {
    WrapStep(x, n);
    WrapStep(y, n);
  }

  /**
   * No two distinct sites of one colour are periodic neighbours, for any
   * grid size: this is what lets a pass read every delta of one colour from
   * the grid as it was before the pass.
   */
  lemma ColorIndependent(n: int, c: Color, x: int, y: int, a: int, b: int)
    requires 0 <= x < n && 0 <= y < n
    requires InMask(n, c, x, y) && InMask(n, c, a, b) && IsNeighbour(n, x, y, a, b)
    ensures a == x && b == y
  {
    NeighbourCases(n, x, y, a, b);
    MaskParity(n, c, x, y);
    MaskParity(n, c, a, b);
    if a == x && b == y + 1 {
      StepFlipsParity(x + y);
    } else if a == x && b == y - 1 {
      StepFlipsParity(x + y - 1);
    } else if b == y && a == x + 1 {
      StepFlipsParity(x + y);
    } else if b == y && a == x - 1 {
      StepFlipsParity(x + y - 1);
    }
  }

  /** Row-major order of sites: `p` comes strictly before `q`. */
  predicate Before(p: (int, int), q: (int, int))
  {
    p.0 < q.0 || (p.0 == q.0 && p.1 < q.1)
  }

  /** Strictly increasing in row-major order, hence without repetitions. */
  predicate RowMajor(cells: seq<(int, int)>)
  {
    forall i, j :: 0 <= i < j < |cells| ==> Before(cells[i], cells[j])
  }

  /** The sites of colour `c` in row `x` from column `y0` on, in column order. */
  function RowCells(n: int, c: Color, x: int, y0: int): (cells: seq<(int, int)>)
    requires 0 <= y0 <= n
    ensures forall k :: 0 <= k < |cells| ==> cells[k].0 == x && y0 <= cells[k].1 < n && InMask(n, c, x, cells[k].1)
    ensures RowMajor(cells)
    decreases n - y0
  {
    if y0 == n then []
    else
      var rest := RowCells(n, c, x, y0 + 1);
      if InMask(n, c, x, y0) then [(x, y0)] + rest else rest
  }

  /** The sites of colour `c` in rows `x0` to `n - 1`, in row-major order. */
  function CellsFrom(n: int, c: Color, x0: int): (cells: seq<(int, int)>)
    requires 0 <= x0 <= n
    ensures forall k :: 0 <= k < |cells| ==> x0 <= cells[k].0 < n && 0 <= cells[k].1 < n && InMask(n, c, cells[k].0, cells[k].1)
    ensures RowMajor(cells)
    decreases n - x0
  {
    if x0 == n then []
    else
      var row, rest := RowCells(n, c, x0, 0), CellsFrom(n, c, x0 + 1);
      assert forall i, j :: 0 <= i < |row| && 0 <= j < |rest| ==> Before(row[i], rest[j]);
      row + rest
  }

  /**
   * `isingModel[color]`: the sites of one colour in numpy's row-major order.
   * They lie in the grid and in the mask and come in strictly increasing
   * row-major order; `ColorCellsComplete` shows they include every site of
   * the mask.
   */
  function ColorCells(n: nat, c: Color): (cells: seq<(int, int)>)
    ensures forall k :: 0 <= k < |cells| ==> 0 <= cells[k].0 < n && 0 <= cells[k].1 < n && InMask(n, c, cells[k].0, cells[k].1)
    ensures RowMajor(cells)
  {
    CellsFrom(n, c, 0)
  }

  lemma {:induction false} RowCellsComplete(n: int, c: Color, x: int, y0: int, y: int)
    requires 0 <= y0 <= y < n && InMask(n, c, x, y)
    ensures (x, y) in RowCells(n, c, x, y0)
    decreases n - y0
  {
    if y0 < y {
      RowCellsComplete(n, c, x, y0 + 1, y);
    }
  }

  lemma {:induction false} CellsFromComplete(n: int, c: Color, x0: int, x: int, y: int)
    requires 0 <= x0 <= x < n && 0 <= y < n && InMask(n, c, x, y)
    ensures (x, y) in CellsFrom(n, c, x0)
    decreases n - x0
  {
    if x0 < x {
      CellsFromComplete(n, c, x0 + 1, x, y);
    } else {
      RowCellsComplete(n, c, x, 0, y);
    }
  }

  /** Every site of a colour's mask is visited by that colour's pass. */
  lemma ColorCellsComplete(n: nat, c: Color, x: int, y: int)
    requires 0 <= x < n && 0 <= y < n && InMask(n, c, x, y)
    ensures (x, y) in ColorCells(n, c)
  {
    CellsFromComplete(n, c, 0, x, y);
  }
}
