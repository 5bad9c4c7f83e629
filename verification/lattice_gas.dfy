/**
 * The lattice-gas program: a square lattice of cells that are empty (0) or
 * hold a particle (1). It starts with the upper half empty and the lower half
 * full, then repeatedly picks a random cell and a random direction and swaps
 * the cell with that neighbour when the neighbour lies inside the lattice.
 * The lattice is updated in place, so it is an `array2<int>`; randomness is
 * supplied as the draws the generator returns.
 */
module LatticeGas {
  import opened Lattice
  import Arith

  /** The three uniform draws of one step, in the order the program takes them. */
  datatype GasDraw = GasDraw(x: real, y: real, neighbour: real)

  predicate IsDraw(d: GasDraw)
  {
    0.0 <= d.x < 1.0 && 0.0 <= d.y < 1.0 && 0.0 <= d.neighbour < 1.0
  }

  predicate AllDraws(ds: seq<GasDraw>)
  {
    forall k :: 0 <= k < |ds| ==> IsDraw(ds[k])
  }

  /**
   * The bounds test on a move toward a lower index. The program tests
   * `rand - 1 > 0` (`AsWritten`), which also refuses moves into row or
   * column 0; `Corrected` tests that `rand - 1` is an index.
   */
  datatype BoundsRule = AsWritten | Corrected

  predicate LowerAllowed(rule: BoundsRule, k: int)
  {
    match rule
    case AsWritten => k - 1 > 0
    case Corrected => k - 1 >= 0
  }

  /** What a step does: nothing, or swap the chosen cell with the cell `(x, y)`. */
  datatype Move = Stay | SwapWith(x: int, y: int)

  /** `floor(n * x)`, `floor(n * y)` and `floor(4 * neighbour)` for one step's draws. */
  function Site(n: nat, d: GasDraw): (s: (int, int, int))
    requires IsDraw(d)
    ensures 0 <= s.0 <= n && 0 <= s.1 <= n && 0 <= s.2 < 4
    ensures n > 0 ==> s.0 < n && s.1 < n
  {
    (Arith.ScaledFloor(d.x, n), Arith.ScaledFloor(d.y, n), Arith.ScaledFloor(d.neighbour, 4))
  }

  /**
   * The move a step makes for the chosen cell `(x, y)` and direction `nb`:
   * the four guarded branches, tried in order.
   */
  function Choose(rule: BoundsRule, n: nat, x: int, y: int, nb: int): (m: Move)
    requires 0 <= x < n && 0 <= y < n
    ensures m.SwapWith? ==> 0 <= m.x < n && 0 <= m.y < n
    ensures m.SwapWith? ==> Arith.Abs(m.x - x) + Arith.Abs(m.y - y) == 1
  {
    if LowerAllowed(rule, x) && nb == 0 then SwapWith(x - 1, y)
    else if LowerAllowed(rule, y) && nb == 1 then SwapWith(x, y - 1)
    else if x + 1 < n && nb == 2 then SwapWith(x + 1, y)
    else if y + 1 < n && nb == 3 then SwapWith(x, y + 1)
    else Stay
  }

  /**
   * A move to a lower row is made exactly when the lower row exists and, as
   * written, is not row 0: from row 1 the program never moves up.
   */
  lemma LowerMoveCondition(rule: BoundsRule, n: nat, x: int, y: int)
    requires 0 <= x < n && 0 <= y < n
    ensures Choose(rule, n, x, y, 0) == (if LowerAllowed(rule, x) then SwapWith(x - 1, y) else Stay)
    ensures Choose(rule, n, x, y, 0).SwapWith? <==> (if rule == AsWritten then x >= 2 else x >= 1)
    ensures Choose(rule, n, x, y, 1).SwapWith? <==> (if rule == AsWritten then y >= 2 else y >= 1)
  {
  }

  /** A move to a higher row or column is made exactly when it exists: the index is at most `n - 2`. */
  lemma UpperMoveCondition(rule: BoundsRule, n: nat, x: int, y: int)
    requires 0 <= x < n && 0 <= y < n
    ensures Choose(rule, n, x, y, 2).SwapWith? <==> x <= n - 2
    ensures Choose(rule, n, x, y, 3).SwapWith? <==> y <= n - 2
    ensures Choose(rule, n, x, y, 2).SwapWith? ==> Choose(rule, n, x, y, 2) == SwapWith(x + 1, y)
    ensures Choose(rule, n, x, y, 3).SwapWith? ==> Choose(rule, n, x, y, 3) == SwapWith(x, y + 1)
  {
  }

  /**
   * The bounds test as written refuses to swap a cell of row 1 (or column 1)
   * with its neighbour in row 0 (column 0), a swap the corrected test makes.
   * The same pair is still exchanged when the cell of row 0 (column 0) is the
   * chosen one and its neighbour is the one above it, so only the move that
   * starts from index 1 is lost.
   */
  lemma EdgeMoveRefused(n: nat, y: int)
    requires 2 <= n && 0 <= y < n
    ensures Choose(AsWritten, n, 1, y, 0) == Stay
    ensures Choose(Corrected, n, 1, y, 0) == SwapWith(0, y)
    ensures Choose(AsWritten, n, y, 1, 1) == Stay
    ensures Choose(Corrected, n, y, 1, 1) == SwapWith(y, 0)
  {
  }

  /**
   * With the corrected test the boundary is symmetric: a cell can move toward
   * the lower edge exactly when its mirror image can move toward the upper
   * edge, along either axis.
   */
  lemma CorrectedIsSymmetric(n: nat, x: int, y: int)
    requires 0 <= x < n && 0 <= y < n
    ensures Choose(Corrected, n, x, y, 0).SwapWith? <==> Choose(Corrected, n, n - 1 - x, y, 2).SwapWith?
    ensures Choose(Corrected, n, x, y, 1).SwapWith? <==> Choose(Corrected, n, x, n - 1 - y, 3).SwapWith?
  {
  }

  /** The grid with the entries at `(x1, y1)` and `(x2, y2)` exchanged. */
  function Swapped(g: Grid, x1: int, y1: int, x2: int, y2: int): (r: Grid)
    requires InGrid(g, x1, y1) && InGrid(g, x2, y2)
    ensures |r| == |g| && forall i :: 0 <= i < |g| ==> |r[i]| == |g[i]|
    ensures r[x1][y1] == g[x2][y2] && r[x2][y2] == g[x1][y1]
    ensures forall i, j :: InGrid(g, i, j) && (i != x1 || j != y1) && (i != x2 || j != y2) ==> r[i][j] == g[i][j]
  {
    Set(Set(g, x1, y1, g[x2][y2]), x2, y2, g[x1][y1])
  }

  /** Swapping the same two cells twice restores the grid. */
  lemma SwapTwice(g: Grid, x1: int, y1: int, x2: int, y2: int)
    requires InGrid(g, x1, y1) && InGrid(g, x2, y2)
    ensures Swapped(Swapped(g, x1, y1, x2, y2), x1, y1, x2, y2) == g
  {
    var r := Swapped(Swapped(g, x1, y1, x2, y2), x1, y1, x2, y2);
    forall i | 0 <= i < |g|
      ensures r[i] == g[i]
    {
    }
  }

  /** `valueSwap`: exchange two cells through a temporary. */
  method ValueSwap(gas: array2<int>, x1: int, y1: int, x2: int, y2: int)
    requires 0 <= x1 < gas.Length0 && 0 <= y1 < gas.Length1
    requires 0 <= x2 < gas.Length0 && 0 <= y2 < gas.Length1
    modifies gas
    ensures Snapshot(gas) == Swapped(old(Snapshot(gas)), x1, y1, x2, y2)
  {
    var temp := gas[x1, y1];
    Write(gas, x1, y1, gas[x2, y2]);
    Write(gas, x2, y2, temp);
  }

  // Counting cells

  function Indicator(b: bool): nat
  {
    if b then 1 else 0
  }

  /** The number of entries of a row equal to `v`. */
  function RowCount(row: seq<int>, v: int): (c: nat)
    ensures c <= |row|
  {
    if |row| == 0 then 0 else Indicator(row[0] == v) + RowCount(row[1..], v)
  }

  /** The number of entries of a grid equal to `v`; `Count(g, 1)` is the number of particles. */
  function Count(g: Grid, v: int): nat
  {
    if |g| == 0 then 0 else RowCount(g[0], v) + Count(g[1..], v)
  }

  lemma {:induction false} RowCountUpdate(row: seq<int>, j: nat, w: int, v: int)
    requires j < |row|
    ensures RowCount(row[j := w], v) == RowCount(row, v) - Indicator(row[j] == v) + Indicator(w == v)
    decreases j
  {
    if j > 0 {
      assert row[j := w][1..] == row[1..][j - 1 := w];
      RowCountUpdate(row[1..], j - 1, w, v);
    } else {
      assert row[j := w][1..] == row[1..];
    }
  }

  lemma {:induction false} CountRowUpdate(g: Grid, i: nat, row: seq<int>, v: int)
    requires i < |g|
    ensures Count(g[i := row], v) == Count(g, v) - RowCount(g[i], v) + RowCount(row, v)
    decreases i
  {
    if i > 0 {
      assert g[i := row][1..] == g[1..][i - 1 := row];
      CountRowUpdate(g[1..], i - 1, row, v);
    } else {
      assert g[i := row][1..] == g[1..];
    }
  }

  /** Writing one entry changes a count by what leaves and what arrives. */
  lemma CountSet(g: Grid, x: int, y: int, w: int, v: int)
    requires InGrid(g, x, y)
    ensures Count(Set(g, x, y, w), v) == Count(g, v) - Indicator(g[x][y] == v) + Indicator(w == v)
  {
    RowCountUpdate(g[x], y, w, v);
    CountRowUpdate(g, x, g[x][y := w], v);
  }

  /** `valueSwap` conserves the number of particles and of empty cells. */
  lemma SwapKeepsCount(g: Grid, x1: int, y1: int, x2: int, y2: int, v: int)
    requires InGrid(g, x1, y1) && InGrid(g, x2, y2)
    ensures Count(Swapped(g, x1, y1, x2, y2), v) == Count(g, v)
  {
    var h := Set(g, x1, y1, g[x2][y2]);
    CountSet(g, x1, y1, g[x2][y2], v);
    CountSet(h, x2, y2, g[x1][y1], v);
    assert h[x2][y2] == g[x2][y2];
  }

  // Initialisation

  /** `floor(lattice_size * 0.5)`: the number of rows left empty. */
  function HalfRows(n: nat): (h: int)
    ensures h == n / 2
  {
    var q, r := n / 2, n % 2;
    assert n as real * 0.5 == q as real + r as real * 0.5;
    (n as real * 0.5).Floor
  }

  /** The starting lattice: the first `n / 2` rows empty, the remaining rows full. */
  function Initial(n: nat): (g: Grid)
    ensures IsShape(g, n, n)
    ensures forall i, j :: 0 <= i < n && 0 <= j < n ==> g[i][j] == if i < n / 2 then 0 else 1
  {
    var half := HalfRows(n);
    seq(n, i requires 0 <= i < n => seq(n, j requires 0 <= j < n => if i < half then 0 else 1))
  }

  function Constant(n: nat, v: int): (row: seq<int>)
    ensures |row| == n && forall j :: 0 <= j < n ==> row[j] == v
  {
    seq(n, j requires 0 <= j < n => v)
  }

  lemma {:induction false} ConstantRowCount(n: nat, v: int)
    ensures RowCount(Constant(n, v), v) == n
    ensures RowCount(Constant(n, v), 1 - v) == 0
  {
    if n > 0 {
      ConstantRowCount(n - 1, v);
      assert Constant(n, v)[1..] == Constant(n - 1, v);
    }
  }

  /** Rows that are all `v` (0 or 1) hold `n` cells equal to `v` each and none equal to `1 - v`. */
  lemma {:induction false} UniformRowsCount(rows: Grid, n: nat, v: int)
    requires forall k :: 0 <= k < |rows| ==> rows[k] == Constant(n, v)
    ensures Count(rows, v) == |rows| * n && Count(rows, 1 - v) == 0
    decreases |rows|
  {
    if |rows| > 0 {
      UniformRowsCount(rows[1..], n, v);
      ConstantRowCount(n, v);
      assert |rows| * n == (|rows| - 1) * n + n;
    }
  }

  /** Counting is additive over the rows. */
  lemma {:induction false} CountAppend(a: Grid, b: Grid, v: int)
    ensures Count(a + b, v) == Count(a, v) + Count(b, v)
    decreases |a|
  {
    if |a| > 0 {
      assert (a + b)[1..] == a[1..] + b;
      CountAppend(a[1..], b, v);
    } else {
      assert a + b == b;
    }
  }

  /** A grid of `h` empty rows above `|g| - h` full rows, each of length `n`. */
  lemma SplitCount(g: Grid, h: nat, n: nat)
    requires h <= |g|
    requires forall k :: 0 <= k < h ==> g[k] == Constant(n, 0)
    requires forall k :: h <= k < |g| ==> g[k] == Constant(n, 1)
    ensures Count(g, 1) == (|g| - h) * n && Count(g, 0) == h * n
  {
    var top, bottom := g[..h], g[h..];
    assert g == top + bottom;
    assert forall k :: 0 <= k < |bottom| ==> bottom[k] == g[h + k];
    UniformRowsCount(top, n, 0);
    UniformRowsCount(bottom, n, 1);
    CountAppend(top, bottom, 0);
    CountAppend(top, bottom, 1);
  }

  /**
   * The starting lattice holds `n - n / 2` full rows of particles and
   * `n / 2` empty rows: half the cells each way, up to one row.
   */
  lemma InitialCounts(n: nat)
    ensures Count(Initial(n), 1) == (n - n / 2) * n
    ensures Count(Initial(n), 0) == (n / 2) * n
  {
    var g := Initial(n);
    forall k | 0 <= k < n
      ensures g[k] == Constant(n, if k < n / 2 then 0 else 1)
    {
    }
    SplitCount(g, n / 2, n);
  }

  /** `fill(latticeGas[i].begin(), latticeGas[i].end(), v)`. */
  method FillRow(gas: array2<int>, i: int, v: int)
    requires 0 <= i < gas.Length0
    modifies gas
    ensures forall j :: 0 <= j < gas.Length1 ==> gas[i, j] == v
    ensures forall r, j :: 0 <= r < gas.Length0 && r != i && 0 <= j < gas.Length1 ==> gas[r, j] == old(gas[r, j])
  {
    var j := 0;
    while j < gas.Length1
      invariant 0 <= j <= gas.Length1
      invariant forall k :: 0 <= k < j ==> gas[i, k] == v
      invariant forall r, k :: 0 <= r < gas.Length0 && r != i && 0 <= k < gas.Length1 ==> gas[r, k] == old(gas[r, k])
    {
      gas[i, j] := v;
      j := j + 1;
    }
  }

  /** `initialize`: an `n` by `n` lattice, empty above row `n / 2` and full from it on. */
  method Initialize(latticeSize: nat) returns (gas: array2<int>)
    ensures fresh(gas)
    ensures gas.Length0 == latticeSize && gas.Length1 == latticeSize
    ensures Snapshot(gas) == Initial(latticeSize)
  {
    gas := new int[latticeSize, latticeSize];
    var half := HalfRows(latticeSize);
    var i := 0;
    while i < half
      invariant 0 <= i <= half
      invariant forall r, j :: 0 <= r < i && 0 <= j < latticeSize ==> gas[r, j] == 0
    {
      FillRow(gas, i, 0);
      i := i + 1;
    }
    i := half;
    while i < latticeSize
      invariant half <= i <= latticeSize
      invariant forall r, j :: 0 <= r < half && 0 <= j < latticeSize ==> gas[r, j] == 0
      invariant forall r, j :: half <= r < i && 0 <= j < latticeSize ==> gas[r, j] == 1
    {
      FillRow(gas, i, 1);
      i := i + 1;
    }
    SnapshotIs(gas, Initial(latticeSize));
  }

  // Steps and sweeps

  /** One step on a grid value: the move the draws choose, applied. */
  function Step(rule: BoundsRule, g: Grid, n: nat, d: GasDraw): (r: Grid)
    requires IsShape(g, n, n) && n > 0 && IsDraw(d)
    ensures IsShape(r, n, n)
  {
    var (x, y, nb) := Site(n, d);
    match Choose(rule, n, x, y, nb)
    case Stay => g
    case SwapWith(x2, y2) => Swapped(g, x, y, x2, y2)
  }

  /** A step exchanges the chosen cell with an in-bounds neighbour or changes nothing. */
  lemma StepIsNeighbourSwap(rule: BoundsRule, g: Grid, n: nat, d: GasDraw)
    requires IsShape(g, n, n) && n > 0 && IsDraw(d)
    ensures var (x, y, nb) := Site(n, d);
      Step(rule, g, n, d) == g ||
      exists x2, y2 :: 0 <= x2 < n && 0 <= y2 < n && Arith.Abs(x2 - x) + Arith.Abs(y2 - y) == 1 &&
        Step(rule, g, n, d) == Swapped(g, x, y, x2, y2)
  {
    var (x, y, nb) := Site(n, d);
    var m := Choose(rule, n, x, y, nb);
    if m.SwapWith? {
      assert Step(rule, g, n, d) == Swapped(g, x, y, m.x, m.y);
    }
  }

  /** A step conserves the number of cells holding any value. */
  lemma StepKeepsCount(rule: BoundsRule, g: Grid, n: nat, d: GasDraw, v: int)
    requires IsShape(g, n, n) && n > 0 && IsDraw(d)
    ensures Count(Step(rule, g, n, d), v) == Count(g, v)
  {
    var (x, y, nb) := Site(n, d);
    var m := Choose(rule, n, x, y, nb);
    if m.SwapWith? {
      SwapKeepsCount(g, x, y, m.x, m.y, v);
    }
  }

  /** One step of the inner loop of `main`, on the lattice in place. */
  method StepInPlace(gas: array2<int>, rule: BoundsRule, d: GasDraw)
    requires gas.Length0 == gas.Length1 > 0 && IsDraw(d)
    modifies gas
    ensures Snapshot(gas) == Step(rule, old(Snapshot(gas)), gas.Length0, d)
  {
    var latticeSize := gas.Length0;
    var randX := Arith.ScaledFloor(d.x, latticeSize);
    var randY := Arith.ScaledFloor(d.y, latticeSize);
    var neighbour := Arith.ScaledFloor(d.neighbour, 4);
    if LowerAllowed(rule, randX) && neighbour == 0 {
      ValueSwap(gas, randX, randY, randX - 1, randY);
    } else if LowerAllowed(rule, randY) && neighbour == 1 {
      ValueSwap(gas, randX, randY, randX, randY - 1);
    } else if randX + 1 < latticeSize && neighbour == 2 {
      ValueSwap(gas, randX, randY, randX + 1, randY);
    } else if randY + 1 < latticeSize && neighbour == 3 {
      ValueSwap(gas, randX, randY, randX, randY + 1);
    }
  }

  /** The grid after the steps `ds`, in order. */
  function Steps(rule: BoundsRule, g: Grid, n: nat, ds: seq<GasDraw>): (r: Grid)
    requires IsShape(g, n, n) && n > 0 && AllDraws(ds)
    ensures IsShape(r, n, n)
    decreases |ds|
  {
    if |ds| == 0 then g else Step(rule, Steps(rule, g, n, ds[..|ds| - 1]), n, ds[|ds| - 1])
  }

  /** Any run of steps conserves the number of particles and of empty cells. */
  lemma {:induction false} StepsKeepCount(rule: BoundsRule, g: Grid, n: nat, ds: seq<GasDraw>, v: int)
    requires IsShape(g, n, n) && n > 0 && AllDraws(ds)
    ensures Count(Steps(rule, g, n, ds), v) == Count(g, v)
    decreases |ds|
  {
    if |ds| > 0 {
      StepsKeepCount(rule, g, n, ds[..|ds| - 1], v);
      StepKeepsCount(rule, Steps(rule, g, n, ds[..|ds| - 1]), n, ds[|ds| - 1], v);
    }
  }

  /** Running `a` and then `b` is running `a + b`. */
  lemma {:induction false} StepsAppend(rule: BoundsRule, g: Grid, n: nat, a: seq<GasDraw>, b: seq<GasDraw>)
    requires IsShape(g, n, n) && n > 0 && AllDraws(a) && AllDraws(b)
    ensures AllDraws(a + b)
    ensures Steps(rule, g, n, a + b) == Steps(rule, Steps(rule, g, n, a), n, b)
    decreases |b|
  {
    if |b| > 0 {
      assert (a + b)[..|a + b| - 1] == a + b[..|b| - 1];
      StepsAppend(rule, g, n, a, b[..|b| - 1]);
      assert (a + b)[|a + b| - 1] == b[|b| - 1];
    } else {
      assert a + b == a;
    }
  }

  /** The inner loop of `main`: one sweep of steps, each with its own draws. */
  method Sweep(gas: array2<int>, rule: BoundsRule, ds: seq<GasDraw>)
    requires gas.Length0 == gas.Length1 > 0 && AllDraws(ds)
    modifies gas
    ensures Snapshot(gas) == Steps(rule, old(Snapshot(gas)), gas.Length0, ds)
  {
    ghost var g0 := Snapshot(gas);
    var j := 0;
    while j < |ds|
      invariant 0 <= j <= |ds|
      invariant Snapshot(gas) == Steps(rule, g0, gas.Length0, ds[..j])
    {
      assert ds[..j + 1][..j] == ds[..j];
      StepInPlace(gas, rule, ds[j]);
      j := j + 1;
    }
    assert ds[..|ds|] == ds;
  }

  /** The draws of several sweeps, one after another. */
  function Concat(sweeps: seq<seq<GasDraw>>): (ds: seq<GasDraw>)
    ensures |sweeps| > 0 ==> ds == Concat(sweeps[..|sweeps| - 1]) + sweeps[|sweeps| - 1]
    decreases |sweeps|
  {
    if |sweeps| == 0 then [] else Concat(sweeps[..|sweeps| - 1]) + sweeps[|sweeps| - 1]
  }

  predicate AllSweeps(sweeps: seq<seq<GasDraw>>, swapsPerSweep: nat)
  {
    forall s :: 0 <= s < |sweeps| ==> |sweeps[s]| == swapsPerSweep && AllDraws(sweeps[s])
  }

  lemma {:induction false} ConcatDraws(sweeps: seq<seq<GasDraw>>, swapsPerSweep: nat)
    requires AllSweeps(sweeps, swapsPerSweep)
    ensures AllDraws(Concat(sweeps)) && |Concat(sweeps)| == |sweeps| * swapsPerSweep
    decreases |sweeps|
  {
    if |sweeps| > 0 {
      ConcatDraws(sweeps[..|sweeps| - 1], swapsPerSweep);
      assert |sweeps| * swapsPerSweep == (|sweeps| - 1) * swapsPerSweep + swapsPerSweep;
    }
  }

  /** The outer loop of `main`: `lattice_size * lattice_size` steps per sweep, sweep after sweep. */
  method Sweeps(gas: array2<int>, rule: BoundsRule, sweeps: seq<seq<GasDraw>>)
    requires gas.Length0 == gas.Length1 > 0
    requires AllSweeps(sweeps, gas.Length0 * gas.Length0)
    modifies gas
    ensures AllDraws(Concat(sweeps))
    ensures Snapshot(gas) == Steps(rule, old(Snapshot(gas)), gas.Length0, Concat(sweeps))
  {
    ghost var g0 := Snapshot(gas);
    var i := 0;
    while i < |sweeps|
      invariant 0 <= i <= |sweeps|
      invariant AllSweeps(sweeps[..i], gas.Length0 * gas.Length0)
      invariant AllDraws(Concat(sweeps[..i]))
      invariant Snapshot(gas) == Steps(rule, g0, gas.Length0, Concat(sweeps[..i]))
    {
      assert sweeps[..i + 1][..i] == sweeps[..i];
      StepsAppend(rule, g0, gas.Length0, Concat(sweeps[..i]), sweeps[i]);
      Sweep(gas, rule, sweeps[i]);
      i := i + 1;
      ConcatDraws(sweeps[..i], gas.Length0 * gas.Length0);
    }
    assert sweeps[..|sweeps|] == sweeps;
  }

  /**
   * `main` without its window: initialise, run every sweep, and the lattice
   * still holds as many particles as it started with.
   */
  method Simulate(latticeSize: nat, rule: BoundsRule, sweeps: seq<seq<GasDraw>>) returns (gas: array2<int>)
    requires latticeSize > 0 && AllSweeps(sweeps, latticeSize * latticeSize)
    ensures gas.Length0 == latticeSize && gas.Length1 == latticeSize
    ensures AllDraws(Concat(sweeps))
    ensures Snapshot(gas) == Steps(rule, Initial(latticeSize), latticeSize, Concat(sweeps))
    ensures Count(Snapshot(gas), 1) == (latticeSize - latticeSize / 2) * latticeSize
    ensures Count(Snapshot(gas), 0) == (latticeSize / 2) * latticeSize
  {
    gas := Initialize(latticeSize);
    Sweeps(gas, rule, sweeps);
    InitialCounts(latticeSize);
    StepsKeepCount(rule, Initial(latticeSize), latticeSize, Concat(sweeps), 1);
    StepsKeepCount(rule, Initial(latticeSize), latticeSize, Concat(sweeps), 0);
  }
}
