/**
 * The spin grid. A grid value is a sequence of rows; the programs keep their
 * grid in a fixed-size two-dimensional buffer (a numpy array, or a
 * `vector<vector<int>>` sized once), modelled as an `array2<int>` whose
 * current contents `Snapshot` reads back as a grid value.
 */
module Lattice {

  type Grid = seq<seq<int>>

  /** `g` has `rows` rows of `cols` entries each. */
  predicate IsShape<T>(g: seq<seq<T>>, rows: nat, cols: nat)
  {
    |g| == rows && forall i :: 0 <= i < rows ==> |g[i]| == cols
  }

  /** The number of columns of a rectangular grid (0 for a grid without rows). */
  function Cols(g: Grid): nat
  {
    if |g| == 0 then 0 else |g[0]|
  }

  predicate IsRect(g: Grid)
  {
    IsShape(g, |g|, Cols(g))
  }

  predicate InGrid(g: Grid, x: int, y: int)
  {
    0 <= x < |g| && 0 <= y < |g[x]|
  }

  /** Every entry is a spin, +1 or -1. */
  predicate IsSpinGrid(g: Grid)
  {
    forall i, j :: 0 <= i < |g| && 0 <= j < |g[i]| ==> g[i][j] == 1 || g[i][j] == -1
  }

  /** The grid with entry `(x, y)` replaced by `v`. */
  function Set(g: Grid, x: int, y: int, v: int): (r: Grid)
    requires InGrid(g, x, y)
    ensures |r| == |g| && forall i :: 0 <= i < |g| ==> |r[i]| == |g[i]|
    ensures r[x][y] == v
    ensures forall i, j :: InGrid(g, i, j) && (i != x || j != y) ==> r[i][j] == g[i][j]
  {
    g[x := g[x][y := v]]
  }

  /** The grid with the spin at `(x, y)` negated. */
  function Flip(g: Grid, x: int, y: int): (r: Grid)
    requires InGrid(g, x, y)
    ensures |r| == |g| && forall i :: 0 <= i < |g| ==> |r[i]| == |g[i]|
    ensures r[x][y] == -g[x][y]
    ensures forall i, j :: InGrid(g, i, j) && (i != x || j != y) ==> r[i][j] == g[i][j]
  {
    Set(g, x, y, -g[x][y])
  }

  /** Negating a spin keeps it a spin. */
  lemma FlipKeepsSpins(g: Grid, x: int, y: int)
    requires InGrid(g, x, y) && IsSpinGrid(g)
    ensures IsSpinGrid(Flip(g, x, y))
  {
  }

  /** The contents of a two-dimensional buffer, as a grid value. */
  function Snapshot(a: array2<int>): (g: Grid)
    reads a
    ensures IsShape(g, a.Length0, a.Length1)
    ensures forall i, j :: 0 <= i < a.Length0 && 0 <= j < a.Length1 ==> g[i][j] == a[i, j]
  {
    seq(a.Length0, i requires 0 <= i < a.Length0 reads a =>
      seq(a.Length1, j requires 0 <= j < a.Length1 reads a => a[i, j]))
  }

  /** A grid value of the buffer's shape that agrees with it everywhere is its snapshot. */
  lemma SnapshotIs(a: array2<int>, g: Grid)
    requires IsShape(g, a.Length0, a.Length1)
    requires forall i, j :: 0 <= i < a.Length0 && 0 <= j < a.Length1 ==> g[i][j] == a[i, j]
    ensures Snapshot(a) == g
  {
    var s := Snapshot(a);
    forall i | 0 <= i < a.Length0
      ensures s[i] == g[i]
    {
    }
  }

  /** `a[x, y] = v` on the buffer. */
  method Write(a: array2<int>, x: int, y: int, v: int)
    requires 0 <= x < a.Length0 && 0 <= y < a.Length1
    modifies a
    ensures Snapshot(a) == Set(old(Snapshot(a)), x, y, v)
  {
    ghost var before := Snapshot(a);
    a[x, y] := v;
    SnapshotIs(a, Set(before, x, y, v));
  }

  /** `a[x, y] = -a[x, y]` on the buffer. */
  method FlipAt(a: array2<int>, x: int, y: int)
    requires 0 <= x < a.Length0 && 0 <= y < a.Length1
    modifies a
    ensures Snapshot(a) == Flip(old(Snapshot(a)), x, y)
  {
    Write(a, x, y, -a[x, y]);
  }
}
