/**
 * Integer and real arithmetic exactly as the two source languages define it.
 *
 * C++ `/` and `%` on `int` truncate toward zero, so `%` takes the sign of the
 * dividend. Python's `%` floors, so for the positive moduli the programs use
 * (a grid dimension) it is Dafny's Euclidean `%`. Every C++ operator that the
 * programs apply to a possibly negative operand is written out here and related
 * to the Euclidean `%` that the energy model uses.
 */
module Arith {

  function Abs(x: int): nat
  {
    if x < 0 then -x else x
  }

  /** C++ `x % y` on `int` for a positive `y`: the remainder of truncated division, with the sign of `x`. */
  function TruncRem(x: int, y: int): (r: int)
    requires y > 0
    ensures -y < r < y
    ensures r != 0 ==> (r < 0 <==> x < 0)
    ensures (x - r) % y == 0
  {
    if x >= 0 then
      EuclideanUnique(x - x % y, y, x / y, 0);
      x % y
    else
      var q, m := (-x) / y, (-x) % y;
      EuclideanUnique(x + m, y, -q, 0);
      -m
  }

  /** C++ `x / 2` on `int`: halving rounded toward zero. */
  function TruncHalf(x: int): (q: int)
    ensures x >= 0 ==> 0 <= x - 2 * q <= 1
    ensures x < 0 ==> -1 <= x - 2 * q <= 0
  {
    if x >= 0 then x / 2 else -((-x) / 2)
  }

  /**
   * `superMod` of the C++ programs: C++ `%` followed by one correction that
   * moves a negative remainder into range. Every call passes the lattice size,
   * which is positive.
   */
  function SuperMod(x: int, y: int): (s: int)
    requires y > 0
    ensures 0 <= s < y
    ensures (x - s) % y == 0
  {
    var r := TruncRem(x, y);
    if r < 0 then
      EuclideanUnique(x - r, y, (x - r) / y, 0);
      EuclideanUnique(x - (r + y), y, (x - r) / y - 1, 0);
      r + y
    else r
  }

  /** Python's `int(r)` of a float: truncation toward zero. */
  function TruncToInt(r: real): (k: int)
    ensures r >= 0.0 ==> k as real <= r < k as real + 1.0
    ensures r < 0.0 ==> k as real - 1.0 < r <= k as real
  {
    if r >= 0.0 then r.Floor else -((-r).Floor)
  }

  /**
   * `floor(n * draw)` (C++) and `floor(rand() * n)` (Python): the index that a
   * uniform draw in [0,1) selects among `n` choices.
   */
  function ScaledFloor(draw: real, n: nat): (k: int)
    requires 0.0 <= draw < 1.0
    ensures 0 <= k <= n
    ensures n > 0 ==> k < n
  {
    var v := draw * (n as real);
    ScaledBelow(draw, n);
    var k := v.Floor;
    assert k as real <= v < k as real + 1.0;
    k
  }

  lemma {:induction false} ScaledBelow(draw: real, n: nat)
    requires 0.0 <= draw < 1.0
    ensures 0.0 <= draw * (n as real) <= n as real
    ensures n > 0 ==> draw * (n as real) < n as real
  {
    if n > 0 {
      ScaledBelow(draw, n - 1);
      assert draw * (n as real) == draw * ((n - 1) as real) + draw;
    }
  }

  /** Euclidean division is unique: any decomposition `x == q*y + r` with `0 <= r < y` is Dafny's. */
  lemma EuclideanUnique(x: int, y: int, q: int, r: int)
    requires y > 0 && 0 <= r < y && x == q * y + r
    ensures x / y == q && x % y == r
  {
    var q0, r0 := x / y, x % y;
    assert x == q0 * y + r0;
    if q0 > q {
      MulAtLeast(q0 - q, y);
      assert false;
    } else if q0 < q {
      MulAtLeast(q - q0, y);
      assert false;
    }
  }

  lemma MulAtLeast(a: int, y: int)
    requires a >= 1 && y > 0
    ensures a * y >= y
  {
    assert a * y == (a - 1) * y + y;
    assert (a - 1) * y >= 0;
  }

  /**
   * For a positive modulus the C++ `superMod` agrees with Python's `%`
   * (Dafny's `%`), so both programs index the same periodic neighbours.
   */
  lemma SuperModIsFloorMod(x: int, y: int)
    requires y > 0
    ensures SuperMod(x, y) == x % y
  {
    var s := SuperMod(x, y);
    EuclideanUnique(x - s, y, (x - s) / y, 0);
    EuclideanUnique(x, y, (x - s) / y, s);
  }

  /**
   * Without the correction in `superMod`, C++ `%` leaves a negative index for a
   * negative dividend that `y` does not divide: the correction is needed.
   */
  lemma TruncRemNegativeWithoutCorrection(x: int, y: int)
    requires y > 0 && x < 0 && x % y != 0
    ensures TruncRem(x, y) < 0
    ensures SuperMod(x, y) == TruncRem(x, y) + y
  {
  }

  /** C++ `%` leaves an index that is already in `[0, y)` unchanged (the trailing `%size`). */
  lemma TruncRemOfReduced(r: int, y: int)
    requires 0 <= r < y
    ensures TruncRem(r, y) == r
  {
    EuclideanUnique(r, y, 0, r);
  }

  /** On an even value, C++ `/ 2` and Python `int(v / 2)` are exact and agree with `v / 2`. */
  lemma HalvingEvenIsExact(v: int)
    requires v % 2 == 0
    ensures TruncHalf(v) == v / 2 && 2 * (v / 2) == v
    ensures TruncToInt(v as real / 2.0) == v / 2
  {
    var h := v / 2;
    assert v == 2 * h;
    assert v as real / 2.0 == h as real;
  }
}
