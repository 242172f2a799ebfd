/**
 * Row-major raster indexing: the pixel in row r and column c of a band
 * bandDimX pixels wide sits at flat index r * bandDimX + c. The solver does
 * not reason about products of variables unaided, so the few facts the
 * raster loops need are proved here once.
 */
module Grid {

  /** Multiplication by a natural number is monotone. */
  lemma {:induction false} MulLe(a: nat, b: nat, x: nat)
    requires a <= b
    ensures a * x <= b * x
    decreases b - a
  {
    if a < b {
      MulLe(a, b - 1, x);
      assert (b - 1) * x + x == b * x;
    }
  }

  /** A cell inside a Y by X raster has a flat index inside it, and the index decodes back. */
  lemma Cell(r: nat, c: nat, X: nat, Y: nat)
    requires r < Y && c < X
    ensures r * X + c < X * Y && (r * X + c) / X == r && (r * X + c) % X == c
  {
    MulLe(r + 1, Y, X);
    var q := (r * X + c) / X;
    var m := (r * X + c) % X;
    assert q * X + m == r * X + c;
    if q > r {
      MulLe(r + 1, q, X);
      assert false;
    } else if q < r {
      MulLe(q + 1, r, X);
      assert false;
    }
  }

  /** A flat index inside a Y by X raster decodes to a row below Y and a column below X. */
  lemma Uncell(p: nat, X: nat, Y: nat)
    requires p < X * Y
    ensures 0 < X && p / X < Y && p % X < X && p == (p / X) * X + p % X
  {
    if p / X >= Y {
      MulLe(Y, p / X, X);
      assert false;
    }
  }

  /** The cell h rows below p: same column, row h further down. */
  lemma CellBelow(p: nat, h: nat, X: nat, Y: nat)
    requires p < X * Y && p / X + h < Y
    ensures p + h * X < X * Y
    ensures (p + h * X) / X == p / X + h && (p + h * X) % X == p % X
  {
    Uncell(p, X, Y);
    Cell(p / X + h, p % X, X, Y);
    assert (p / X + h) * X + p % X == p + h * X;
  }

  /** The cell c columns to the right of p, when it stays in the same row. */
  lemma CellRight(p: nat, c: nat, X: nat, Y: nat)
    requires p < X * Y && p % X + c < X
    ensures p + c < X * Y && (p + c) / X == p / X && (p + c) % X == p % X + c
  {
    Uncell(p, X, Y);
    Cell(p / X, p % X + c, X, Y);
  }
}
