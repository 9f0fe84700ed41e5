/**
 * A two-dimensional raster of pixels: an image or one tile of it. Only its
 * row/column structure matters here; a pixel is any value (a grey level or
 * a vector of channels alike).
 */
module Raster {

  /** `h` rows of `w` pixels each; the dimensions are kept even when a side is 0. */
  datatype Matrix<T> = Matrix(h: nat, w: nat, px: seq<seq<T>>) {
    predicate Valid() {
      |px| == h && forall i :: 0 <= i < |px| ==> |px[i]| == w
    }
  }

  /** Every matrix of the list is well formed. */
  predicate AllWellFormed<T>(ms: seq<Matrix<T>>) {
    forall i :: 0 <= i < |ms| ==> ms[i].Valid()
  }

  /** Two well-formed matrices with the same shape and the same pixels are equal. */
  lemma {:induction false} SameMatrix<T>(a: Matrix<T>, b: Matrix<T>)
    requires a.Valid() && b.Valid() && a.h == b.h && a.w == b.w
    requires forall i, j :: 0 <= i < a.h && 0 <= j < a.w ==> a.px[i][j] == b.px[i][j]
    ensures a == b
  {
    forall i | 0 <= i < a.h
      ensures a.px[i] == b.px[i]
    {
      assert forall j :: 0 <= j < a.w ==> a.px[i][j] == b.px[i][j];
    }
  }

  /** The block of rows `y0..y1` and columns `x0..x1` (half-open), as `img[y0:y1, x0:x1]`. */
  function Block<T>(m: Matrix<T>, y0: nat, y1: nat, x0: nat, x1: nat): (b: Matrix<T>)
    requires m.Valid() && y0 <= y1 <= m.h && x0 <= x1 <= m.w
    ensures b.Valid() && b.h == y1 - y0 && b.w == x1 - x0
  {
    Matrix(y1 - y0, x1 - x0, seq(y1 - y0, i requires 0 <= i < y1 - y0 => m.px[y0 + i][x0..x1]))
  }

  /** Pixel `(i, j)` of a block is pixel `(y0 + i, x0 + j)` of the matrix it is cut from. */
  lemma {:induction false} BlockPixels<T>(m: Matrix<T>, y0: nat, y1: nat, x0: nat, x1: nat)
    requires m.Valid() && y0 <= y1 <= m.h && x0 <= x1 <= m.w
    ensures forall i, j :: 0 <= i < y1 - y0 && 0 <= j < x1 - x0 ==>
      Block(m, y0, y1, x0, x1).px[i][j] == m.px[y0 + i][x0 + j]
  {
  }
}
