/**
 * The orientation codec of cipher.py: a 3-bit code picks one of eight
 * variants of a tile, a quarter-turn rotation (`code & 3`) followed by an
 * optional mirror about the vertical axis (`(code >> 2) & 1`), and an
 * inverse that undoes the mirror first and the rotation second.
 *
 * The OpenCV operations are index maps on a matrix: for an `h`-by-`w`
 * input, clockwise and counter-clockwise quarter turns give a `w`-by-`h`
 * result, a half turn and a mirror keep the shape.
 */
module Orientation {
  import opened Bits
  import opened Raster

  /** `cv2.rotate(t, ROTATE_90_CLOCKWISE)`: output row `i` is input column `i` read bottom to top. */
  function RotateCw<T>(t: Matrix<T>): (r: Matrix<T>)
    requires t.Valid()
    ensures r.Valid() && r.h == t.w && r.w == t.h
  {
    Matrix(t.w, t.h, seq(t.w, i requires 0 <= i < t.w =>
      seq(t.h, j requires 0 <= j < t.h => t.px[t.h - 1 - j][i])))
  }

  /** `cv2.rotate(t, ROTATE_90_COUNTERCLOCKWISE)`: output row `i` is input column `w - 1 - i` read top to bottom. */
  function RotateCcw<T>(t: Matrix<T>): (r: Matrix<T>)
    requires t.Valid()
    ensures r.Valid() && r.h == t.w && r.w == t.h
  {
    Matrix(t.w, t.h, seq(t.w, i requires 0 <= i < t.w =>
      seq(t.h, j requires 0 <= j < t.h => t.px[j][t.w - 1 - i])))
  }

  /** `cv2.rotate(t, ROTATE_180)`. */
  function Rotate180<T>(t: Matrix<T>): (r: Matrix<T>)
    requires t.Valid()
    ensures r.Valid() && r.h == t.h && r.w == t.w
  {
    Matrix(t.h, t.w, seq(t.h, i requires 0 <= i < t.h =>
      seq(t.w, j requires 0 <= j < t.w => t.px[t.h - 1 - i][t.w - 1 - j])))
  }

  /** `cv2.flip(t, 1)`: every row reversed. */
  function Mirror<T>(t: Matrix<T>): (r: Matrix<T>)
    requires t.Valid()
    ensures r.Valid() && r.h == t.h && r.w == t.w
  {
    Matrix(t.h, t.w, seq(t.h, i requires 0 <= i < t.h =>
      seq(t.w, j requires 0 <= j < t.w => t.px[i][t.w - 1 - j])))
  }

  /** The rotation selector `code & 3`. */
  function RotationOf(code: nat): (rot: nat)
    ensures rot < 4
  {
    assert Pow2(2) == 4;
    Mask(code, 2)
  }

  /** The mirror bit `(code >> 2) & 1`. */
  function MirrorOf(code: nat): (flip: nat)
    ensures flip < 2
  {
    Bit(code, 2)
  }

  /** The code is the rotation selector plus four times the mirror bit, as long as it has three bits. */
  lemma {:induction false} CodeParts(code: nat)
    requires code < 8
    ensures code == RotationOf(code) + 4 * MirrorOf(code)
  {
    assert Pow2(2) == 4;
    BitTwo(code);
  }

  /** Quarter turn by the selector: 1 clockwise, 2 half turn, 3 counter-clockwise, 0 none. */
  function Rotate<T>(t: Matrix<T>, rot: nat): (r: Matrix<T>)
    requires t.Valid()
    ensures r.Valid()
    ensures r.h == (if rot == 1 || rot == 3 then t.w else t.h)
    ensures r.w == (if rot == 1 || rot == 3 then t.h else t.w)
  {
    if rot == 1 then RotateCw(t)
    else if rot == 2 then Rotate180(t)
    else if rot == 3 then RotateCcw(t)
    else t
  }

  /** The rotation that undoes selector `rot`: 1 counter-clockwise, 2 half turn, 3 clockwise. */
  function RotateBack<T>(t: Matrix<T>, rot: nat): (r: Matrix<T>)
    requires t.Valid()
    ensures r.Valid()
    ensures r.h == (if rot == 1 || rot == 3 then t.w else t.h)
    ensures r.w == (if rot == 1 || rot == 3 then t.h else t.w)
  {
    if rot == 1 then RotateCcw(t)
    else if rot == 2 then Rotate180(t)
    else if rot == 3 then RotateCw(t)
    else t
  }

  /**
   * `transform_tile`: rotate, then mirror when the mirror bit is set. Odd
   * selectors swap the tile's height and width; a square tile keeps its shape.
   */
  function TransformTile<T>(t: Matrix<T>, code: nat): (r: Matrix<T>)
    requires t.Valid()
    ensures r.Valid()
    ensures RotationOf(code) % 2 == 1 ==> r.h == t.w && r.w == t.h
    ensures RotationOf(code) % 2 == 0 ==> r.h == t.h && r.w == t.w
  {
    var rotated := Rotate(t, RotationOf(code));
    if MirrorOf(code) == 1 then Mirror(rotated) else rotated
  }

  /** `inverse_transform_tile`: mirror first when the bit is set, then rotate back. */
  function InverseTransformTile<T>(t: Matrix<T>, code: nat): (r: Matrix<T>)
    requires t.Valid()
    ensures r.Valid()
    ensures RotationOf(code) % 2 == 1 ==> r.h == t.w && r.w == t.h
    ensures RotationOf(code) % 2 == 0 ==> r.h == t.h && r.w == t.w
  {
    var unmirrored := if MirrorOf(code) == 1 then Mirror(t) else t;
    RotateBack(unmirrored, RotationOf(code))
  }

  lemma {:induction false} MirrorTwice<T>(t: Matrix<T>)
    requires t.Valid()
    ensures Mirror(Mirror(t)) == t
  {
    SameMatrix(Mirror(Mirror(t)), t);
  }

  lemma {:induction false} HalfTurnTwice<T>(t: Matrix<T>)
    requires t.Valid()
    ensures Rotate180(Rotate180(t)) == t
  {
    SameMatrix(Rotate180(Rotate180(t)), t);
  }

  /** A clockwise and a counter-clockwise quarter turn cancel, in either order. */
  lemma {:induction false} QuarterTurnsCancel<T>(t: Matrix<T>)
    requires t.Valid()
    ensures RotateCcw(RotateCw(t)) == t
    ensures RotateCw(RotateCcw(t)) == t
  {
    SameMatrix(RotateCcw(RotateCw(t)), t);
    SameMatrix(RotateCw(RotateCcw(t)), t);
  }

  /** Rotating back undoes the rotation, and the rotation undoes rotating back. */
  lemma {:induction false} RotateBackCancels<T>(t: Matrix<T>, rot: nat)
    requires t.Valid()
    ensures RotateBack(Rotate(t, rot), rot) == t
    ensures Rotate(RotateBack(t, rot), rot) == t
  {
    QuarterTurnsCancel(t);
    HalfTurnTwice(t);
  }

  /** For every code, the inverse transform gives back the tile pixel for pixel. */
  lemma {:induction false} InverseUndoesTransform<T>(t: Matrix<T>, code: nat)
    requires t.Valid()
    ensures InverseTransformTile(TransformTile(t, code), code) == t
  {
    var rotated := Rotate(t, RotationOf(code));
    if MirrorOf(code) == 1 {
      MirrorTwice(rotated);
    }
    RotateBackCancels(t, RotationOf(code));
  }

  /** The transform also undoes the inverse: each is a bijection on tiles. */
  lemma {:induction false} TransformUndoesInverse<T>(t: Matrix<T>, code: nat)
    requires t.Valid()
    ensures TransformTile(InverseTransformTile(t, code), code) == t
  {
    var unmirrored := if MirrorOf(code) == 1 then Mirror(t) else t;
    RotateBackCancels(unmirrored, RotationOf(code));
    if MirrorOf(code) == 1 {
      MirrorTwice(t);
    }
  }

  /** Codes that differ only above bit 2 select the same variant: only `code & 7` matters. */
  lemma {:induction false} OnlyLowThreeBits<T>(t: Matrix<T>, code: nat)
    requires t.Valid()
    ensures TransformTile(t, code) == TransformTile(t, code % 8)
    ensures InverseTransformTile(t, code) == InverseTransformTile(t, code % 8)
  {
    assert Pow2(2) == 4;
    assert code % 4 == (code % 8) % 4;
    BitTwo(code);
    BitTwo(code % 8);
    assert code / 4 % 2 == (code % 8) / 4 % 2;
  }
}
