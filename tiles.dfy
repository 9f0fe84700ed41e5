/**
 * The tile geometry of tiles.py: padding an image at the bottom and on the
 * right until its sides divide evenly, cutting it into a row-major grid of
 * equal blocks, gluing a row-major list of blocks back together, removing
 * the padding again, and the balanced block edges of `compute_edges`.
 *
 * The pixels that `cv2.copyMakeBorder` writes into the padding are a
 * parameter `border` (a pixel for each position of the padded image); only
 * the geometry of padding is modelled.
 */
module Tiles {
  import opened Bits
  import opened Outcomes
  import opened Raster

  // ---------------------------------------------------------------------------
  // Integer division facts
  // ---------------------------------------------------------------------------

  lemma {:induction false} ProdNat(a: nat, b: nat)
    ensures 0 <= a * b
  {
  }

  lemma {:induction false} QuotNat(a: nat, b: nat)
    requires b > 0
    ensures 0 <= a / b
  {
  }

  lemma {:induction false} MulMono(a: int, b: int, d: int)
    requires a <= b && d >= 0
    ensures a * d <= b * d
  {
    assert b * d == a * d + (b - a) * d;
  }

  lemma {:induction false} MulCancel(a: int, b: int, d: int)
    requires d > 0 && a * d < b * d
    ensures a < b
  {
    if b <= a {
      MulMono(b, a, d);
    }
  }

  /** `x` lies in the `q`-th block of width `d`: its quotient is `q` and its remainder the offset. */
  lemma {:induction false} DivModOfBlock(x: int, q: int, d: int)
    requires d > 0 && q * d <= x < q * d + d
    ensures x / d == q && x % d == x - q * d
  {
    var q' := x / d;
    assert q' * d <= x < q' * d + d;
    assert (q + 1) * d == q * d + d;
    assert (q' + 1) * d == q' * d + d;
    MulCancel(q', q + 1, d);
    MulCancel(q, q' + 1, d);
  }

  /** One factor fewer: `(r - 1) * b` is `r * b` less one `b`. */
  lemma {:induction false} MulPred(r: nat, b: nat)
    requires r > 0
    ensures (r - 1) * b + b == r * b
  {
  }

  /** A multiple of `d` is `d` times its quotient. */
  lemma {:induction false} DivExact(x: nat, d: nat)
    requires d > 0 && x % d == 0
    ensures d * (x / d) == x
  {
  }

  /** Position `r * d + c` with `c < d` has quotient `r` and remainder `c` (row-major order). */
  lemma {:induction false} RowMajor(r: nat, c: nat, d: nat)
    requires c < d
    ensures (r * d + c) / d == r && (r * d + c) % d == c
  {
    DivModOfBlock(r * d + c, r, d);
  }

  /** Block `r` of `n` blocks of width `size / n` ends inside `size`. */
  lemma {:induction false} BlockEndFits(r: nat, n: nat, size: nat)
    requires r < n
    ensures r * (size / n) + size / n <= size
  {
    var q := size / n;
    MulMono(r + 1, n, q);
    assert (r + 1) * q == r * q + q;
    assert n * q <= size;
  }

  /** An index below `rows * cols` has a row below `rows`. */
  lemma {:induction false} IndexParts(k: nat, cols: nat)
    requires cols > 0
    ensures k == (k / cols) * cols + k % cols && k % cols < cols
  {
  }

  lemma {:induction false} RowOfIndex(k: nat, rows: nat, cols: nat)
    requires cols > 0 && k < rows * cols
    ensures k / cols < rows
  {
    var r := k / cols;
    assert r * cols <= k;
    MulCancel(r, rows, cols);
  }

  // ---------------------------------------------------------------------------
  // Padding
  // ---------------------------------------------------------------------------

  /**
   * `(k - (h % k)) % k`: the rows (or columns) to add so that `h` becomes a
   * multiple of `k`. No padding exactly when `h` already is one.
   */
  function PadAmount(h: nat, k: nat): (pad: nat)
    requires k > 0
    ensures pad < k && (h + pad) % k == 0
    ensures pad == 0 <==> h % k == 0
  {
    var m := h % k;
    if m == 0 then
      DivModOfBlock(k, 1, k);
      (k - m) % k
    else
      DivModOfBlock(k - m, 0, k);
      DivModOfBlock(h + (k - m), h / k + 1, k);
      (k - m) % k
  }

  /** The padding is the least amount that makes `h` a multiple of `k`. */
  lemma {:induction false} PadAmountIsLeast(h: nat, k: nat, extra: nat)
    requires k > 0 && (h + extra) % k == 0
    ensures PadAmount(h, k) <= extra
  {
    var pad := PadAmount(h, k);
    if extra < pad {
      // h + extra and h + pad are both multiples of k, less than k apart
      var q := (h + pad) / k;
      assert h + pad == q * k;
      DivModOfBlock(h + extra, q - 1, k);
    }
  }

  /** An image together with the padding added at its bottom and right edges. */
  datatype Padded<T> = Padded(img: Matrix<T>, padH: nat, padW: nat)

  /**
   * `cv2.copyMakeBorder(img, 0, ph, 0, pw, ...)`: `ph` rows added below and
   * `pw` columns on the right; the original pixels keep their positions.
   */
  function PadBottomRight<T>(img: Matrix<T>, ph: nat, pw: nat, border: (nat, nat) -> T): (out: Matrix<T>)
    requires img.Valid()
    ensures out.Valid() && out.h == img.h + ph && out.w == img.w + pw
    ensures forall i, j :: 0 <= i < img.h && 0 <= j < img.w ==> out.px[i][j] == img.px[i][j]
  {
    Matrix(img.h + ph, img.w + pw, seq(img.h + ph, i requires 0 <= i < img.h + ph =>
      seq(img.w + pw, j requires 0 <= j < img.w + pw =>
        if i < img.h && j < img.w then img.px[i][j] else border(i, j))))
  }

  /** Pads to multiples of `k` rows and `l` columns; an image that already fits is returned as it is. */
  function PadToMultiple<T>(img: Matrix<T>, k: nat, l: nat, border: (nat, nat) -> T): (p: Padded<T>)
    requires img.Valid() && k > 0 && l > 0
    ensures p.padH == PadAmount(img.h, k) && p.padW == PadAmount(img.w, l)
    ensures p.img.Valid() && p.img.h == img.h + p.padH && p.img.w == img.w + p.padW
    ensures p.img.h % k == 0 && p.img.w % l == 0
    ensures forall i, j :: 0 <= i < img.h && 0 <= j < img.w ==> p.img.px[i][j] == img.px[i][j]
    ensures img.h % k == 0 && img.w % l == 0 ==> p == Padded(img, 0, 0)
  {
    var ph := PadAmount(img.h, k);
    var pw := PadAmount(img.w, l);
    if ph == 0 && pw == 0 then Padded(img, 0, 0)
    else Padded(PadBottomRight(img, ph, pw, border), ph, pw)
  }

  /**
   * `pad_to_grid`: pads so that the height divides into `rows` and the
   * width into `cols`. A zero row or column count is a division by zero.
   */
  function PadToGrid<T>(img: Matrix<T>, rows: nat, cols: nat, border: (nat, nat) -> T): (res: Result<Padded<T>>)
    requires img.Valid()
    ensures res.Err? <==> rows == 0 || cols == 0
    ensures res.Err? ==> res.error == ZeroGrid
    ensures res.Ok? ==> var p := res.value;
      p.img.Valid() && p.img.h % rows == 0 && p.img.w % cols == 0
      && p.padH < rows && p.padW < cols
      && p.img.h == img.h + p.padH && p.img.w == img.w + p.padW
  {
    if rows == 0 || cols == 0 then Err(ZeroGrid)
    else Ok(PadToMultiple(img, rows, cols, border))
  }

  /** `pad_to_tile_size`: pads both sides to multiples of the tile size. */
  function PadToTileSize<T>(img: Matrix<T>, ts: nat, border: (nat, nat) -> T): (p: Padded<T>)
    requires img.Valid() && ts > 0
    ensures p.img.Valid() && p.img.h % ts == 0 && p.img.w % ts == 0
    ensures p.padH < ts && p.padW < ts
    ensures p.img.h == img.h + p.padH && p.img.w == img.w + p.padW
    ensures forall i, j :: 0 <= i < img.h && 0 <= j < img.w ==> p.img.px[i][j] == img.px[i][j]
    ensures img.h % ts == 0 && img.w % ts == 0 ==> p == Padded(img, 0, 0)
  {
    PadToMultiple(img, ts, ts, border)
  }

  /**
   * `unpad_tile_size`: drops `ph` rows at the bottom and `pw` columns on the
   * right, leaving the top-left `(h - ph) x (w - pw)` block; with no padding
   * the image is returned as it is.
   */
  function Unpad<T>(img: Matrix<T>, ph: nat, pw: nat): (out: Matrix<T>)
    requires img.Valid() && ph <= img.h && pw <= img.w
    ensures out.Valid() && out.h == img.h - ph && out.w == img.w - pw
    ensures forall i, j :: 0 <= i < out.h && 0 <= j < out.w ==> out.px[i][j] == img.px[i][j]
  {
    if ph == 0 && pw == 0 then img else Block(img, 0, img.h - ph, 0, img.w - pw)
  }

  /** Removing the padding that `pad_to_tile_size` added gives back the original image. */
  lemma {:induction false} UnpadUndoesPad<T>(img: Matrix<T>, ts: nat, border: (nat, nat) -> T)
    requires img.Valid() && ts > 0
    ensures var p := PadToTileSize(img, ts, border);
      Unpad(p.img, p.padH, p.padW) == img
  {
    var p := PadToTileSize(img, ts, border);
    SameMatrix(Unpad(p.img, p.padH, p.padW), img);
  }

  /** Same for `pad_to_grid`. */
  lemma {:induction false} UnpadUndoesPadToGrid<T>(img: Matrix<T>, rows: nat, cols: nat, border: (nat, nat) -> T)
    requires img.Valid() && rows > 0 && cols > 0
    ensures var p := PadToGrid(img, rows, cols, border).value;
      Unpad(p.img, p.padH, p.padW) == img
  {
    var p := PadToMultiple(img, rows, cols, border);
    SameMatrix(Unpad(p.img, p.padH, p.padW), img);
  }

  // ---------------------------------------------------------------------------
  // Splitting
  // ---------------------------------------------------------------------------

  /** The tile in grid row `r` and column `c`: `img[r*th:r*th+th, c*tw:c*tw+tw]` with `th = h // rows`, `tw = w // cols`. */
  function TileAt<T>(img: Matrix<T>, rows: nat, cols: nat, r: nat, c: nat): (t: Matrix<T>)
    requires img.Valid() && r < rows && c < cols
    ensures t.Valid() && t.h == img.h / rows && t.w == img.w / cols
  {
    var th, tw := img.h / rows, img.w / cols;
    BlockEndFits(r, rows, img.h);
    BlockEndFits(c, cols, img.w);
    Block(img, r * th, r * th + th, c * tw, c * tw + tw)
  }

  /** The first `c` tiles of grid row `r`, left to right: what the inner loop of `split_tiles` appends. */
  function RowCells<T>(img: Matrix<T>, rows: nat, cols: nat, r: nat, c: nat): (cells: seq<Matrix<T>>)
    requires img.Valid() && r < rows && 0 < cols && c <= cols
    ensures |cells| == c && Uniform(cells, img.h / rows, img.w / cols)
    decreases c
  {
    if c == 0 then [] else RowCells(img, rows, cols, r, c - 1) + [TileAt(img, rows, cols, r, c - 1)]
  }

  /** The tiles of the first `r` grid rows in row-major order: what the outer loop of `split_tiles` has appended. */
  function GridCells<T>(img: Matrix<T>, rows: nat, cols: nat, r: nat): (cells: seq<Matrix<T>>)
    requires img.Valid() && 0 < rows && 0 < cols && r <= rows
    ensures |cells| == r * cols && Uniform(cells, img.h / rows, img.w / cols)
    decreases r
  {
    if r == 0 then []
    else
      MulPred(r, cols);
      GridCells(img, rows, cols, r - 1) + RowCells(img, rows, cols, r - 1, cols)
  }

  /**
   * `split_tiles` as a value: the `rows * cols` tiles in row-major order.
   * Rows or columns of the image beyond the last whole tile are dropped. A
   * zero row or column count is a division by zero.
   */
  function Split<T>(img: Matrix<T>, rows: nat, cols: nat): (res: Result<seq<Matrix<T>>>)
    requires img.Valid()
    ensures res.Err? <==> rows == 0 || cols == 0
    ensures res.Err? ==> res.error == ZeroGrid
    ensures res.Ok? ==> |res.value| == rows * cols && Uniform(res.value, img.h / rows, img.w / cols)
  {
    if rows == 0 || cols == 0 then Err(ZeroGrid)
    else Ok(GridCells(img, rows, cols, rows))
  }

  lemma {:induction false} RowCellsAt<T>(img: Matrix<T>, rows: nat, cols: nat, r: nat, c: nat, j: nat)
    requires img.Valid() && r < rows && j < c <= cols
    ensures RowCells(img, rows, cols, r, c)[j] == TileAt(img, rows, cols, r, j)
    decreases c
  {
    if j < c - 1 {
      RowCellsAt(img, rows, cols, r, c - 1, j);
    }
  }

  lemma {:induction false} GridCellsAt<T>(img: Matrix<T>, rows: nat, cols: nat, r: nat, i: nat, c: nat)
    requires img.Valid() && i < r <= rows && c < cols
    ensures 0 < cols && i * cols + c < r * cols
    ensures GridCells(img, rows, cols, r)[i * cols + c] == TileAt(img, rows, cols, i, c)
    decreases r
  {
    GridRowFits(i, r, cols);
    MulPred(r, cols);
    if i < r - 1 {
      GridCellsAt(img, rows, cols, r - 1, i, c);
    } else {
      RowCellsAt(img, rows, cols, r - 1, cols, c);
    }
  }

  /** Tile `r * cols + c` of the split is the block in grid row `r` and column `c`. */
  lemma {:induction false} SplitAt<T>(img: Matrix<T>, rows: nat, cols: nat, r: nat, c: nat)
    requires img.Valid() && r < rows && c < cols
    ensures Split(img, rows, cols).Ok?
    ensures r * cols + c < rows * cols
    ensures Split(img, rows, cols).value[r * cols + c] == TileAt(img, rows, cols, r, c)
  {
    GridCellsAt(img, rows, cols, rows, r, c);
  }

  /** `split_tiles`: the two nested loops append the tiles row by row. */
  method SplitTiles<T>(img: Matrix<T>, rows: nat, cols: nat) returns (res: Result<seq<Matrix<T>>>)
    requires img.Valid()
    ensures res == Split(img, rows, cols)
  {
    if rows == 0 || cols == 0 {
      return Err(ZeroGrid);
    }
    QuotNat(img.h, rows);
    QuotNat(img.w, cols);
    var th := img.h / rows;
    var tw := img.w / cols;
    var tiles: seq<Matrix<T>> := [];
    for r := 0 to rows
      invariant tiles == GridCells(img, rows, cols, r)
    {
      for c := 0 to cols
        invariant tiles == GridCells(img, rows, cols, r) + RowCells(img, rows, cols, r, c)
      {
        BlockEndFits(r, rows, img.h);
        BlockEndFits(c, cols, img.w);
        ProdNat(r, th);
        ProdNat(c, tw);
        var y0, x0 := r * th, c * tw;
        tiles := tiles + [Block(img, y0, y0 + th, x0, x0 + tw)];
      }
    }
    return Ok(tiles);
  }

  // ---------------------------------------------------------------------------
  // Stacking and merging
  // ---------------------------------------------------------------------------

  /** `np.hstack([a, b])`: `b`'s columns to the right of `a`'s. */
  function Beside<T>(a: Matrix<T>, b: Matrix<T>): (m: Matrix<T>)
    requires a.Valid() && b.Valid() && a.h == b.h
    ensures m.Valid() && m.h == a.h && m.w == a.w + b.w
  {
    Matrix(a.h, a.w + b.w, seq(a.h, i requires 0 <= i < a.h => a.px[i] + b.px[i]))
  }

  /** Pixel `(i, j)` of two matrices side by side comes from the left one when `j < a.w`, else from the right one. */
  lemma {:induction false} BesidePixels<T>(a: Matrix<T>, b: Matrix<T>)
    requires a.Valid() && b.Valid() && a.h == b.h
    ensures forall i, j :: 0 <= i < a.h && 0 <= j < a.w + b.w ==>
      Beside(a, b).px[i][j] == if j < a.w then a.px[i][j] else b.px[i][j - a.w]
  {
  }

  /** `np.vstack([a, b])`: `b`'s rows below `a`'s. */
  function Above<T>(a: Matrix<T>, b: Matrix<T>): (m: Matrix<T>)
    requires a.Valid() && b.Valid() && a.w == b.w
    ensures m.Valid() && m.h == a.h + b.h && m.w == a.w
  {
    Matrix(a.h + b.h, a.w, a.px + b.px)
  }

  /** Row `i` of two matrices stacked comes from the upper one when `i < a.h`, else from the lower one. */
  lemma {:induction false} AbovePixels<T>(a: Matrix<T>, b: Matrix<T>)
    requires a.Valid() && b.Valid() && a.w == b.w
    ensures forall i :: 0 <= i < a.h + b.h ==> Above(a, b).px[i] == if i < a.h then a.px[i] else b.px[i - a.h]
  {
  }

  predicate SameHeights<T>(ms: seq<Matrix<T>>)
    requires |ms| > 0
  {
    forall i :: 0 <= i < |ms| ==> ms[i].h == ms[0].h
  }

  predicate SameWidths<T>(ms: seq<Matrix<T>>)
    requires |ms| > 0
  {
    forall i :: 0 <= i < |ms| ==> ms[i].w == ms[0].w
  }

  /** The matrices of a non-empty list of equal heights, left to right. */
  function BesideAll<T>(ms: seq<Matrix<T>>): (m: Matrix<T>)
    requires |ms| > 0 && AllWellFormed(ms) && SameHeights(ms)
    ensures m.Valid() && m.h == ms[0].h
    decreases |ms|
  {
    if |ms| == 1 then ms[0]
    else Beside(BesideAll(ms[..|ms| - 1]), ms[|ms| - 1])
  }

  /** The matrices of a non-empty list of equal widths, top to bottom. */
  function AboveAll<T>(ms: seq<Matrix<T>>): (m: Matrix<T>)
    requires |ms| > 0 && AllWellFormed(ms) && SameWidths(ms)
    ensures m.Valid() && m.w == ms[0].w
    decreases |ms|
  {
    if |ms| == 1 then ms[0]
    else Above(AboveAll(ms[..|ms| - 1]), ms[|ms| - 1])
  }

  /** `np.hstack`: nothing to stack, tiles of different heights, or the row they form. */
  function HStack<T>(ms: seq<Matrix<T>>): (res: Result<Matrix<T>>)
    requires AllWellFormed(ms)
    ensures res.Err? <==> |ms| == 0 || !SameHeights(ms)
    ensures |ms| == 0 ==> res == Err(NothingToStack)
    ensures |ms| > 0 && !SameHeights(ms) ==> res == Err(ShapeMismatch)
  {
    if |ms| == 0 then Err(NothingToStack)
    else if !SameHeights(ms) then Err(ShapeMismatch)
    else Ok(BesideAll(ms))
  }

  /** `np.vstack`: nothing to stack, rows of different widths, or the image they form. */
  function VStack<T>(ms: seq<Matrix<T>>): (res: Result<Matrix<T>>)
    requires AllWellFormed(ms)
    ensures res.Err? <==> |ms| == 0 || !SameWidths(ms)
    ensures |ms| == 0 ==> res == Err(NothingToStack)
    ensures |ms| > 0 && !SameWidths(ms) ==> res == Err(ShapeMismatch)
  {
    if |ms| == 0 then Err(NothingToStack)
    else if !SameWidths(ms) then Err(ShapeMismatch)
    else Ok(AboveAll(ms))
  }

  /** Tiles of a common height and width. */
  predicate Uniform<T>(tiles: seq<Matrix<T>>, th: nat, tw: nat) {
    forall k :: 0 <= k < |tiles| ==> tiles[k].Valid() && tiles[k].h == th && tiles[k].w == tw
  }

  /** Row `r` fits in a list of `rows * cols` tiles when `r < rows`. */
  lemma {:induction false} GridRowFits(r: nat, rows: nat, cols: nat)
    requires r < rows
    ensures r * cols + cols <= rows * cols && (r + 1) * cols == r * cols + cols
  {
    MulMono(r + 1, rows, cols);
  }

  /** Grid row `r` of a row-major list: the `cols` tiles from index `r * cols` on. */
  function GridRow<T>(tiles: seq<Matrix<T>>, cols: nat, r: nat): (row: seq<Matrix<T>>)
    requires r * cols + cols <= |tiles|
    ensures |row| == cols
  {
    tiles[r * cols .. r * cols + cols]
  }

  /** Entry `c` of grid row `r` is entry `r * cols + c` of the list. */
  lemma {:induction false} GridRowAt<T>(tiles: seq<Matrix<T>>, cols: nat, r: nat, c: nat)
    requires r * cols + cols <= |tiles| && c < cols
    ensures 0 <= r * cols && GridRow(tiles, cols, r)[c] == tiles[r * cols + c]
  {
    ProdNat(r, cols);
  }

  /**
   * The row images of `r` full grid rows, top to bottom: the first
   * `r - 1` rows, then the `hstack` of the last `cols` tiles. The first row
   * that fails to stack stops it.
   */
  function RowImages<T>(tiles: seq<Matrix<T>>, cols: nat, r: nat): (res: Result<seq<Matrix<T>>>)
    requires AllWellFormed(tiles) && |tiles| == r * cols
    ensures res.Ok? ==> |res.value| == r && AllWellFormed(res.value)
    decreases r
  {
    if r == 0 then Ok([])
    else
      MulPred(r, cols);
      var before :- RowImages(tiles[..|tiles| - cols], cols, r - 1);
      var row :- HStack(tiles[|tiles| - cols..]);
      Ok(before + [row])
  }

  /**
   * `merge_tiles` as a value: a list whose length is not `rows * cols` is
   * refused; otherwise each grid row is stacked side by side and the row
   * images on top of each other. Either stacking fails on mismatched shapes,
   * and `vstack` fails on an empty grid.
   */
  function Merge<T>(tiles: seq<Matrix<T>>, rows: nat, cols: nat): (res: Result<Matrix<T>>)
    requires AllWellFormed(tiles)
    ensures |tiles| != rows * cols ==> res == Err(LengthMismatch)
    ensures rows == 0 && |tiles| == 0 ==> res == Err(NothingToStack)
    ensures res.Ok? ==> res.value.Valid()
  {
    if |tiles| != rows * cols then Err(LengthMismatch)
    else
      var strips :- RowImages(tiles, cols, rows);
      VStack(strips)
  }

  /** Once the first `k` grid rows fail to stack, all `m` rows fail the same way. */
  lemma {:induction false} RowImagesErrorPersists<T>(tiles: seq<Matrix<T>>, cols: nat, k: nat, m: nat)
    requires AllWellFormed(tiles) && |tiles| == m * cols && k <= m
    requires k * cols <= |tiles| && RowImages(tiles[..k * cols], cols, k).Err?
    ensures RowImages(tiles, cols, m) == RowImages(tiles[..k * cols], cols, k)
    decreases m
  {
    if k < m {
      var front := tiles[..|tiles| - cols];
      MulPred(m, cols);
      MulMono(k, m - 1, cols);
      assert front[..k * cols] == tiles[..k * cols];
      RowImagesErrorPersists(front, cols, k, m - 1);
    } else {
      assert tiles[..k * cols] == tiles;
    }
  }

  /** `merge_tiles`: the cursor `idx` walks the list one grid row at a time. */
  method MergeTiles<T>(tiles: seq<Matrix<T>>, rows: nat, cols: nat) returns (res: Result<Matrix<T>>)
    requires AllWellFormed(tiles)
    ensures res == Merge(tiles, rows, cols)
  {
    if |tiles| != rows * cols {
      return Err(LengthMismatch);
    }
    var strips: seq<Matrix<T>> := [];
    var idx, r := 0, 0;
    while r < rows
      invariant r <= rows && idx == r * cols && idx <= |tiles|
      invariant RowImages(tiles[..idx], cols, r) == Ok(strips)
    {
      var n, next := r + 1, idx + cols;
      GridRowFits(r, rows, cols);
      RowImagesGrow(tiles, cols, r, n, idx, next);
      var row := HStack(tiles[idx .. next]);
      if row.Err? {
        RowImagesErrorPersists(tiles, cols, n, rows);
        return Err(row.error);
      }
      strips := strips + [row.value];
      idx, r := next, n;
    }
    assert tiles[..idx] == tiles;
    return VStack(strips);
  }

  /** Stacking one more grid row: the strips so far and the next row side by side, or that row's error. */
  lemma {:induction false} RowImagesGrow<T>(tiles: seq<Matrix<T>>, cols: nat, r: nat, n: nat, lo: nat, hi: nat)
    requires AllWellFormed(tiles) && n == r + 1 && lo == r * cols && hi == lo + cols && hi <= |tiles|
    requires RowImages(tiles[..lo], cols, r).Ok?
    ensures hi == n * cols
    ensures RowImages(tiles[..hi], cols, n)
      == if HStack(tiles[lo..hi]).Ok? then Ok(RowImages(tiles[..lo], cols, r).value + [HStack(tiles[lo..hi]).value])
         else Err(HStack(tiles[lo..hi]).error)
  {
    MulNext(r, n, cols);
    var prefix := tiles[..hi];
    assert prefix[..|prefix| - cols] == tiles[..lo];
    assert prefix[|prefix| - cols..] == tiles[lo..hi];
  }

  // ---------------------------------------------------------------------------
  // Round trips between splitting and merging
  // ---------------------------------------------------------------------------

  /** The whole of a matrix as a block is the matrix. */
  lemma {:induction false} WholeBlock<T>(m: Matrix<T>)
    requires m.Valid()
    ensures Block(m, 0, m.h, 0, m.w) == m
  {
    SameMatrix(Block(m, 0, m.h, 0, m.w), m);
  }

  /** Two blocks of the same rows, adjacent left and right, side by side form one block. */
  lemma {:induction false} BesideAdjacent<T>(img: Matrix<T>, y0: nat, y1: nat, x0: nat, x1: nat, x2: nat)
    requires img.Valid() && y0 <= y1 <= img.h && x0 <= x1 <= x2 <= img.w
    ensures Beside(Block(img, y0, y1, x0, x1), Block(img, y0, y1, x1, x2)) == Block(img, y0, y1, x0, x2)
  {
    SameMatrix(Beside(Block(img, y0, y1, x0, x1), Block(img, y0, y1, x1, x2)), Block(img, y0, y1, x0, x2));
  }

  /** Two full-width blocks, adjacent top and bottom, stacked form one block. */
  lemma {:induction false} AboveAdjacent<T>(img: Matrix<T>, y0: nat, y1: nat, y2: nat)
    requires img.Valid() && y0 <= y1 <= y2 <= img.h
    ensures Above(Block(img, y0, y1, 0, img.w), Block(img, y1, y2, 0, img.w)) == Block(img, y0, y2, 0, img.w)
  {
    SameMatrix(Above(Block(img, y0, y1, 0, img.w), Block(img, y1, y2, 0, img.w)), Block(img, y0, y2, 0, img.w));
  }

  /** A block in the upper part of a stack is a block of the upper matrix. */
  lemma {:induction false} BlockOfAboveTop<T>(a: Matrix<T>, b: Matrix<T>, y0: nat, y1: nat, x0: nat, x1: nat)
    requires a.Valid() && b.Valid() && a.w == b.w && y0 <= y1 <= a.h && x0 <= x1 <= a.w
    ensures Block(Above(a, b), y0, y1, x0, x1) == Block(a, y0, y1, x0, x1)
  {
    SameMatrix(Block(Above(a, b), y0, y1, x0, x1), Block(a, y0, y1, x0, x1));
  }

  /** A block in the lower part of a stack is a block of the lower matrix. */
  lemma {:induction false} BlockOfAboveBottom<T>(a: Matrix<T>, b: Matrix<T>, y0: nat, y1: nat, x0: nat, x1: nat)
    requires a.Valid() && b.Valid() && a.w == b.w && a.h <= y0 <= y1 <= a.h + b.h && x0 <= x1 <= a.w
    ensures Block(Above(a, b), y0, y1, x0, x1) == Block(b, y0 - a.h, y1 - a.h, x0, x1)
  {
    SameMatrix(Block(Above(a, b), y0, y1, x0, x1), Block(b, y0 - a.h, y1 - a.h, x0, x1));
  }

  /** A block in the left part of a row is a block of the left matrix. */
  lemma {:induction false} BlockOfBesideLeft<T>(a: Matrix<T>, b: Matrix<T>, y0: nat, y1: nat, x0: nat, x1: nat)
    requires a.Valid() && b.Valid() && a.h == b.h && y0 <= y1 <= a.h && x0 <= x1 <= a.w
    ensures Block(Beside(a, b), y0, y1, x0, x1) == Block(a, y0, y1, x0, x1)
  {
    SameMatrix(Block(Beside(a, b), y0, y1, x0, x1), Block(a, y0, y1, x0, x1));
  }

  /** A block in the right part of a row is a block of the right matrix. */
  lemma {:induction false} BlockOfBesideRight<T>(a: Matrix<T>, b: Matrix<T>, y0: nat, y1: nat, x0: nat, x1: nat)
    requires a.Valid() && b.Valid() && a.h == b.h && y0 <= y1 <= a.h && a.w <= x0 <= x1 <= a.w + b.w
    ensures Block(Beside(a, b), y0, y1, x0, x1) == Block(b, y0, y1, x0 - a.w, x1 - a.w)
  {
    SameMatrix(Block(Beside(a, b), y0, y1, x0, x1), Block(b, y0, y1, x0 - a.w, x1 - a.w));
  }

  /** The tile in grid row `r` and column `c`, for the tile sides `th` and `tw` of the grid. */
  lemma {:induction false} TileAtIs<T>(img: Matrix<T>, rows: nat, cols: nat, r: nat, c: nat, th: nat, tw: nat)
    requires img.Valid() && r < rows && c < cols && th == img.h / rows && tw == img.w / cols
    ensures r * th + th <= img.h && c * tw + tw <= img.w
    ensures TileAt(img, rows, cols, r, c) == Block(img, r * th, r * th + th, c * tw, c * tw + tw)
  {
    BlockEndFits(r, rows, img.h);
    BlockEndFits(c, cols, img.w);
  }

  /** The first `c` tiles of a grid row of a split, side by side, are the block they were cut from. */
  lemma {:induction false} RowCellsBeside<T>(img: Matrix<T>, rows: nat, cols: nat, r: nat, c: nat)
    requires img.Valid() && r < rows && 0 < c <= cols
    ensures var th, tw := img.h / rows, img.w / cols;
      0 <= r * th && r * th + th <= img.h && c * tw <= img.w
      && SameHeights(RowCells(img, rows, cols, r, c))
      && BesideAll(RowCells(img, rows, cols, r, c)) == Block(img, r * th, r * th + th, 0, c * tw)
    decreases c
  {
    QuotNat(img.h, rows);
    QuotNat(img.w, cols);
    var th, tw := img.h / rows, img.w / cols;
    var p := c - 1;
    ProdNat(r, th);
    ProdNat(p, tw);
    BlockEndFits(r, rows, img.h);
    BlockEndFits(p, cols, img.w);
    MulNext(p, c, tw);
    var cells := RowCells(img, rows, cols, r, c);
    assert cells == RowCells(img, rows, cols, r, p) + [TileAt(img, rows, cols, r, p)];
    if c > 1 {
      RowCellsBeside(img, rows, cols, r, p);
      assert cells[..p] == RowCells(img, rows, cols, r, p);
      assert BesideAll(cells) == Beside(BesideAll(cells[..p]), cells[p]);
      BesideAdjacent(img, r * th, r * th + th, 0, p * tw, c * tw);
    }
  }

  /** One more grid row of uniform tiles puts its side-by-side image below the earlier row images. */
  lemma {:induction false} RowImagesSnoc<T>(tiles: seq<Matrix<T>>, cols: nat, r: nat, th: nat, tw: nat)
    requires cols > 0 && r > 0 && |tiles| == r * cols && Uniform(tiles, th, tw)
    ensures (r - 1) * cols + cols == r * cols && 0 <= (r - 1) * cols && AllWellFormed(tiles)
    ensures RowImages(tiles, cols, r).Ok? && RowImages(tiles[..|tiles| - cols], cols, r - 1).Ok?
    ensures Uniform(tiles[|tiles| - cols..], th, tw) && SameHeights(tiles[|tiles| - cols..])
    ensures RowImages(tiles, cols, r).value
      == RowImages(tiles[..|tiles| - cols], cols, r - 1).value + [BesideAll(tiles[|tiles| - cols..])]
  {
    MulPred(r, cols);
    ProdNat(r - 1, cols);
    var front, last := tiles[..|tiles| - cols], tiles[|tiles| - cols..];
    RowImagesUniform(front, cols, r - 1, th, tw);
    assert Uniform(last, th, tw);
    assert SameHeights(last);
    assert HStack(last) == Ok(BesideAll(last));
  }

  /** The row images of the first `r` grid rows of a split exist and are full-width strips one tile high. */
  lemma {:induction false} GridStrips<T>(img: Matrix<T>, rows: nat, cols: nat, r: nat)
    requires img.Valid() && r <= rows && 0 < rows && 0 < cols && img.w % cols == 0
    ensures AllWellFormed(GridCells(img, rows, cols, r))
    ensures RowImages(GridCells(img, rows, cols, r), cols, r).Ok?
    ensures Uniform(RowImages(GridCells(img, rows, cols, r), cols, r).value, img.h / rows, img.w)
  {
    DivExact(img.w, cols);
    RowImagesUniform(GridCells(img, rows, cols, r), cols, r, img.h / rows, img.w / cols);
  }

  /** The last row image of the first `r` grid rows of a split is the strip that grid row was cut from. */
  lemma {:induction false} LastGridStrip<T>(img: Matrix<T>, rows: nat, cols: nat, r: nat, q: nat)
    requires img.Valid() && r == q + 1 && r <= rows && 0 < cols && img.w % cols == 0
    ensures var th := img.h / rows;
      0 <= q * th && q * th + th <= img.h
      && AllWellFormed(GridCells(img, rows, cols, r))
      && RowImages(GridCells(img, rows, cols, r), cols, r).Ok?
      && RowImages(GridCells(img, rows, cols, r), cols, r).value[q]
         == Block(img, q * th, q * th + th, 0, img.w)
  {
    DivExact(img.w, cols);
    GridCellsLastRow(img, rows, cols, r, q);
    RowImagesSnoc(GridCells(img, rows, cols, r), cols, r, img.h / rows, img.w / cols);
    RowCellsBeside(img, rows, cols, q, cols);
  }

  /** The last `cols` tiles of the first `r` grid rows of a split are grid row `r - 1`. */
  lemma {:induction false} GridCellsLastRow<T>(img: Matrix<T>, rows: nat, cols: nat, r: nat, q: nat)
    requires img.Valid() && r == q + 1 && r <= rows && 0 < cols
    ensures GridCells(img, rows, cols, r)[|GridCells(img, rows, cols, r)| - cols..] == RowCells(img, rows, cols, q, cols)
  {
    MulPred(r, cols);
    ProdNat(q, cols);
    assert GridCells(img, rows, cols, r) == GridCells(img, rows, cols, q) + RowCells(img, rows, cols, q, cols);
  }

  /** The earlier row images of the first `r` grid rows of a split are those of the first `r - 1`. */
  lemma {:induction false} FrontGridStrips<T>(img: Matrix<T>, rows: nat, cols: nat, r: nat)
    requires img.Valid() && 0 < r <= rows && 0 < cols
    ensures AllWellFormed(GridCells(img, rows, cols, r)) && AllWellFormed(GridCells(img, rows, cols, r - 1))
    ensures RowImages(GridCells(img, rows, cols, r), cols, r).Ok?
    ensures RowImages(GridCells(img, rows, cols, r - 1), cols, r - 1).Ok?
    ensures RowImages(GridCells(img, rows, cols, r), cols, r).value[..r - 1]
      == RowImages(GridCells(img, rows, cols, r - 1), cols, r - 1).value
  {
    var th, tw := img.h / rows, img.w / cols;
    var cells := GridCells(img, rows, cols, r);
    RowImagesSnoc(cells, cols, r, th, tw);
    assert cells[..|cells| - cols] == GridCells(img, rows, cols, r - 1);
  }

  /** The first `r` grid rows of a split, stacked, are the full-width block they were cut from. */
  lemma {:induction false} GridCellsAbove<T>(img: Matrix<T>, rows: nat, cols: nat, r: nat)
    requires img.Valid() && 0 < r <= rows && 0 < cols && img.w % cols == 0
    ensures var th := img.h / rows;
      0 <= r * th <= img.h
      && RowImages(GridCells(img, rows, cols, r), cols, r).Ok?
      && Uniform(RowImages(GridCells(img, rows, cols, r), cols, r).value, th, img.w)
      && AboveAll(RowImages(GridCells(img, rows, cols, r), cols, r).value) == Block(img, 0, r * th, 0, img.w)
    decreases r
  {
    QuotNat(img.h, rows);
    var th := img.h / rows;
    MulPred(r, th);
    ProdNat(r - 1, th);
    GridStrips(img, rows, cols, r);
    LastGridStrip(img, rows, cols, r, r - 1);
    var strips := RowImages(GridCells(img, rows, cols, r), cols, r).value;
    if r > 1 {
      GridCellsAbove(img, rows, cols, r - 1);
      FrontGridStrips(img, rows, cols, r);
      AboveAdjacent(img, 0, (r - 1) * th, r * th);
    }
  }

  /**
   * Merging the tiles of a split puts the image back together whenever the
   * grid divides both sides evenly (otherwise the split drops the remainder).
   */
  lemma {:induction false} MergeUndoesSplit<T>(img: Matrix<T>, rows: nat, cols: nat)
    requires img.Valid() && rows > 0 && cols > 0 && img.h % rows == 0 && img.w % cols == 0
    ensures Split(img, rows, cols).Ok?
    ensures Merge(Split(img, rows, cols).value, rows, cols) == Ok(img)
  {
    GridCellsAbove(img, rows, cols, rows);
    DivExact(img.h, rows);
    WholeBlock(img);
  }

  /** Uniform tiles side by side: `|ms|` tiles wide, one tile high. */
  lemma {:induction false} BesideAllShape<T>(ms: seq<Matrix<T>>, th: nat, tw: nat)
    requires |ms| > 0 && Uniform(ms, th, tw)
    ensures AllWellFormed(ms) && SameHeights(ms)
    ensures BesideAll(ms).h == th && BesideAll(ms).w == |ms| * tw
    decreases |ms|
  {
    if |ms| > 1 {
      BesideAllShape(ms[..|ms| - 1], th, tw);
      MulPred(|ms|, tw);
    }
  }

  /** Uniform strips stacked: `|ms|` strips high. */
  lemma {:induction false} AboveAllShape<T>(ms: seq<Matrix<T>>, th: nat, w: nat)
    requires |ms| > 0 && Uniform(ms, th, w)
    ensures AllWellFormed(ms) && SameWidths(ms)
    ensures AboveAll(ms).h == |ms| * th && AboveAll(ms).w == w
    decreases |ms|
  {
    if |ms| > 1 {
      AboveAllShape(ms[..|ms| - 1], th, w);
      MulPred(|ms|, th);
    }
  }

  /** Cutting tile `c` back out of uniform tiles placed side by side gives tile `c`. */
  lemma {:induction false} BlockOfRow<T>(ms: seq<Matrix<T>>, th: nat, tw: nat, c: nat)
    requires c < |ms| && Uniform(ms, th, tw)
    ensures AllWellFormed(ms) && SameHeights(ms) && BesideAll(ms).h == th
    ensures 0 <= c * tw && c * tw + tw <= BesideAll(ms).w
    ensures Block(BesideAll(ms), 0, th, c * tw, c * tw + tw) == ms[c]
    decreases |ms|
  {
    var n := |ms|;
    BesideAllShape(ms, th, tw);
    GridRowFits(c, n, tw);
    ProdNat(c, tw);
    if n == 1 {
      WholeBlock(ms[0]);
    } else {
      var front := ms[..n - 1];
      BesideAllShape(front, th, tw);
      assert BesideAll(ms) == Beside(BesideAll(front), ms[n - 1]);
      if c < n - 1 {
        BlockOfRow(front, th, tw, c);
        GridRowFits(c, n - 1, tw);
        BlockOfBesideLeft(BesideAll(front), ms[n - 1], 0, th, c * tw, c * tw + tw);
      } else {
        BlockOfBesideRight(BesideAll(front), ms[n - 1], 0, th, c * tw, c * tw + tw);
        WholeBlock(ms[n - 1]);
      }
    }
  }

  /** Cutting strip `i` back out of uniform strips stacked gives that strip. */
  lemma {:induction false} BlockOfStack<T>(ms: seq<Matrix<T>>, th: nat, w: nat, i: nat, x0: nat, x1: nat)
    requires i < |ms| && Uniform(ms, th, w) && x0 <= x1 <= w
    ensures AllWellFormed(ms) && SameWidths(ms) && AboveAll(ms).w == w
    ensures i * th + th <= AboveAll(ms).h
    ensures Block(AboveAll(ms), i * th, i * th + th, x0, x1) == Block(ms[i], 0, th, x0, x1)
    decreases |ms|
  {
    var n := |ms|;
    AboveAllShape(ms, th, w);
    GridRowFits(i, n, th);
    if n > 1 {
      var front := ms[..n - 1];
      AboveAllShape(front, th, w);
      assert AboveAll(ms) == Above(AboveAll(front), ms[n - 1]);
      if i < n - 1 {
        BlockOfStack(front, th, w, i, x0, x1);
        GridRowFits(i, n - 1, th);
        BlockOfAboveTop(AboveAll(front), ms[n - 1], i * th, i * th + th, x0, x1);
      } else {
        BlockOfAboveBottom(AboveAll(front), ms[n - 1], i * th, i * th + th, x0, x1);
      }
    }
  }

  /** The row images of uniform tiles all exist and have the same shape. */
  lemma {:induction false} RowImagesUniform<T>(tiles: seq<Matrix<T>>, cols: nat, r: nat, th: nat, tw: nat)
    requires cols > 0 && |tiles| == r * cols && Uniform(tiles, th, tw)
    ensures AllWellFormed(tiles) && RowImages(tiles, cols, r).Ok?
    ensures Uniform(RowImages(tiles, cols, r).value, th, cols * tw)
    decreases r
  {
    if r > 0 {
      MulPred(r, cols);
      RowImagesUniform(tiles[..|tiles| - cols], cols, r - 1, th, tw);
      var last := tiles[|tiles| - cols..];
      assert Uniform(last, th, tw);
      BesideAllShape(last, th, tw);
    }
  }

  /** Row image `i` of uniform tiles is grid row `i` side by side. */
  lemma {:induction false} RowImageAt<T>(tiles: seq<Matrix<T>>, cols: nat, r: nat, th: nat, tw: nat, i: nat)
    requires cols > 0 && |tiles| == r * cols && Uniform(tiles, th, tw) && i < r
    ensures AllWellFormed(tiles) && RowImages(tiles, cols, r).Ok?
    ensures i * cols + cols <= |tiles| && Uniform(GridRow(tiles, cols, i), th, tw)
    ensures SameHeights(GridRow(tiles, cols, i))
    ensures RowImages(tiles, cols, r).value[i] == BesideAll(GridRow(tiles, cols, i))
    decreases r
  {
    var q := r - 1;
    RowImagesSnoc(tiles, cols, r, th, tw);
    GridRowFits(i, r, cols);
    ProdNat(i, cols);
    BesideAllShape(GridRow(tiles, cols, i), th, tw);
    if i < q {
      var front := tiles[..|tiles| - cols];
      RowImageAt(front, cols, q, th, tw, i);
      assert GridRow(front, cols, i) == GridRow(tiles, cols, i);
    } else {
      assert GridRow(tiles, cols, i) == tiles[|tiles| - cols..];
    }
  }

  /** Uniform tiles in a full grid merge into one image of `rows` tiles by `cols` tiles. */
  lemma {:induction false} MergeShape<T>(tiles: seq<Matrix<T>>, rows: nat, cols: nat, th: nat, tw: nat)
    requires rows > 0 && cols > 0 && |tiles| == rows * cols && Uniform(tiles, th, tw)
    ensures AllWellFormed(tiles) && RowImages(tiles, cols, rows).Ok?
    ensures Uniform(RowImages(tiles, cols, rows).value, th, cols * tw)
    ensures Merge(tiles, rows, cols) == Ok(AboveAll(RowImages(tiles, cols, rows).value))
    ensures Merge(tiles, rows, cols).value.h == rows * th && Merge(tiles, rows, cols).value.w == cols * tw
    ensures Merge(tiles, rows, cols).value.h / rows == th && Merge(tiles, rows, cols).value.w / cols == tw
  {
    RowImagesUniform(tiles, cols, rows, th, tw);
    AboveAllShape(RowImages(tiles, cols, rows).value, th, cols * tw);
    DivModOfBlock(rows * th, th, rows);
    DivModOfBlock(cols * tw, tw, cols);
  }

  /** Tile `c` of strip `i`, cut back out of uniform strips stacked, is that tile. */
  lemma {:induction false} BlockOfStackedRow<T>(strips: seq<Matrix<T>>, row: seq<Matrix<T>>, th: nat, tw: nat, i: nat, c: nat)
    requires i < |strips| && c < |row| && Uniform(row, th, tw) && Uniform(strips, th, |row| * tw)
    requires AllWellFormed(row) && SameHeights(row) && strips[i] == BesideAll(row)
    ensures AllWellFormed(strips) && SameWidths(strips)
    ensures 0 <= i * th && i * th + th <= AboveAll(strips).h
    ensures 0 <= c * tw && c * tw + tw <= AboveAll(strips).w
    ensures Block(AboveAll(strips), i * th, i * th + th, c * tw, c * tw + tw) == row[c]
  {
    ProdNat(i, th);
    BlockOfRow(row, th, tw, c);
    var x0 := c * tw;
    assert Block(strips[i], 0, th, x0, x0 + tw) == row[c];
    BlockOfStack(strips, th, |row| * tw, i, x0, x0 + tw);
    assert Block(AboveAll(strips), i * th, i * th + th, x0, x0 + tw) == Block(strips[i], 0, th, x0, x0 + tw);
  }

  /** Tile `(i, c)` cut from the merged image is tile `i * cols + c` of the list. */
  lemma {:induction false} TileOfMerged<T>(tiles: seq<Matrix<T>>, rows: nat, cols: nat, th: nat, tw: nat, i: nat, c: nat)
    requires rows > 0 && cols > 0 && |tiles| == rows * cols && Uniform(tiles, th, tw)
    requires i < rows && c < cols
    ensures AllWellFormed(tiles) && Merge(tiles, rows, cols).Ok?
    ensures 0 <= i * cols && i * cols + c < |tiles|
    ensures TileAt(Merge(tiles, rows, cols).value, rows, cols, i, c) == tiles[i * cols + c]
  {
    ProdNat(i, cols);
    GridRowFits(i, rows, cols);
    MergeShape(tiles, rows, cols, th, tw);
    var strips := RowImages(tiles, cols, rows).value;
    RowImageAt(tiles, cols, rows, th, tw, i);
    var row := GridRow(tiles, cols, i);
    GridRowAt(tiles, cols, i, c);
    BlockOfStackedRow(strips, row, th, tw, i, c);
    TileAtIs(Merge(tiles, rows, cols).value, rows, cols, i, c, th, tw);
  }

  /** Tile `k` of the split of the merged image is tile `k` of the list. */
  lemma {:induction false} SplitOfMergedAt<T>(tiles: seq<Matrix<T>>, rows: nat, cols: nat, th: nat, tw: nat, k: nat)
    requires rows > 0 && cols > 0 && |tiles| == rows * cols && Uniform(tiles, th, tw) && k < |tiles|
    ensures AllWellFormed(tiles) && Merge(tiles, rows, cols).Ok?
    ensures Split(Merge(tiles, rows, cols).value, rows, cols).Ok?
    ensures Split(Merge(tiles, rows, cols).value, rows, cols).value[k] == tiles[k]
  {
    QuotNat(k, cols);
    RowOfIndex(k, rows, cols);
    IndexParts(k, cols);
    MergeShape(tiles, rows, cols, th, tw);
    SplitAt(Merge(tiles, rows, cols).value, rows, cols, k / cols, k % cols);
    TileOfMerged(tiles, rows, cols, th, tw, k / cols, k % cols);
  }

  /**
   * Splitting the merge of uniform tiles gives the same tiles back: merging
   * is injective on tiles of one shape, which is what lets a merged
   * ciphertext be cut up again for decryption.
   */
  lemma {:induction false} SplitUndoesMerge<T>(tiles: seq<Matrix<T>>, rows: nat, cols: nat, th: nat, tw: nat)
    requires rows > 0 && cols > 0 && |tiles| == rows * cols && Uniform(tiles, th, tw)
    ensures AllWellFormed(tiles) && Merge(tiles, rows, cols).Ok?
    ensures var m := Merge(tiles, rows, cols).value;
      m.h == rows * th && m.w == cols * tw && Split(m, rows, cols) == Ok(tiles)
  {
    MergeShape(tiles, rows, cols, th, tw);
    var m := Merge(tiles, rows, cols).value;
    var split := Split(m, rows, cols).value;
    forall k | 0 <= k < |tiles|
      ensures split[k] == tiles[k]
    {
      SplitOfMergedAt(tiles, rows, cols, th, tw, k);
    }
    assert split == tiles;
  }

  // ---------------------------------------------------------------------------
  // Block edges
  // ---------------------------------------------------------------------------

  function Min(a: nat, b: nat): nat {
    if a < b then a else b
  }

  /**
   * Edge `i` of `n` balanced blocks over `size`: `i` blocks of `size / n`
   * plus one extra for each of the first `size % n` blocks passed. No edge
   * up to the last one lies beyond `size`.
   */
  function Edge(n: nat, size: nat, i: nat): (e: nat)
    requires n > 0
    ensures i <= n ==> e <= size
  {
    var q := size / n;
    ProdNat(i, q);
    assert i <= n ==> i * q <= n * q by {
      if i <= n {
        MulMono(i, n, q);
      }
    }
    assert n * q + size % n == size;
    i * q + Min(i, size % n)
  }

  /** Each block adds `size / n`, plus one for the first `size % n` blocks. */
  lemma {:induction false} EdgeStep(n: nat, size: nat, i: nat)
    requires n > 0
    ensures Edge(n, size, i + 1) == Edge(n, size, i) + size / n + (if i < size % n then 1 else 0)
  {
    assert (i + 1) * (size / n) == i * (size / n) + size / n;
  }

  /** The edges start at 0 and end exactly at `size`. */
  lemma {:induction false} EdgeEnds(n: nat, size: nat)
    requires n > 0
    ensures Edge(n, size, 0) == 0 && Edge(n, size, n) == size
  {
    assert n * (size / n) + size % n == size;
  }

  /**
   * `compute_edges`: a zero block count is a division by zero; a negative
   * one runs no iteration, so the lone edge `0` is overwritten by `size`;
   * otherwise `n + 1` edges from 0 to `size`, the first `size % n` blocks one
   * wider than the rest. The final `edges[-1] = size` then changes nothing,
   * since the accumulated widths already add up to `size`.
   */
  method ComputeEdges(n: int, size: nat) returns (res: Result<seq<nat>>)
    ensures n == 0 <==> res.Err?
    ensures res.Err? ==> res.error == ZeroGrid
    ensures n < 0 ==> res == Ok([size])
    ensures n > 0 ==> res.Ok? && |res.value| == n + 1 && res.value[0] == 0 && res.value[n] == size
    ensures n > 0 ==> forall i :: 0 <= i < n ==>
      res.value[i + 1] == res.value[i] + size / n + (if i < size % n then 1 else 0)
    ensures n > 0 ==> forall i :: 0 <= i <= n ==> res.value[i] == Edge(n, size, i)
  {
    if n == 0 {
      return Err(ZeroGrid);
    }
    if n < 0 {
      return Ok([size]);
    }
    var edges: seq<nat> := [0];
    var base := size / n;
    var rem := size % n;
    var acc := 0;
    for i := 0 to n
      invariant |edges| == i + 1 && acc == Edge(n, size, i)
      invariant forall k :: 0 <= k <= i ==> edges[k] == Edge(n, size, k)
    {
      var step := base + (if i < rem then 1 else 0);
      EdgeStep(n, size, i);
      acc := acc + step;
      edges := edges + [acc];
    }
    EdgeEnds(n, size);
    edges := edges[..n] + [size];
    forall i | 0 <= i < n {
      EdgeStep(n, size, i);
    }
    return Ok(edges);
  }

  lemma {:induction false} QuotientAtLeastOne(size: nat, n: nat)
    requires 0 < n <= size
    ensures size / n >= 1
  {
    assert (size / n + 1) * n == size / n * n + n;
    MulCancel(1, size / n + 1, n);
  }

  /** Blocks are non-empty, so the edges strictly increase, as soon as there are at least as many pixels as blocks. */
  lemma {:induction false} EdgesIncrease(n: nat, size: nat, i: nat, j: nat)
    requires n > 0 && i < j <= n && size >= n
    ensures Edge(n, size, i) < Edge(n, size, j)
    decreases j - i
  {
    EdgeStep(n, size, i);
    QuotientAtLeastOne(size, n);
    if i + 1 < j {
      EdgesIncrease(n, size, i + 1, j);
    }
  }

  /** Ten pixels in three blocks: widths 4, 3, 3, so the edges are 0, 4, 7, 10. */
  lemma {:induction false} TenInThree()
    ensures Edge(3, 10, 0) == 0 && Edge(3, 10, 1) == 4 && Edge(3, 10, 2) == 7 && Edge(3, 10, 3) == 10
  {
  }
}
