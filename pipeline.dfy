/**
 * `encrypt_image` and `decrypt_image` of cipher.py: pad the image to whole
 * tiles of the tile size, cut it into its grid of square tiles, run the
 * rounds on the tile list, glue the tiles back together and cut the padding
 * off again.
 */
module Pipeline {
  import opened Outcomes
  import opened Raster
  import opened Orientation
  import opened Permutation
  import opened Tiles
  import opened Rounds

  // ---------------------------------------------------------------------------
  // Square tiles keep their shape through the rounds
  // ---------------------------------------------------------------------------

  /** Moving tiles by a permutation only rearranges them, so tiles of one shape stay of that shape. */
  lemma {:induction false} MoveKeepsShape<T>(tiles: seq<Matrix<T>>, perm: seq<nat>, th: nat, tw: nat)
    requires AllWellFormed(tiles) && |perm| == |tiles| && IsPermutation(perm) && Uniform(tiles, th, tw)
    ensures Uniform(Move(tiles, perm), th, tw)
  {
    var moved := Move(tiles, perm);
    InverseFacts(perm);
    forall k | 0 <= k < |moved|
      ensures moved[k].Valid() && moved[k].h == th && moved[k].w == tw
    {
      var i := Inverse(perm)[k];
      assert moved[perm[i]] == tiles[i];
    }
  }

  /** Reorienting a square tile, either way, keeps it a square of the same side. */
  lemma {:induction false} TurnsKeepSquares<T>(tiles: seq<Matrix<T>>, codes: seq<nat>, ts: nat)
    requires AllWellFormed(tiles) && |codes| == |tiles| && Uniform(tiles, ts, ts)
    ensures Uniform(TransformAll(tiles, codes), ts, ts)
    ensures Uniform(InverseAll(tiles, codes), ts, ts)
  {
    var turned, back := TransformAll(tiles, codes), InverseAll(tiles, codes);
    forall k | 0 <= k < |tiles|
      ensures turned[k].Valid() && turned[k].h == ts && turned[k].w == ts
      ensures back[k].Valid() && back[k].h == ts && back[k].w == ts
    {
      assert turned[k] == TransformTile(tiles[k], codes[k]);
      assert back[k] == InverseTransformTile(tiles[k], codes[k]);
    }
  }

  /** One encryption round turns square tiles of side `ts` into square tiles of side `ts`. */
  lemma {:induction false} ApplyKeyKeepsSquares<T>(tiles: seq<Matrix<T>>, key: RoundKey, ts: nat)
    requires AllWellFormed(tiles) && Fits(key, |tiles|) && Uniform(tiles, ts, ts)
    ensures Uniform(ApplyKey(tiles, key), ts, ts)
  {
    if key.codes.Some? {
      TurnsKeepSquares(tiles, key.codes.value, ts);
      MoveKeepsShape(TransformAll(tiles, key.codes.value), key.perm, ts, ts);
    } else {
      MoveKeepsShape(tiles, key.perm, ts, ts);
    }
  }

  /** So does one decryption round. */
  lemma {:induction false} UndoKeyKeepsSquares<T>(tiles: seq<Matrix<T>>, key: RoundKey, ts: nat)
    requires AllWellFormed(tiles) && Fits(key, |tiles|) && Uniform(tiles, ts, ts)
    ensures Uniform(UndoKey(tiles, key), ts, ts)
  {
    InverseFacts(key.perm);
    MoveKeepsShape(tiles, Inverse(key.perm), ts, ts);
    if key.codes.Some? {
      TurnsKeepSquares(MoveBack(tiles, key.perm), key.codes.value, ts);
    }
  }

  /** Any number of rounds forwards keeps square tiles square. */
  lemma {:induction false} ForwardKeepsSquares<T>(tiles: seq<Matrix<T>>, ks: seq<Result<RoundKey>>, ts: nat)
    requires AllWellFormed(tiles) && KeysFit(ks, |tiles|) && Uniform(tiles, ts, ts) && Forward(tiles, ks).Ok?
    ensures Uniform(Forward(tiles, ks).value, ts, ts)
    decreases |ks|
  {
    if ks != [] {
      var front := ks[..|ks| - 1];
      ForwardKeepsSquares(tiles, front, ts);
      ApplyKeyKeepsSquares(Forward(tiles, front).value, ks[|ks| - 1].value, ts);
    }
  }

  /** Any number of rounds backwards keeps square tiles square. */
  lemma {:induction false} BackwardKeepsSquares<T>(tiles: seq<Matrix<T>>, ks: seq<Result<RoundKey>>, ts: nat)
    requires AllWellFormed(tiles) && KeysFit(ks, |tiles|) && Uniform(tiles, ts, ts) && Backward(tiles, ks).Ok?
    ensures Uniform(Backward(tiles, ks).value, ts, ts)
    decreases |ks|
  {
    if ks != [] {
      var key := ks[|ks| - 1].value;
      UndoKeyKeepsSquares(tiles, key, ts);
      BackwardKeepsSquares(UndoKey(tiles, key), ks[..|ks| - 1], ts);
    }
  }

  // ---------------------------------------------------------------------------
  // The tile grid of a padded image
  // ---------------------------------------------------------------------------

  /** A side that is a multiple of `ts` holds `side / ts` tiles, and cutting it into that many gives tiles of side `ts`. */
  lemma {:induction false} TileCount(side: nat, ts: nat)
    requires ts > 0 && side % ts == 0
    ensures (side / ts) * ts == side
    ensures side / ts == 0 <==> side == 0
    ensures side / ts > 0 ==> side / (side / ts) == ts && side % (side / ts) == 0
  {
    var n := side / ts;
    DivExact(side, ts);
    if n > 0 {
      DivModOfBlock(side, ts, n);
    }
  }

  /** An image padded to whole tiles is `rows` by `cols` square tiles of side `ts`; it has none exactly when it is empty. */
  lemma {:induction false} SplitIntoSquares<T>(img: Matrix<T>, ts: nat, rows: nat, cols: nat)
    requires img.Valid() && ts > 0 && img.h % ts == 0 && img.w % ts == 0
    requires rows == img.h / ts && cols == img.w / ts
    ensures rows * ts == img.h && cols * ts == img.w
    ensures rows == 0 <==> img.h == 0
    ensures cols == 0 <==> img.w == 0
    ensures rows > 0 ==> img.h / rows == ts && img.h % rows == 0
    ensures cols > 0 ==> img.w / cols == ts && img.w % cols == 0
    ensures Split(img, rows, cols).Ok? ==> Uniform(Split(img, rows, cols).value, ts, ts) && AllWellFormed(Split(img, rows, cols).value)
  {
    TileCount(img.h, ts);
    TileCount(img.w, ts);
  }

  /** Padding an empty side adds nothing to it. */
  lemma {:induction false} PadKeepsEmpty<T>(img: Matrix<T>, ts: nat, border: (nat, nat) -> T)
    requires img.Valid() && ts > 0
    ensures img.h == 0 ==> PadToTileSize(img, ts, border).img.h == 0
    ensures img.w == 0 ==> PadToTileSize(img, ts, border).img.w == 0
  {
    assert 0 % ts == 0;
  }

  // ---------------------------------------------------------------------------
  // The image-level cipher
  // ---------------------------------------------------------------------------

  /**
   * `encrypt_image`. Without a positive tile size the source never computes
   * the grid and fails; an image with no rows or no columns has an empty
   * grid, and cutting it is a division by zero.
   */
  function EncryptImage<T>(img: Matrix<T>, border: (nat, nat) -> T, p: Params, tileSize: int, rounds: int): (res: Result<Matrix<T>>)
    requires img.Valid() && p.Valid()
    ensures tileSize <= 0 ==> res == Err(NoTileSize)
    ensures tileSize > 0 && (img.h == 0 || img.w == 0) ==> res == Err(ZeroGrid)
    ensures res.Ok? ==> res.value.Valid() && res.value.h == img.h && res.value.w == img.w
  {
    if tileSize <= 0 then Err(NoTileSize)
    else
      var ts: nat := tileSize;
      var padded := PadToTileSize(img, ts, border);
      var rows, cols := padded.img.h / ts, padded.img.w / ts;
      PadKeepsEmpty(img, ts, border);
      SplitIntoSquares(padded.img, ts, rows, cols);
      var tiles :- Split(padded.img, rows, cols);
      var out :- Encrypt(tiles, p, rounds);
      ForwardKeepsSquares(tiles, EncryptSchedule(|tiles|, p, RoundCount(rounds)), ts);
      var merged :- Merge(out, rows, cols);
      MergeShape(out, rows, cols, ts, ts);
      Ok(Unpad(merged, padded.padH, padded.padW))
  }

  /** `decrypt_image`: the same grid, the rounds undone last first. */
  function DecryptImage<T>(img: Matrix<T>, border: (nat, nat) -> T, p: Params, tileSize: int, rounds: int): (res: Result<Matrix<T>>)
    requires img.Valid() && p.Valid()
    ensures tileSize <= 0 ==> res == Err(NoTileSize)
    ensures tileSize > 0 && (img.h == 0 || img.w == 0) ==> res == Err(ZeroGrid)
    ensures res.Ok? ==> res.value.Valid() && res.value.h == img.h && res.value.w == img.w
  {
    if tileSize <= 0 then Err(NoTileSize)
    else
      var ts: nat := tileSize;
      var padded := PadToTileSize(img, ts, border);
      var rows, cols := padded.img.h / ts, padded.img.w / ts;
      PadKeepsEmpty(img, ts, border);
      SplitIntoSquares(padded.img, ts, rows, cols);
      var tiles :- Split(padded.img, rows, cols);
      var out :- Decrypt(tiles, p, rounds);
      BackwardKeepsSquares(tiles, DecryptSchedule(|tiles|, p, RoundCount(rounds)), ts);
      var merged :- Merge(out, rows, cols);
      MergeShape(out, rows, cols, ts, ts);
      Ok(Unpad(merged, padded.padH, padded.padW))
  }

  /**
   * When the tile size divides both sides, no padding is added and
   * decrypting the ciphertext with the same key gives back the image.
   */
  lemma {:induction false} DecryptImageUndoesEncryptImage<T>(img: Matrix<T>, border: (nat, nat) -> T, p: Params, tileSize: int, rounds: int)
    requires img.Valid() && p.Valid() && tileSize > 0 && img.h % tileSize == 0 && img.w % tileSize == 0
    ensures EncryptImage(img, border, p, tileSize, rounds).Ok? ==>
      DecryptImage(EncryptImage(img, border, p, tileSize, rounds).value, border, p, tileSize, rounds) == Ok(img)
  {
    var ts: nat := tileSize;
    var rows, cols := img.h / ts, img.w / ts;
    SplitIntoSquares(img, ts, rows, cols);
    if rows > 0 && cols > 0 {
      var tiles := Split(img, rows, cols).value;
      DecryptUndoesEncrypt(tiles, p, rounds);
      if Encrypt(tiles, p, rounds).Ok? {
        var out := Encrypt(tiles, p, rounds).value;
        ForwardKeepsSquares(tiles, EncryptSchedule(|tiles|, p, RoundCount(rounds)), ts);
        SplitUndoesMerge(out, rows, cols, ts, ts);
        var cipher := Merge(out, rows, cols).value;
        assert EncryptImage(img, border, p, tileSize, rounds) == Ok(cipher);
        MergeUndoesSplit(img, rows, cols);
      }
    }
  }
}
