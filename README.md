# Keyed tile-shuffle image cipher — a Dafny model

This project models the core of a small image "encryption" engine. The engine
cuts an image into a grid of square tiles. It then runs a number of rounds over
the tile list. Each round optionally reorients every tile (one of eight
rotations or mirror images, chosen by a 3-bit code). It then moves the tiles
by a permutation. Both the codes and the permutation come from a Fibonacci
linear-feedback shift register (LFSR) seeded from the key. Decryption rebuilds
the same permutations and codes and undoes the rounds, the last one first.

The model is split into modules that follow the source files:

- `Bits` (bits.dfy): the integer views of `<<`, `>>`, `&`, `|`, `^` and
  `bit_length` on non-negative integers.
- `Lfsr` (lfsr.dfy): the register of lfsr.py.
  - The class `Register` has the register's `width` and `taps` fixed and a
    mutable `state`.
  - `StepBit` and `RandBits` are methods proved against the specification
    functions `NextState`, `Advance` and `Draw`.
- `Prng` (prng.py): the class `LfsrPrng`.
  - Its `RandInt` is rejection sampling on draws of `span.bit_length()` bits.
  - The specification functions are `Reject` and `Sample`.
- `Permutation` (cipher.py, first half): `build_permutation` (Fisher-Yates
  over an array, run by the register), `invert_permutation` and
  `apply_permutation`.
- `Orientation` (cipher.py): `transform_tile` and `inverse_transform_tile` as
  index maps on a `Matrix`.
- `Rounds` (cipher.py): the round loops of `encrypt_image` and `decrypt_image`
  on tile lists.
  - Each round has a key: its codes and its permutation.
  - `Forward` and `Backward` are the round loops as functions.
  - `EncryptTiles` and `DecryptTiles` are the same loops as methods.
- `Tiles` (tiles.py): padding, splitting into a row-major grid, merging,
  removing padding, and the balanced block edges of `compute_edges`.
- `Pipeline` (cipher.py): the image-level `encrypt_image` and `decrypt_image`.
- `Raster` and `Outcomes`: a matrix of pixels, and the error values that stand
  for the source's exceptions.

The main results:

- The feedback bit is the parity of the tapped bits, and the register never
  leaves `width` bits.
- `randbits(n)` packs the next `n` output bits, least significant first.
- `randint(a, b)` returns a value in `[a, b]`. The value is the first accepted
  draw, and every earlier draw was rejected.
- `build_permutation` returns a permutation of `0..n-1`.
- `invert_permutation` returns its inverse. Moving tiles by a permutation and
  then by its inverse restores them.
- Every one of the eight tile transforms is undone by its inverse.
- Decryption undoes encryption on tile lists for every round count.
- Splitting then merging, and merging then splitting, are inverses on evenly
  divisible grids.
- On an image whose sides are multiples of the tile size, `decrypt_image`
  undoes `encrypt_image`.

Where the documentation and the code disagree, the model follows the code:

- `compute_edges` documents its example `size=10, n=3` as `[0, 3, 7, 10]`. The
  code gives the extra pixel to the first block, which yields `[0, 4, 7, 10]`.
  `Tiles.TenInThree` states the edges the code computes.
- Because the sample width is `span.bit_length()`, a span that is a power of
  two is drawn with one bit more than it needs, and such a draw can be
  rejected. `Prng.PowerOfTwoSpanCanReject` exhibits such a state.

Source behaviour kept exactly:

- The zero-seed check looks at the raw seed before masking. A non-zero seed
  whose low `width` bits are all 0 therefore gives a register that stays at 0.
- Only `code & 7` of a transform code matters.
- The sub-seeds are `seed ^ ((r + 1) * 0xBEEF)` for the codes and
  `seed ^ ((r + 1) * 0x9E37)` for the permutation.
- At least one round always runs (`max(1, rounds)`).

## Model

| member | source | states |
|---|---|---|
| Bits.Pow2 | lfsr.py:20 | `1 << k` is at least 1 |
| Bits.Mask | lfsr.py:20-28 | `x & ((1 << w) - 1)` is below `2^w` and leaves a value already below `2^w` unchanged |
| Bits.Bit | lfsr.py:45 | `(x >> i) & 1` is 0 or 1 |
| Bits.BitTwo | cipher.py:68 | `(code >> 2) & 1` is `code // 4 % 2` |
| Bits.OrDisjointHighBit | lfsr.py:59 | or-ing one bit in above a value that fits below it is addition |
| Bits.BitsOfSum | lfsr.py:48 | putting bit `c` at position `k` above `a` sets bit `k` to `c` and keeps the lower bits of `a` |
| Bits.XorZeroIff | cipher.py:141 | `a ^ b == 0` exactly when `a == b` |
| Bits.XorCancel | cipher.py:141 | `x ^ (x ^ a) == a` |
| Bits.XorInjective | cipher.py:147 | `x ^ a == x ^ b` only when `a == b` |
| Bits.XorOfBits | lfsr.py:45 | the exclusive or of two bits is their sum modulo 2 |
| Bits.BitLength | prng.py:27 | `n.bit_length()` is 0 only for `n == 0` and never exceeds `n` |
| Bits.BitLengthBounds | prng.py:27 | `n < 2^n.bit_length()`, and for `n > 0`, `2^(bit_length - 1) <= n` |
| Lfsr.FirstBadTap | lfsr.py:31-33 | the first tap outside `1..width`: every tap before it is in range, and it is out of range |
| Lfsr.Validate | lfsr.py:18-33 | zero seed gives `ZeroState`; success exactly when the seed is non-zero and every tap is in `1..width`; otherwise `InvalidTap` naming the first tap, in order, outside `1..width`; the start state is the seed's low `width` bits |
| Lfsr.Feedback | lfsr.py:42-45 | the exclusive-or fold of the tapped bits is a single bit |
| Lfsr.FeedbackIsParity | lfsr.py:42-45 | the feedback bit is the parity of the number of tapped bits that are set |
| Lfsr.NextState | lfsr.py:47-49 | one register step always leaves a state below `2^width`, whatever the state it starts from |
| Lfsr.NextStateShifts | lfsr.py:47-49 | on an in-range state one step is `s // 2 + fb * 2^(width-1)` and stays below `2^width` |
| Lfsr.NextStateBits | lfsr.py:47-49 | after one step bit `width-1` is the feedback and each lower bit `i` is the old bit `i+1` |
| Lfsr.Advance | lfsr.py:35-51 | the state after `n` steps is below `2^width` once a step has been taken, and also after none when the start state was |
| Lfsr.AdvanceAdd | lfsr.py:53-60 | `p` steps then `q` steps are `p + q` steps |
| Lfsr.Outputs | lfsr.py:57-59 | the bits that `n` calls of `step_bit` return, one per step |
| Lfsr.OutputsAt | lfsr.py:39 | output bit `i` is the low bit of the state after `i` steps |
| Lfsr.OutputsAreBits | lfsr.py:39 | every output is 0 or 1 |
| Lfsr.PackSnoc | lfsr.py:59 | appending bit `c` after `n` bits adds `c << n` |
| Lfsr.Pack | lfsr.py:57-60 | the value `randbits` assembles from a bit list, least significant first; `n` bits pack below `2^n` |
| Lfsr.PackBit | lfsr.py:59 | bit `i` of the packed value is the `i`-th bit in the list |
| Lfsr.Draw | lfsr.py:53-60 | the value of `randbits(n)` is below `2^n` |
| Lfsr.DrawBit | lfsr.py:57-60 | bit `i` of `randbits(n)` is the register's `i`-th output bit |
| Lfsr.Register.FromValid | lfsr.py:18-28 | a register built from validated parameters is valid and starts at the masked seed |
| Lfsr.Register.New | lfsr.py:18-33 | construction fails exactly as `Validate` says; on success the register is fresh, valid, and has the given width, taps and masked start state |
| Lfsr.Register.StepBit | lfsr.py:35-51 | returns the old low bit; the new state is one register step, the old state shifted right with the feedback as the top bit |
| Lfsr.Register.RandBits | lfsr.py:53-60 | returns the packed next `n` outputs and leaves the register `n` steps on |
| Prng.Sample | prng.py:14-33 | `randint(a, b)`: a result lies in `[a, b]`; `EmptyRange` exactly when `a > b`, with no step taken; `a == b` gives `a` with no step |
| Prng.Reject | prng.py:30-33 | the rejection loop and the state it leaves: an accepted draw is below the span, and the only failure is `NoAcceptedDraw` |
| Prng.Skip | prng.py:31 | the state after `j` draws of `k` bits stays within `width` bits when the start state does or a bit was drawn |
| Prng.SkipIsAdvance | prng.py:31 | `j` draws of `k` bits are `j * k` register steps |
| Prng.SkipShift | prng.py:31 | one draw and then `j` draws are `j + 1` draws |
| Prng.RejectedDrawsShift | prng.py:30-33 | a rejected first draw followed by `m` rejected draws gives `m + 1` rejected draws |
| Prng.DrawsMade | prng.py:30-33 | the loop makes at most `fuel` draws, and at least one when it has any budget |
| Prng.RejectState | prng.py:30-33 | the register ends as many draws on as the loop made |
| Prng.RejectAccepts | prng.py:30-33 | an accepted call made between 1 and `fuel` draws, and its result is the last draw |
| Prng.RejectAcceptsLast | prng.py:30-33 | every draw before the accepted one was rejected |
| Prng.RejectGivesUp | prng.py:30-33 | a call that gives up made all `fuel` draws and rejected each |
| Prng.PowerOfTwoSpanCanReject | prng.py:27-33 | for span 2 the sampler draws 2 bits; from state 2 the first draw is 2 and is rejected |
| Prng.LfsrPrng.constructor | prng.py:10-12 | the sampler wraps the given register |
| Prng.LfsrPrng.RandInt | prng.py:14-33 | result and new register state are exactly `Sample` of the old state |
| Prng.LfsrPrng.DrawBelow | prng.py:30-33 | the rejection loop's result and new state are exactly `Reject` of the old state |
| Permutation.Range | cipher.py:28 | `list(range(n))` has length `n` and holds `i` at index `i` |
| Permutation.PermutationIff | cipher.py:21-23 | the multiset definition of a permutation equals "in range, no repeats, every index present", in both directions |
| Permutation.IsPermutation | cipher.py:28-35 | a permutation of `0..n-1` is exactly a list with the multiset of `0..n-1`; being in range follows from that |
| Permutation.Swap | cipher.py:33 | the two positions exchange values and every other position is unchanged |
| Permutation.SwapRearranges | cipher.py:33 | a swap keeps the multiset |
| Permutation.Shuffle | cipher.py:31-33 | the Fisher-Yates loop keeps the list's length; it also yields the register state after the loop, where a failed draw stops it |
| Permutation.ShuffleRearranges | cipher.py:28-35 | the shuffle only rearranges its input |
| Permutation.PermutationOf | cipher.py:18-35 | fails with the register's construction error; zero seed gives `ZeroState`; a result is a permutation of `0..n-1`; for `n <= 1` it is `[0..n-1]` |
| Permutation.BuildPermutation | cipher.py:18-35 | equals `PermutationOf`, and a result is a permutation of length `n` |
| Permutation.FisherYates | cipher.py:30-33 | the result and the register's final state are `Shuffle` of the array's old contents and the old state; on success the array holds the result |
| Permutation.SwapDown | cipher.py:32-33 | one pass draws `j` in `0..i` and swaps, leaving the rest of `Shuffle` unchanged; a failed draw is reported with the state where the loop stops |
| Permutation.InverseUpTo | cipher.py:43-45 | after any number of iterations the list still has the length of `perm` |
| Permutation.InverseUpToAt | cipher.py:43-45 | after the first `m` iterations, `inv[perm[i]] == i` for every `i < m` |
| Permutation.Inverse | cipher.py:38-46 | the inverse has the length of `perm` |
| Permutation.InverseFacts | cipher.py:38-46 | the inverse of a permutation is a permutation; `inv[perm[i]] == i` and `perm[inv[k]] == k` |
| Permutation.InvertPermutation | cipher.py:38-46 | the loop computes `Inverse`; on a permutation the result is a permutation that undoes it both ways |
| Permutation.Permuted | cipher.py:49-59 | element `i` lands at index `perm[i]` and the length is kept |
| Permutation.PermutedInverse | cipher.py:49-59 | moving by a permutation and then by its inverse gives back the list |
| Permutation.ApplyPermutation | cipher.py:49-59 | `LengthMismatch` exactly when the lengths differ; otherwise `out[perm[i]] == tiles[i]` for every `i` |
| Orientation.RotateCw | cipher.py:71 | a clockwise quarter turn swaps height and width |
| Orientation.RotateCcw | cipher.py:75 | a counter-clockwise quarter turn swaps height and width |
| Orientation.Rotate180 | cipher.py:73 | a half turn keeps the shape |
| Orientation.Mirror | cipher.py:78 | a horizontal flip keeps the shape |
| Orientation.RotationOf | cipher.py:67 | the rotation selector `code & 3` is below 4 |
| Orientation.MirrorOf | cipher.py:68 | the flip flag is 0 or 1 |
| Orientation.CodeParts | cipher.py:67-68 | a 3-bit code is its rotation selector plus four times its flip flag |
| Orientation.Rotate | cipher.py:70-75 | selectors 1 and 3 swap the sides, others keep them |
| Orientation.RotateBack | cipher.py:99-104 | the rotation back swaps the sides exactly when the rotation did |
| Orientation.TransformTile | cipher.py:62-79 | odd rotation selectors swap height and width, even ones keep them |
| Orientation.InverseTransformTile | cipher.py:82-106 | same shape rule as the transform |
| Orientation.MirrorTwice | cipher.py:94-95 | flipping twice restores the tile |
| Orientation.HalfTurnTwice | cipher.py:102 | two half turns restore the tile |
| Orientation.QuarterTurnsCancel | cipher.py:100-104 | clockwise and counter-clockwise quarter turns cancel in either order |
| Orientation.RotateBackCancels | cipher.py:97-104 | rotating back undoes the rotation and vice versa |
| Orientation.InverseUndoesTransform | cipher.py:82-106 | for every code, the inverse transform restores the tile pixel for pixel |
| Orientation.TransformUndoesInverse | cipher.py:62-79 | for every code, the transform undoes the inverse as well |
| Orientation.OnlyLowThreeBits | cipher.py:67-68 | only `code & 7` matters for either direction |
| Raster.Block | tiles.py:57 | the slice `img[y0:y1, x0:x1]` is `(y1-y0) x (x1-x0)` |
| Raster.BlockPixels | tiles.py:57 | pixel `(i, j)` of the slice is pixel `(y0+i, x0+j)` of the image |
| Rounds.SubSeed | cipher.py:141-147 | a round's sub-seed is zero, so that its register fails with `ZeroState`, exactly when `seed == (r+1) * key` |
| Rounds.SubSeedsDiffer | cipher.py:141-147 | within a round the transform and permutation registers start from different seeds |
| Rounds.RoundSeedsDiffer | cipher.py:138-147 | different rounds use different sub-seeds for the same key |
| Rounds.RoundCount | cipher.py:138 | exactly `max(1, rounds)`: `rounds` when positive, 1 otherwise |
| Rounds.CodeStream | cipher.py:142 | `n` codes, each below 8 |
| Rounds.CodeStreamAt | cipher.py:142 | code `i` is the 3-bit draw after `3 * i` register steps |
| Rounds.TransformCodes | cipher.py:141-142 | fails exactly when the register cannot be built, with its error; otherwise `n` codes below 8 |
| Rounds.DeriveCodes | cipher.py:141-142 | the loop of `randbits(3)` calls computes `TransformCodes` |
| Rounds.TransformAll | cipher.py:143 | every tile is transformed and the list length is kept |
| Rounds.InverseAll | cipher.py:199-201 | every tile is transformed back and the list length is kept |
| Rounds.InverseAllUndoes | cipher.py:196-201 | transforming back with the same codes restores every tile |
| Rounds.CodesFor | cipher.py:140-142 | codes are present exactly when transforms are on, one per tile |
| Rounds.EncryptKey | cipher.py:140-148 | a derived encryption key has a permutation of the tiles and one code per tile |
| Rounds.DecryptKey | cipher.py:189-198 | the same for the decryptor's derivation order |
| Rounds.KeysAgree | cipher.py:189-198 | both derivation orders succeed together and then give the same key |
| Rounds.Move | cipher.py:149 | moving is `Permuted` and keeps tiles well formed |
| Rounds.MoveBack | cipher.py:192-193 | moving back is moving by the inverse permutation |
| Rounds.ApplyKey | cipher.py:139-149 | one encryption round keeps the number of tiles |
| Rounds.UndoKey | cipher.py:188-201 | one decryption round keeps the number of tiles |
| Rounds.UndoKeyUndoes | cipher.py:188-201 | undoing a round with its key restores the tiles |
| Rounds.Forward | cipher.py:137-149 | the rounds in order keep the number of tiles |
| Rounds.Backward | cipher.py:186-201 | the rounds in reverse keep the number of tiles |
| Rounds.BackwardUndoesForward | cipher.py:186-201 | undoing the rounds in reverse with the same keys restores the tiles |
| Rounds.ForwardStep | cipher.py:138-149 | one more round: the key's error or that key applied |
| Rounds.BackwardStep | cipher.py:187-201 | one more round undone: the key's error or that key undone first |
| Rounds.ForwardErrorPersists | cipher.py:138-149 | once a round fails, later rounds do not run and that error is the result |
| Rounds.EncryptSchedule | cipher.py:138-148 | round `r`'s key is `EncryptKey(r)` and every derived key fits the tiles |
| Rounds.DecryptSchedule | cipher.py:187-198 | round `r`'s key is `DecryptKey(r)` and every derived key fits the tiles |
| Rounds.Encrypt | cipher.py:137-149 | encryption of a tile list keeps its length and well-formedness |
| Rounds.Decrypt | cipher.py:184-201 | so does decryption |
| Rounds.DecryptUndoesEncrypt | cipher.py:184-201 | for any round count, whenever encryption succeeds, decrypting its output restores the tile list |
| Rounds.EncryptRoundOf | cipher.py:139-149 | the loop body fails exactly when the round key cannot be derived, with its error; otherwise it applies that key |
| Rounds.DecryptRoundOf | cipher.py:188-201 | the reverse loop body fails exactly when the key cannot be derived; otherwise it undoes that key |
| Rounds.EncryptTiles | cipher.py:137-149 | the encryption loop computes `Encrypt` |
| Rounds.DecryptTiles | cipher.py:184-201 | the reverse loop computes `Decrypt` |
| Tiles.PadAmount | tiles.py:106-107 | the padding is below the tile size, makes the side a multiple, and is 0 exactly when the side already is one |
| Tiles.PadAmountIsLeast | tiles.py:106-107 | it is the least padding that makes the side a multiple |
| Tiles.PadBottomRight | tiles.py:112 | bordering adds rows below and columns on the right and keeps the original pixels in place |
| Tiles.PadToMultiple | tiles.py:105-113 | the padded sides are multiples; the original pixels are kept; an image that already fits is returned as it is, with no padding |
| Tiles.PadToGrid | tiles.py:16-36 | a zero row or column count is a `ZeroGrid` error; otherwise the sides divide into `rows` and `cols`, with padding below each count |
| Tiles.PadToTileSize | tiles.py:98-113 | sides become multiples of the tile size, padding below it, pixels kept, no padding when already divisible |
| Tiles.Unpad | tiles.py:116-123 | the result is the top-left `(h-ph) x (w-pw)` block, pixel for pixel |
| Tiles.UnpadUndoesPad | tiles.py:116-123 | unpadding what `pad_to_tile_size` added gives back the image |
| Tiles.UnpadUndoesPadToGrid | tiles.py:28-36 | the same for `pad_to_grid` |
| Tiles.TileAt | tiles.py:51-57 | the tile in grid position `(r, c)` is `h // rows` by `w // cols` |
| Tiles.RowCells | tiles.py:50-57 | the inner loop appends `c` tiles of the grid shape |
| Tiles.GridCells | tiles.py:49-57 | the outer loop appends `r * cols` tiles of the grid shape |
| Tiles.Split | tiles.py:39-59 | `ZeroGrid` exactly when a count is 0; otherwise `rows * cols` tiles of size `h // rows` by `w // cols` |
| Tiles.RowCellsAt | tiles.py:50-57 | entry `j` of a grid row is the tile in column `j` |
| Tiles.GridCellsAt | tiles.py:49-57 | entry `i * cols + c` is the tile at `(i, c)` |
| Tiles.SplitAt | tiles.py:39-59 | tile `r * cols + c` of the split is the block in grid row `r` and column `c` (row-major order) |
| Tiles.SplitTiles | tiles.py:39-59 | the nested loops compute `Split` |
| Tiles.Beside | tiles.py:76 | side-by-side stacking keeps the height and adds the widths |
| Tiles.BesidePixels | tiles.py:76 | a pixel of the row comes from the left tile or from the right one, shifted |
| Tiles.Above | tiles.py:78 | vertical stacking adds the heights and keeps the width |
| Tiles.AbovePixels | tiles.py:78 | a row of the stack comes from the upper or the lower image |
| Tiles.BesideAll | tiles.py:76 | stacking a list side by side keeps the common height |
| Tiles.AboveAll | tiles.py:78 | stacking a list vertically keeps the common width |
| Tiles.HStack | tiles.py:76 | `np.hstack` fails exactly on an empty list or unequal heights, with the matching error |
| Tiles.VStack | tiles.py:78 | `np.vstack` fails exactly on an empty list or unequal widths, with the matching error |
| Tiles.GridRow | tiles.py:74 | the slice `tiles[idx:idx+cols]` has `cols` entries |
| Tiles.GridRowAt | tiles.py:74 | entry `c` of grid row `r` is entry `r * cols + c` of the list |
| Tiles.RowImages | tiles.py:71-76 | one row image per grid row, all well formed |
| Tiles.Merge | tiles.py:62-78 | a wrong tile count is `LengthMismatch`; an empty grid cannot be stacked; a result is well formed |
| Tiles.RowImagesErrorPersists | tiles.py:73-76 | the first row that fails to stack is the result of all rows |
| Tiles.RowImagesGrow | tiles.py:74-76 | one more loop iteration appends the next row's `hstack`, or stops with its error |
| Tiles.MergeTiles | tiles.py:62-78 | the cursor loop computes `Merge` |
| Tiles.BesideAdjacent | tiles.py:76 | two adjacent blocks side by side are one block |
| Tiles.AboveAdjacent | tiles.py:78 | two adjacent full-width blocks stacked are one block |
| Tiles.TileAtIs | tiles.py:51-57 | the grid tile at `(r, c)` is the block `[r*th, r*th+th) x [c*tw, c*tw+tw)` |
| Tiles.RowCellsBeside | tiles.py:49-57 | the first `c` tiles of a split row, side by side, are the block they were cut from |
| Tiles.RowImagesSnoc | tiles.py:73-76 | one more uniform grid row puts its side-by-side image after the earlier row images |
| Tiles.GridCellsAbove | tiles.py:49-78 | the first `r` grid rows of a split, merged, are the top `r * th` rows of the image |
| Tiles.MergeUndoesSplit | tiles.py:39-78 | merging the split of an evenly divisible image gives the image back |
| Tiles.BesideAllShape | tiles.py:76 | uniform tiles side by side are one tile high and `n` tiles wide |
| Tiles.AboveAllShape | tiles.py:78 | uniform strips stacked are `n` strips high |
| Tiles.BlockOfRow | tiles.py:76 | cutting tile `c` out of a row of tiles gives tile `c` |
| Tiles.BlockOfStack | tiles.py:78 | cutting strip `i` out of stacked strips gives strip `i` |
| Tiles.RowImagesUniform | tiles.py:71-76 | uniform tiles give row images of one shape |
| Tiles.RowImageAt | tiles.py:73-76 | row image `i` is grid row `i` side by side |
| Tiles.MergeShape | tiles.py:62-78 | uniform tiles in a full grid merge to `rows * th` by `cols * tw` |
| Tiles.TileOfMerged | tiles.py:62-78 | grid tile `(i, c)` of the merged image is list entry `i * cols + c` |
| Tiles.SplitOfMergedAt | tiles.py:39-78 | tile `k` of the split of the merge is tile `k` of the list |
| Tiles.SplitUndoesMerge | tiles.py:39-78 | splitting the merge of uniform tiles gives the same tiles back |
| Tiles.Edge | tiles.py:86-94 | the closed form of the accumulated edges; no edge up to the `n`-th lies beyond `size` |
| Tiles.EdgeStep | tiles.py:90-93 | each block adds `size // n`, plus one for the first `size % n` blocks |
| Tiles.EdgeEnds | tiles.py:86-94 | the edges start at 0 and end at `size` |
| Tiles.ComputeEdges | tiles.py:81-95 | `n == 0` is an error; a negative `n` gives `[size]`; otherwise `n + 1` edges from 0 to `size`, each step `size // n` plus one for the first `size % n` blocks |
| Tiles.EdgesIncrease | tiles.py:81-95 | with at least one pixel per block the edges strictly increase |
| Tiles.TenInThree | tiles.py:84-94 | `size=10, n=3` gives the edges 0, 4, 7, 10 |
| Pipeline.MoveKeepsShape | cipher.py:149 | moving tiles of one shape keeps them of that shape |
| Pipeline.TurnsKeepSquares | cipher.py:143 | transforming a square tile either way keeps it a square of the same side |
| Pipeline.ApplyKeyKeepsSquares | cipher.py:139-149 | an encryption round keeps square tiles of side `ts` |
| Pipeline.UndoKeyKeepsSquares | cipher.py:188-201 | a decryption round keeps square tiles of side `ts` |
| Pipeline.ForwardKeepsSquares | cipher.py:137-149 | any number of encryption rounds keeps square tiles square |
| Pipeline.BackwardKeepsSquares | cipher.py:186-201 | any number of decryption rounds keeps square tiles square |
| Pipeline.TileCount | cipher.py:127-129 | a padded side holds `side // ts` tiles, none exactly when the side is 0, and that grid cuts it into tiles of side `ts` |
| Pipeline.SplitIntoSquares | cipher.py:127-135 | a padded image splits into square tiles of side `ts`; the grid is empty exactly when a side is 0 |
| Pipeline.PadKeepsEmpty | cipher.py:124 | padding an empty side to the tile size leaves it empty |
| Pipeline.EncryptImage | cipher.py:109-157 | no positive tile size is `NoTileSize`; an empty image is `ZeroGrid`; a result has the input's height and width |
| Pipeline.DecryptImage | cipher.py:160-209 | the same error cases and shape guarantee |
| Pipeline.DecryptImageUndoesEncryptImage | cipher.py:109-209 | when the tile size divides both sides and encryption succeeds, decrypting the result with the same key gives the image back |

## Left out

- Image and video I/O, the command-line scripts and the configuration file are not part of this model.
- `cv2.copyMakeBorder` with `BORDER_REFLECT` is a foreign call. The pixels it writes into the padding are a parameter `border`; only the geometry of padding is modelled.
- Pixels are opaque values. NumPy's array layout and colour channels are not modelled.
- Prng.Sample: the source's `while True` loop may never accept a draw. The model bounds the number of draws by `fuel` and reports `NoAcceptedDraw` when it runs out. With enough fuel it agrees with the source wherever the source returns.
- Lfsr.Register.New: requires `width >= 1`. In the source a negative width already raises in the constructor, at `1 << self.width` (lfsr.py:20). A width of 0 raises the tap error as soon as there is a tap (lfsr.py:31-33). With width 0 and no taps the constructor succeeds, and the first `step_bit` raises on a shift by -1 (lfsr.py:48).
- Every round's registers need the same `width >= 1`, which `Rounds.Params.Valid` states.
- Seeds, sub-seeds and transform codes are non-negative integers. Negative seeds, and Python's `^` on them, are not modelled.
- Permutation.InvertPermutation: requires every entry below the list's length. The source raises `IndexError` on an out-of-range entry (cipher.py:45). Every caller passes a permutation.
- Permutation.ApplyPermutation: requires a permutation when the lengths agree. The source would leave `None` slots or raise `IndexError` on other lists. Every caller passes a permutation.
- Pipeline.EncryptImage: without a positive tile size the source reaches `split_tiles` with `rows` and `cols` unassigned and raises a `NameError`. The model reports `NoTileSize`.
- Pipeline.DecryptImageUndoesEncryptImage: proved only when the tile size divides both sides. Otherwise `encrypt_image` crops the permuted padded image back to the original size. Pixels that were moved into the padding are lost, and decryption cannot restore them.
- The statistical quality of the generator (uniformity of `randint`, period of the register) is not stated.
