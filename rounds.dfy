/**
 * The round composer of cipher.py at the level of tile lists. Each of
 * `max(1, rounds)` rounds optionally reorients every tile by a 3-bit code
 * drawn from a register seeded with `seed ^ (r + 1) * 0xBEEF`, then moves
 * the tiles by a permutation built from `seed ^ (r + 1) * 0x9E37`.
 * Decryption walks the rounds backwards and, within a round, moves the
 * tiles back before reorienting them back.
 */
module Rounds {
  import opened Bits
  import opened Outcomes
  import opened Lfsr
  import opened Permutation
  import opened Raster
  import opened Orientation

  const TransformKey: nat := 0xBEEF
  const PermutationKey: nat := 0x9E37

  /** The key material shared by both directions: the seed, the register layout, the transform flag and the sampler's draw budget. */
  datatype Params = Params(seed: nat, width: nat, taps: seq<int>, transform: bool, fuel: nat) {
    predicate Valid() {
      width >= 1
    }
  }

  /**
   * The sub-seed of round `r` for one of the two keys: `seed ^ (r + 1) * key`.
   * It is zero, so that the round's register fails with `ZeroState`, exactly
   * when the seed equals `(r + 1) * key`.
   */
  function SubSeed(seed: nat, r: nat, key: nat): (s: nat)
    ensures s == 0 <==> seed == (r + 1) * key
  {
    XorZeroIff(seed, (r + 1) * key);
    Xor(seed, (r + 1) * key)
  }

  /** Within a round the transform register and the permutation register start from different seeds. */
  lemma {:induction false} SubSeedsDiffer(seed: nat, r: nat)
    ensures SubSeed(seed, r, TransformKey) != SubSeed(seed, r, PermutationKey)
  {
    XorCancel(seed, (r + 1) * TransformKey);
    XorCancel(seed, (r + 1) * PermutationKey);
    assert (r + 1) * TransformKey == (r + 1) * PermutationKey + (r + 1) * 8376;
  }

  /** Different rounds use different sub-seeds for the same key. */
  lemma {:induction false} RoundSeedsDiffer(seed: nat, r1: nat, r2: nat, key: nat)
    requires r1 != r2 && key > 0
    ensures SubSeed(seed, r1, key) != SubSeed(seed, r2, key)
  {
    if SubSeed(seed, r1, key) == SubSeed(seed, r2, key) {
      XorInjective(seed, (r1 + 1) * key, (r2 + 1) * key);
      MulInjective(r1 + 1, r2 + 1, key);
    }
  }

  lemma {:induction false} MulInjective(a: nat, b: nat, k: nat)
    requires k > 0 && a * k == b * k
    ensures a == b
  {
    assert (b - a) * k == b * k - a * k;
  }

  /** `max(1, rounds)`: at least one round is always run. */
  function RoundCount(rounds: int): (k: nat)
    ensures k >= 1 && (rounds >= 1 ==> k == rounds) && (rounds < 1 ==> k == 1)
  {
    if rounds < 1 then 1 else rounds
  }

  /** The codes of `n` successive `randbits(3)` calls from state `s`: each below 8. */
  function CodeStream(l: Layout, s: nat, n: nat): (codes: seq<nat>)
    requires l.Valid()
    ensures |codes| == n
    ensures forall i :: 0 <= i < n ==> codes[i] < 8
    decreases n
  {
    assert Pow2(3) == 8;
    if n == 0 then [] else [Draw(l, s, 3)] + CodeStream(l, Advance(l, s, 3), n - 1)
  }

  /** Code `i` is the `i`-th 3-bit draw: the one made after `3 * i` steps. */
  lemma {:induction false} CodeStreamAt(l: Layout, s: nat, n: nat, i: nat)
    requires l.Valid() && i < n
    ensures CodeStream(l, s, n)[i] == Draw(l, Advance(l, s, 3 * i), 3)
    decreases i
  {
    if i > 0 {
      var t, m, j := Advance(l, s, 3), n - 1, i - 1;
      CodeStreamAt(l, t, m, j);
      AdvanceAdd(l, s, 3, 3 * j, 3 * i);
      CodeStreamStep(l, s, n, m);
    }
  }

  /** The first code, then the codes of the register three steps on. */
  lemma {:induction false} CodeStreamStep(l: Layout, s: nat, n: nat, m: nat)
    requires l.Valid() && n == m + 1
    ensures CodeStream(l, s, n) == [Draw(l, s, 3)] + CodeStream(l, Advance(l, s, 3), m)
  {
  }

  /** The codes of one transform pass over `n` tiles: a fresh register seeded with `seed`. */
  function TransformCodes(n: nat, seed: nat, width: nat, taps: seq<int>): (r: Result<seq<nat>>)
    requires width >= 1
    ensures r.Err? <==> Validate(width, taps, seed).Err?
    ensures r.Err? ==> r.error == Validate(width, taps, seed).error
    ensures r.Ok? ==> |r.value| == n && forall i :: 0 <= i < n ==> r.value[i] < 8
  {
    match Validate(width, taps, seed)
    case Err(e) => Err(e)
    case Ok(s) => Ok(CodeStream(Layout(width, taps), s, n))
  }

  /** `[lfsr.randbits(3) for _ in range(n)]` on a register freshly built from `seed`. */
  method DeriveCodes(n: nat, seed: nat, width: nat, taps: seq<int>) returns (r: Result<seq<nat>>)
    requires width >= 1
    ensures r == TransformCodes(n, seed, width, taps)
  {
    var created := Register.New(width, taps, seed);
    if created.Err? {
      return Err(created.error);
    }
    var reg := created.value;
    ghost var l := reg.Shape();
    assert l == Layout(width, taps);
    var codes: seq<nat> := [];
    for i := 0 to n
      invariant reg.Valid() && reg.Shape() == l
      invariant codes + CodeStream(l, reg.state, n - i) == CodeStream(l, Validate(width, taps, seed).value, n)
    {
      ghost var rest := CodeStream(l, reg.state, n - i);
      var c := reg.RandBits(3);
      assert rest == [c] + CodeStream(l, reg.state, n - i - 1);
      codes := codes + [c];
    }
    assert CodeStream(l, reg.state, 0) == [];
    assert codes == CodeStream(Layout(width, taps), Validate(width, taps, seed).value, n);
    return Ok(codes);
  }

  /** Every tile reoriented by its own code. */
  function TransformAll<T>(tiles: seq<Matrix<T>>, codes: seq<nat>): (out: seq<Matrix<T>>)
    requires AllWellFormed(tiles) && |codes| == |tiles|
    ensures |out| == |tiles| && AllWellFormed(out)
  {
    seq(|tiles|, i requires 0 <= i < |tiles| => TransformTile(tiles[i], codes[i]))
  }

  /** Every tile reoriented back by its own code. */
  function InverseAll<T>(tiles: seq<Matrix<T>>, codes: seq<nat>): (out: seq<Matrix<T>>)
    requires AllWellFormed(tiles) && |codes| == |tiles|
    ensures |out| == |tiles| && AllWellFormed(out)
  {
    seq(|tiles|, i requires 0 <= i < |tiles| => InverseTransformTile(tiles[i], codes[i]))
  }

  /** Reorienting back with the same codes restores every tile. */
  lemma {:induction false} InverseAllUndoes<T>(tiles: seq<Matrix<T>>, codes: seq<nat>)
    requires AllWellFormed(tiles) && |codes| == |tiles|
    ensures InverseAll(TransformAll(tiles, codes), codes) == tiles
  {
    var back := InverseAll(TransformAll(tiles, codes), codes);
    forall i | 0 <= i < |tiles|
      ensures back[i] == tiles[i]
    {
      InverseUndoesTransform(tiles[i], codes[i]);
    }
  }

  /** What one round needs besides the tiles: the transform codes (none when transforms are off) and the permutation. */
  datatype RoundKey = RoundKey(codes: Option<seq<nat>>, perm: seq<nat>)

  /** A key usable on `n` tiles: a permutation of `0..n-1` and one code per tile. */
  predicate Fits(key: RoundKey, n: nat) {
    |key.perm| == n && IsPermutation(key.perm) && (key.codes.Some? ==> |key.codes.value| == n)
  }

  /** The transform codes of round `r` for `n` tiles, or none when transforms are off. */
  function CodesFor(n: nat, p: Params, r: nat): (res: Result<Option<seq<nat>>>)
    requires p.Valid()
    ensures res.Ok? ==> (res.value.Some? <==> p.transform) && (res.value.Some? ==> |res.value.value| == n)
  {
    if !p.transform then Ok(None)
    else
      var codes :- TransformCodes(n, SubSeed(p.seed, r, TransformKey), p.width, p.taps);
      Ok(Some(codes))
  }

  /** The key of encryption round `r`, derived in the encryptor's order: codes first, then the permutation. */
  function EncryptKey(n: nat, p: Params, r: nat): (res: Result<RoundKey>)
    requires p.Valid()
    ensures res.Ok? ==> Fits(res.value, n)
  {
    var codes :- CodesFor(n, p, r);
    var perm :- PermutationOf(n, SubSeed(p.seed, r, PermutationKey), p.width, p.taps, p.fuel);
    Ok(RoundKey(codes, perm))
  }

  /** The key of decryption round `r`, derived in the decryptor's order: the permutation first, then the codes. */
  function DecryptKey(n: nat, p: Params, r: nat): (res: Result<RoundKey>)
    requires p.Valid()
    ensures res.Ok? ==> Fits(res.value, n)
  {
    var perm :- PermutationOf(n, SubSeed(p.seed, r, PermutationKey), p.width, p.taps, p.fuel);
    var codes :- CodesFor(n, p, r);
    Ok(RoundKey(codes, perm))
  }

  /**
   * Both directions derive the same key for a round, from the same sub-seeds;
   * only the error reported first may differ when both derivations fail.
   */
  lemma {:induction false} KeysAgree(n: nat, p: Params, r: nat)
    requires p.Valid()
    ensures EncryptKey(n, p, r).Ok? <==> DecryptKey(n, p, r).Ok?
    ensures EncryptKey(n, p, r).Ok? ==> EncryptKey(n, p, r) == DecryptKey(n, p, r)
  {
  }

  /** Tile `i` moved to `perm[i]`: every tile of the result is one of the inputs. */
  function Move<T>(tiles: seq<Matrix<T>>, perm: seq<nat>): (out: seq<Matrix<T>>)
    requires AllWellFormed(tiles) && |perm| == |tiles| && IsPermutation(perm)
    ensures out == Permuted(tiles, perm) && AllWellFormed(out)
  {
    var moved := Permuted(tiles, perm);
    assert AllWellFormed(moved) by {
      forall k | 0 <= k < |moved|
        ensures moved[k].Valid()
      {
        InverseFacts(perm);
        assert moved[perm[Inverse(perm)[k]]] == tiles[Inverse(perm)[k]];
      }
    }
    moved
  }

  /** Tiles moved by the inverse of `perm`: tile `perm[i]` comes back to `i`. */
  function MoveBack<T>(tiles: seq<Matrix<T>>, perm: seq<nat>): (out: seq<Matrix<T>>)
    requires AllWellFormed(tiles) && |perm| == |tiles| && IsPermutation(perm)
    ensures IsPermutation(Inverse(perm))
    ensures out == Permuted(tiles, Inverse(perm)) && AllWellFormed(out)
  {
    InverseFacts(perm);
    Move(tiles, Inverse(perm))
  }

  /** One encryption round on the tiles: each tile reoriented by its code, then tile `i` moved to `perm[i]`. */
  function ApplyKey<T>(tiles: seq<Matrix<T>>, key: RoundKey): (out: seq<Matrix<T>>)
    requires AllWellFormed(tiles) && Fits(key, |tiles|)
    ensures |out| == |tiles| && AllWellFormed(out)
  {
    var turned := if key.codes.Some? then TransformAll(tiles, key.codes.value) else tiles;
    Move(turned, key.perm)
  }

  /** One decryption round on the tiles: moved by the inverse permutation, then each reoriented back. */
  function UndoKey<T>(tiles: seq<Matrix<T>>, key: RoundKey): (out: seq<Matrix<T>>)
    requires AllWellFormed(tiles) && Fits(key, |tiles|)
    ensures |out| == |tiles| && AllWellFormed(out)
  {
    var back := MoveBack(tiles, key.perm);
    if key.codes.Some? then InverseAll(back, key.codes.value) else back
  }

  /** Undoing a round with its own key gives the tiles back. */
  lemma {:induction false} UndoKeyUndoes<T>(tiles: seq<Matrix<T>>, key: RoundKey)
    requires AllWellFormed(tiles) && Fits(key, |tiles|)
    ensures UndoKey(ApplyKey(tiles, key), key) == tiles
  {
    var turned := if key.codes.Some? then TransformAll(tiles, key.codes.value) else tiles;
    PermutedInverse(turned, key.perm);
    if key.codes.Some? {
      InverseAllUndoes(tiles, key.codes.value);
    }
  }

  /** Every key in the schedule that was derived fits `n` tiles. */
  predicate KeysFit(ks: seq<Result<RoundKey>>, n: nat) {
    forall i :: 0 <= i < |ks| && ks[i].Ok? ==> Fits(ks[i].value, n)
  }

  /**
   * Rounds in increasing order with the keys `ks` (`ks[r]` for round `r`):
   * the first key that could not be derived is the error.
   */
  function Forward<T>(tiles: seq<Matrix<T>>, ks: seq<Result<RoundKey>>): (res: Result<seq<Matrix<T>>>)
    requires AllWellFormed(tiles) && KeysFit(ks, |tiles|)
    ensures res.Ok? ==> |res.value| == |tiles| && AllWellFormed(res.value)
    decreases |ks|
  {
    if ks == [] then Ok(tiles)
    else
      var before :- Forward(tiles, ks[..|ks| - 1]);
      var key :- ks[|ks| - 1];
      Ok(ApplyKey(before, key))
  }

  /** Rounds in decreasing order with the keys `ks`: the last round is undone first. */
  function Backward<T>(tiles: seq<Matrix<T>>, ks: seq<Result<RoundKey>>): (res: Result<seq<Matrix<T>>>)
    requires AllWellFormed(tiles) && KeysFit(ks, |tiles|)
    ensures res.Ok? ==> |res.value| == |tiles| && AllWellFormed(res.value)
    decreases |ks|
  {
    if ks == [] then Ok(tiles)
    else
      var key :- ks[|ks| - 1];
      Backward(UndoKey(tiles, key), ks[..|ks| - 1])
  }

  /**
   * Running the rounds backwards undoes running them forwards, whenever the
   * decryptor derives the same key for every round the encryptor derived.
   */
  lemma {:induction false} BackwardUndoesForward<T>(tiles: seq<Matrix<T>>, eks: seq<Result<RoundKey>>, dks: seq<Result<RoundKey>>)
    requires AllWellFormed(tiles) && KeysFit(eks, |tiles|) && KeysFit(dks, |tiles|) && |dks| == |eks|
    requires forall i :: 0 <= i < |eks| && eks[i].Ok? ==> dks[i] == eks[i]
    requires Forward(tiles, eks).Ok?
    ensures Backward(Forward(tiles, eks).value, dks) == Ok(tiles)
    decreases |eks|
  {
    if eks != [] {
      var last := |eks| - 1;
      var front, back := eks[..last], dks[..last];
      var before := Forward(tiles, front).value;
      var key := eks[last].value;
      assert Forward(tiles, eks) == Ok(ApplyKey(before, key));
      BackwardUndoesForward(tiles, front, back);
      UndoKeyUndoes(before, key);
      assert dks[last] == Ok(key);
      assert Backward(ApplyKey(before, key), dks) == Backward(before, back);
    }
  }

  /** One more round: the next key's error, or the next key applied to the tiles so far. */
  lemma {:induction false} ForwardStep<T>(tiles: seq<Matrix<T>>, ks: seq<Result<RoundKey>>, r: nat)
    requires AllWellFormed(tiles) && KeysFit(ks, |tiles|) && r < |ks| && Forward(tiles, ks[..r]).Ok?
    ensures ks[r].Err? ==> Forward(tiles, ks[..r + 1]) == Err(ks[r].error)
    ensures ks[r].Ok? ==> Forward(tiles, ks[..r + 1]) == Ok(ApplyKey(Forward(tiles, ks[..r]).value, ks[r].value))
  {
    var upto := ks[..r + 1];
    assert upto[..|upto| - 1] == ks[..r];
    assert upto[|upto| - 1] == ks[r];
  }

  /** One more round undone, the latest first: the key's error, or the tiles moved back by it and then the earlier rounds undone. */
  lemma {:induction false} BackwardStep<T>(tiles: seq<Matrix<T>>, ks: seq<Result<RoundKey>>, r: nat, n: nat)
    requires AllWellFormed(tiles) && KeysFit(ks, |tiles|) && n == r + 1 && n <= |ks|
    ensures ks[r].Err? ==> Backward(tiles, ks[..n]) == Err(ks[r].error)
    ensures ks[r].Ok? ==> Backward(tiles, ks[..n]) == Backward(UndoKey(tiles, ks[r].value), ks[..r])
  {
    var upto := ks[..n];
    assert upto[..|upto| - 1] == ks[..r];
    assert upto[|upto| - 1] == ks[r];
  }

  /** Once a round fails, the rounds after it do not run and the error is the result. */
  lemma {:induction false} ForwardErrorPersists<T>(tiles: seq<Matrix<T>>, ks: seq<Result<RoundKey>>, j: nat)
    requires AllWellFormed(tiles) && KeysFit(ks, |tiles|) && j <= |ks| && Forward(tiles, ks[..j]).Err?
    ensures Forward(tiles, ks) == Forward(tiles, ks[..j])
    decreases |ks|
  {
    if j < |ks| {
      assert ks[..|ks| - 1][..j] == ks[..j];
      ForwardErrorPersists(tiles, ks[..|ks| - 1], j);
    } else {
      assert ks[..j] == ks;
    }
  }

  /** The encryptor's key for each of `count` rounds. */
  function EncryptSchedule(n: nat, p: Params, count: nat): (ks: seq<Result<RoundKey>>)
    requires p.Valid()
    ensures |ks| == count && KeysFit(ks, n)
    ensures forall r :: 0 <= r < count ==> ks[r] == EncryptKey(n, p, r)
  {
    seq(count, r requires 0 <= r < count => EncryptKey(n, p, r))
  }

  /** The decryptor's key for each of `count` rounds. */
  function DecryptSchedule(n: nat, p: Params, count: nat): (ks: seq<Result<RoundKey>>)
    requires p.Valid()
    ensures |ks| == count && KeysFit(ks, n)
    ensures forall r :: 0 <= r < count ==> ks[r] == DecryptKey(n, p, r)
  {
    seq(count, r requires 0 <= r < count => DecryptKey(n, p, r))
  }

  /** The tile-list part of `encrypt_image`: `max(1, rounds)` rounds. */
  function Encrypt<T>(tiles: seq<Matrix<T>>, p: Params, rounds: int): (res: Result<seq<Matrix<T>>>)
    requires p.Valid() && AllWellFormed(tiles)
    ensures res.Ok? ==> |res.value| == |tiles| && AllWellFormed(res.value)
  {
    Forward(tiles, EncryptSchedule(|tiles|, p, RoundCount(rounds)))
  }

  /** The tile-list part of `decrypt_image`: the same rounds, last first. */
  function Decrypt<T>(tiles: seq<Matrix<T>>, p: Params, rounds: int): (res: Result<seq<Matrix<T>>>)
    requires p.Valid() && AllWellFormed(tiles)
    ensures res.Ok? ==> |res.value| == |tiles| && AllWellFormed(res.value)
  {
    Backward(tiles, DecryptSchedule(|tiles|, p, RoundCount(rounds)))
  }

  /** Tile-list decryption undoes tile-list encryption for any round count, 0 and negative included. */
  lemma {:induction false} DecryptUndoesEncrypt<T>(tiles: seq<Matrix<T>>, p: Params, rounds: int)
    requires p.Valid() && AllWellFormed(tiles)
    ensures Encrypt(tiles, p, rounds).Ok? ==> Decrypt(Encrypt(tiles, p, rounds).value, p, rounds) == Ok(tiles)
  {
    var n := |tiles|;
    var count := RoundCount(rounds);
    var eks := EncryptSchedule(n, p, count);
    var dks := DecryptSchedule(n, p, count);
    if Forward(tiles, eks).Ok? {
      forall i | 0 <= i < count && eks[i].Ok?
        ensures dks[i] == eks[i]
      {
        KeysAgree(n, p, i);
      }
      BackwardUndoesForward(tiles, eks, dks);
    }
  }

  /** The body of the encryption loop for round `r`: derive the codes and reorient, then build the permutation and move. */
  method EncryptRoundOf<T>(tiles: seq<Matrix<T>>, p: Params, r: nat) returns (res: Result<seq<Matrix<T>>>)
    requires p.Valid() && AllWellFormed(tiles)
    ensures res.Err? <==> EncryptKey(|tiles|, p, r).Err?
    ensures res.Err? ==> res.error == EncryptKey(|tiles|, p, r).error
    ensures res.Ok? ==> res.value == ApplyKey(tiles, EncryptKey(|tiles|, p, r).value)
  {
    var turned := tiles;
    ghost var codesKey: Option<seq<nat>> := None;
    if p.transform {
      var codes := DeriveCodes(|tiles|, SubSeed(p.seed, r, TransformKey), p.width, p.taps);
      if codes.Err? {
        return Err(codes.error);
      }
      turned := TransformAll(tiles, codes.value);
      codesKey := Some(codes.value);
    }
    assert CodesFor(|tiles|, p, r) == Ok(codesKey);
    var perm := BuildPermutation(|turned|, SubSeed(p.seed, r, PermutationKey), p.width, p.taps, p.fuel);
    if perm.Err? {
      return Err(perm.error);
    }
    assert EncryptKey(|tiles|, p, r) == Ok(RoundKey(codesKey, perm.value));
    var moved := ApplyPermutation(turned, perm.value);
    return Ok(moved.value);
  }

  /** The body of the decryption loop for round `r`: rebuild and invert the permutation and move back, then reorient back. */
  method DecryptRoundOf<T>(tiles: seq<Matrix<T>>, p: Params, r: nat) returns (res: Result<seq<Matrix<T>>>)
    requires p.Valid() && AllWellFormed(tiles)
    ensures res.Err? <==> DecryptKey(|tiles|, p, r).Err?
    ensures res.Err? ==> res.error == DecryptKey(|tiles|, p, r).error
    ensures res.Ok? ==> res.value == UndoKey(tiles, DecryptKey(|tiles|, p, r).value)
  {
    var perm := BuildPermutation(|tiles|, SubSeed(p.seed, r, PermutationKey), p.width, p.taps, p.fuel);
    if perm.Err? {
      return Err(perm.error);
    }
    var inv := InvertPermutation(perm.value);
    var moved := ApplyPermutation(tiles, inv);
    var back := moved.value;
    assert back == MoveBack(tiles, perm.value);
    ghost var codesKey: Option<seq<nat>> := None;
    if p.transform {
      var codes := DeriveCodes(|back|, SubSeed(p.seed, r, TransformKey), p.width, p.taps);
      if codes.Err? {
        return Err(codes.error);
      }
      back := InverseAll(back, codes.value);
      codesKey := Some(codes.value);
    }
    assert CodesFor(|tiles|, p, r) == Ok(codesKey);
    assert DecryptKey(|tiles|, p, r) == Ok(RoundKey(codesKey, perm.value));
    return Ok(back);
  }

  /** The encryption round loop: reassigns the tile list once per round. */
  method EncryptTiles<T>(tiles: seq<Matrix<T>>, p: Params, rounds: int) returns (res: Result<seq<Matrix<T>>>)
    requires p.Valid() && AllWellFormed(tiles)
    ensures res == Encrypt(tiles, p, rounds)
  {
    var count := if rounds < 1 then 1 else rounds;
    ghost var ks := EncryptSchedule(|tiles|, p, count);
    var out := tiles;
    for r := 0 to count
      invariant |out| == |tiles| && AllWellFormed(out)
      invariant Forward(tiles, ks[..r]) == Ok(out)
    {
      ForwardStep(tiles, ks, r);
      var next := EncryptRoundOf(out, p, r);
      if next.Err? {
        ForwardErrorPersists(tiles, ks, r + 1);
        return Err(next.error);
      }
      out := next.value;
    }
    assert ks[..count] == ks;
    return Ok(out);
  }

  /** The decryption round loop: rounds in reverse order. */
  method DecryptTiles<T>(tiles: seq<Matrix<T>>, p: Params, rounds: int) returns (res: Result<seq<Matrix<T>>>)
    requires p.Valid() && AllWellFormed(tiles)
    ensures res == Decrypt(tiles, p, rounds)
  {
    var r: nat := if rounds < 1 then 1 else rounds;
    ghost var ks := DecryptSchedule(|tiles|, p, r);
    assert ks[..r] == ks;
    var out := tiles;
    while r > 0
      invariant r <= |ks| && |out| == |tiles| && AllWellFormed(out)
      invariant Backward(out, ks[..r]) == Decrypt(tiles, p, rounds)
    {
      var k := r - 1;
      BackwardStep(out, ks, k, r);
      var next := DecryptRoundOf(out, p, k);
      if next.Err? {
        return Err(next.error);
      }
      out, r := next.value, k;
    }
    return Ok(out);
  }
}
