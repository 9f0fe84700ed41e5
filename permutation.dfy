/**
 * The permutation primitives of cipher.py: a seeded Fisher-Yates shuffle of
 * the indices 0..n-1, the inverse of a permutation, and moving a tile list
 * so that the element at index `i` lands at index `perm[i]`.
 */
module Permutation {
  import opened Outcomes
  import opened Lfsr
  import opened Prng

  /** `list(range(n))`. */
  function Range(n: nat): (r: seq<nat>)
    ensures |r| == n && forall i :: 0 <= i < n ==> r[i] == i
  {
    seq(n, i => i)
  }

  /**
   * `p` holds each of 0..|p|-1 exactly once. The range conjunct follows from
   * the multiset one, as the contract says; it is spelled out so that `p`'s
   * entries can be used as indices directly.
   */
  predicate IsPermutation(p: seq<nat>)
    ensures IsPermutation(p) <==> multiset(p) == multiset(Range(|p|))
  {
    MultisetInRange(p);
    InRange(p) && multiset(p) == multiset(Range(|p|))
  }

  predicate InRange(p: seq<nat>) {
    forall i :: 0 <= i < |p| ==> p[i] < |p|
  }

  predicate Distinct(p: seq<nat>) {
    forall i, j :: 0 <= i < j < |p| ==> p[i] != p[j]
  }

  predicate Covers(p: seq<nat>) {
    forall k :: 0 <= k < |p| ==> k in p
  }

  lemma {:induction false} RangeCount(n: nat, v: nat)
    ensures multiset(Range(n))[v] == if v < n then 1 else 0
  {
    if n > 0 {
      RangeCount(n - 1, v);
      assert Range(n) == Range(n - 1) + [n - 1];
    }
  }

  lemma {:induction false} DistinctCount(p: seq<nat>, v: nat)
    requires Distinct(p)
    ensures multiset(p)[v] <= 1
  {
    if p != [] {
      var q := p[..|p| - 1];
      assert p == q + [p[|p| - 1]];
      DistinctCount(q, v);
      if v == p[|p| - 1] {
        assert v !in q;
      }
    }
  }

  lemma {:induction false} RepeatCount(p: seq<nat>, i: nat, j: nat)
    requires i < j < |p| && p[i] == p[j]
    ensures multiset(p)[p[i]] >= 2
  {
    assert p == p[..i] + [p[i]] + p[i + 1..j] + [p[j]] + p[j + 1..];
  }

  /** The multiset definition and the pointwise one agree: in range, no repeats, nothing missing. */
  lemma {:induction false} PermutationIff(p: seq<nat>)
    ensures IsPermutation(p) <==> InRange(p) && Distinct(p) && Covers(p)
  {
    var n := |p|;
    if IsPermutation(p) {
      forall i | 0 <= i < n
        ensures p[i] < n
      {
        assert p[i] in multiset(p);
        RangeCount(n, p[i]);
      }
      forall i, j | 0 <= i < j < n
        ensures p[i] != p[j]
      {
        if p[i] == p[j] {
          RepeatCount(p, i, j);
          RangeCount(n, p[i]);
        }
      }
      forall k | 0 <= k < n
        ensures k in p
      {
        RangeCount(n, k);
        assert k in multiset(p);
      }
    }
    if InRange(p) && Distinct(p) && Covers(p) {
      forall v: nat
        ensures multiset(p)[v] == multiset(Range(n))[v]
      {
        RangeCount(n, v);
        DistinctCount(p, v);
        if v < n {
          assert v in p;
        } else {
          assert v !in p;
        }
      }
    }
  }

  /** A list with the multiset of 0..|p|-1 has its entries below |p|. */
  lemma {:induction false} MultisetInRange(p: seq<nat>)
    ensures multiset(p) == multiset(Range(|p|)) ==> InRange(p)
  {
    if multiset(p) == multiset(Range(|p|)) {
      forall i | 0 <= i < |p|
        ensures p[i] < |p|
      {
        assert p[i] in multiset(p);
        RangeCount(|p|, p[i]);
      }
    }
  }

  /** `perm[i], perm[j] = perm[j], perm[i]`. */
  function Swap(p: seq<nat>, i: nat, j: nat): (r: seq<nat>)
    requires i < |p| && j < |p|
    ensures |r| == |p| && r[i] == p[j] && r[j] == p[i]
    ensures forall k :: 0 <= k < |p| && k != i && k != j ==> r[k] == p[k]
  {
    p[i := p[j]][j := p[i]]
  }

  /** A swap only rearranges. */
  lemma {:induction false} SwapRearranges(p: seq<nat>, i: nat, j: nat)
    requires i < |p| && j < |p|
    ensures multiset(Swap(p, i, j)) == multiset(p)
  {
  }

  /**
   * The Fisher-Yates loop from position `i` down to 1 on register state `s`:
   * position `i` is swapped with a position drawn from 0..i. Also yields the
   * register state afterwards; a failed draw ends the loop there.
   */
  function Shuffle(l: Layout, p: seq<nat>, i: nat, s: nat, fuel: nat): (r: (Result<seq<nat>>, nat))
    requires l.Valid() && (i < |p| || i == 0)
    ensures r.0.Ok? ==> |r.0.value| == |p|
    decreases i
  {
    if i == 0 then (Ok(p), s)
    else
      var (j, s') := Sample(l, s, 0, i, fuel);
      match j
      case Err(e) => (Err(e), s')
      case Ok(jv) => Shuffle(l, Swap(p, i, jv as nat), i - 1, s', fuel)
  }

  /** Whatever the shuffle returns is a rearrangement of `p`. */
  lemma {:induction false} ShuffleRearranges(l: Layout, p: seq<nat>, i: nat, s: nat, fuel: nat)
    requires l.Valid() && (i < |p| || i == 0)
    ensures Shuffle(l, p, i, s, fuel).0.Ok? ==> multiset(Shuffle(l, p, i, s, fuel).0.value) == multiset(p)
    decreases i
  {
    if i > 0 {
      var k := i - 1;
      var (j, s') := Sample(l, s, 0, i, fuel);
      ShuffleStep(l, p, i, k, s, fuel, j, s');
      if j.Ok? {
        var jv := j.value as nat;
        SwapRearranges(p, i, jv);
        ShuffleRearranges(l, Swap(p, i, jv), k, s', fuel);
      }
    }
  }

  /** One swap of the shuffle, given the draw `(j, s2)` made at position `i`. */
  lemma {:induction false} ShuffleStep(l: Layout, p: seq<nat>, i: nat, k: nat, s: nat, fuel: nat, j: Result<int>, s2: nat)
    requires l.Valid() && i == k + 1 && i < |p| && (j, s2) == Sample(l, s, 0, i, fuel)
    ensures j.Err? ==> Shuffle(l, p, i, s, fuel) == (Err(j.error), s2)
    ensures j.Ok? ==> 0 <= j.value <= i
    ensures j.Ok? ==> Shuffle(l, p, i, s, fuel) == Shuffle(l, Swap(p, i, j.value as nat), k, s2, fuel)
  {
    var drawn := Sample(l, s, 0, i, fuel);
    assert drawn.0 == j && drawn.1 == s2;
    if j.Ok? {
      var jv := j.value as nat;
      assert Shuffle(l, p, i, s, fuel) == Shuffle(l, Swap(p, i, jv), k, s2, fuel);
    }
  }

  /** With no position left to swap, the shuffle returns the list and the state it was given. */
  lemma {:induction false} ShuffleDone(l: Layout, p: seq<nat>, s: nat, fuel: nat)
    requires l.Valid()
    ensures Shuffle(l, p, 0, s, fuel) == (Ok(p), s)
  {
  }

  /**
   * `build_permutation(n, seed, width, taps)`: fails as the register
   * constructor does, otherwise shuffles 0..n-1 from the register's initial
   * state.
   */
  function PermutationOf(n: nat, seed: nat, width: nat, taps: seq<int>, fuel: nat): (r: Result<seq<nat>>)
    requires width >= 1
    ensures Validate(width, taps, seed).Err? ==> r == Err(Validate(width, taps, seed).error)
    ensures seed == 0 ==> r == Err(ZeroState)
    ensures r.Ok? ==> |r.value| == n && IsPermutation(r.value)
    ensures n <= 1 && Validate(width, taps, seed).Ok? ==> r == Ok(Range(n))
  {
    match Validate(width, taps, seed)
    case Err(e) => Err(e)
    case Ok(s0) =>
      var last := if n == 0 then 0 else n - 1;
      var r := Shuffle(Layout(width, taps), Range(n), last, s0, fuel).0;
      ShuffleRearranges(Layout(width, taps), Range(n), last, s0, fuel);
      r
  }

  /** `build_permutation`: a fresh register and sampler, then Fisher-Yates on `list(range(n))`. */
  method BuildPermutation(n: nat, seed: nat, width: nat, taps: seq<int>, fuel: nat) returns (r: Result<seq<nat>>)
    requires width >= 1
    ensures r == PermutationOf(n, seed, width, taps, fuel)
    ensures r.Ok? ==> |r.value| == n && IsPermutation(r.value)
  {
    var created := Register.New(width, taps, seed);
    if created.Err? {
      return Err(created.error);
    }
    var reg := created.value;
    var rng := new LfsrPrng(reg);
    var perm := new nat[n](k => k);
    assert perm[..] == Range(n);
    ghost var s0 := reg.state;
    ghost var l := Layout(width, taps);
    assert rng.lfsr.Shape() == l;
    r := FisherYates(perm, rng, fuel);
    assert r == Shuffle(l, Range(n), if n == 0 then 0 else n - 1, s0, fuel).0;
    PermutationOfShuffles(n, seed, width, taps, fuel, s0);
  }

  /** Once the register is valid, the permutation is the shuffle of `0..n-1` from its initial state. */
  lemma {:induction false} PermutationOfShuffles(n: nat, seed: nat, width: nat, taps: seq<int>, fuel: nat, s0: nat)
    requires width >= 1 && Validate(width, taps, seed) == Ok(s0)
    ensures PermutationOf(n, seed, width, taps, fuel) == Shuffle(Layout(width, taps), Range(n), if n == 0 then 0 else n - 1, s0, fuel).0
  {
  }

  /** The swap loop: for `i` from `n - 1` down to 1, swap `perm[i]` with `perm[randint(0, i)]`. */
  method FisherYates(perm: array<nat>, rng: LfsrPrng, fuel: nat) returns (r: Result<seq<nat>>)
    requires rng.lfsr.Valid()
    modifies perm, rng.lfsr
    ensures rng.lfsr.Valid()
    ensures (r, rng.lfsr.state) == Shuffle(rng.lfsr.Shape(), old(perm[..]), if perm.Length == 0 then 0 else perm.Length - 1,
                                           old(rng.lfsr.state), fuel)
    ensures r.Ok? ==> perm[..] == r.value
  {
    ghost var l := rng.lfsr.Shape();
    var n := perm.Length;
    var i: nat := if n == 0 then 0 else n - 1;
    while i > 0
      invariant i < n || i == 0
      invariant rng.lfsr.Valid()
      invariant Shuffle(l, perm[..], i, rng.lfsr.state, fuel)
             == Shuffle(l, old(perm[..]), if n == 0 then 0 else n - 1, old(rng.lfsr.state), fuel)
      decreases i
    {
      var failed := SwapDown(l, perm, rng, i, fuel);
      if failed.Some? {
        return Err(failed.value);
      }
      i := i - 1;
    }
    ShuffleDone(l, perm[..], rng.lfsr.state, fuel);
    return Ok(perm[..]);
  }

  /**
   * One pass of the swap loop at position `i`: draw `j` from 0..i and swap
   * `perm[i]` with `perm[j]`, or report why the draw failed. Either way the
   * rest of the shuffle is unchanged.
   */
  method SwapDown(ghost l: Layout, perm: array<nat>, rng: LfsrPrng, i: nat, fuel: nat) returns (failed: Option<Error>)
    requires rng.lfsr.Valid() && l == rng.lfsr.Shape() && 0 < i < perm.Length
    modifies perm, rng.lfsr
    ensures rng.lfsr.Valid()
    ensures failed.Some? ==> Shuffle(l, old(perm[..]), i, old(rng.lfsr.state), fuel) == (Err(failed.value), rng.lfsr.state)
    ensures failed.None? ==> Shuffle(l, old(perm[..]), i, old(rng.lfsr.state), fuel) == Shuffle(l, perm[..], i - 1, rng.lfsr.state, fuel)
  {
    ghost var before := rng.lfsr.state;
    ghost var p := perm[..];
    var k := i - 1;
    var j := rng.RandInt(0, i, fuel);
    ShuffleStep(l, p, i, k, before, fuel, j, rng.lfsr.state);
    if j.Err? {
      return Some(j.error);
    }
    var jv := j.value as nat;
    perm[i], perm[jv] := perm[jv], perm[i];
    assert perm[..] == Swap(p, i, jv);
    return None;
  }

  /** `inv` after the first `m` iterations of `inv[perm[i]] = i`, starting from all zeros. */
  function InverseUpTo(p: seq<nat>, m: nat): (inv: seq<nat>)
    requires m <= |p| && InRange(p)
    ensures |inv| == |p|
  {
    if m == 0 then seq(|p|, _ => 0) else InverseUpTo(p, m - 1)[p[m - 1] := m - 1]
  }

  function Inverse(p: seq<nat>): (inv: seq<nat>)
    requires InRange(p)
    ensures |inv| == |p|
  {
    InverseUpTo(p, |p|)
  }

  lemma {:induction false} InverseUpToAt(p: seq<nat>, m: nat, i: nat)
    requires m <= |p| && InRange(p) && Distinct(p) && i < m
    ensures InverseUpTo(p, m)[p[i]] == i
  {
    if i < m - 1 {
      InverseUpToAt(p, m - 1, i);
    }
  }

  /**
   * The inverse of a permutation is a permutation, and each undoes the
   * other: `inv[perm[i]] == i` and `perm[inv[k]] == k`.
   */
  lemma {:induction false} InverseFacts(p: seq<nat>)
    requires IsPermutation(p)
    ensures IsPermutation(Inverse(p))
    ensures forall i :: 0 <= i < |p| ==> Inverse(p)[p[i]] == i
    ensures forall k :: 0 <= k < |p| ==> p[Inverse(p)[k]] == k
  {
    PermutationIff(p);
    var inv := Inverse(p);
    forall i | 0 <= i < |p|
      ensures inv[p[i]] == i
    {
      InverseUpToAt(p, |p|, i);
    }
    forall k | 0 <= k < |p|
      ensures inv[k] < |p| && p[inv[k]] == k
    {
      assert k in p;
      var i :| 0 <= i < |p| && p[i] == k;
      assert inv[p[i]] == i;
    }
    forall i | 0 <= i < |p|
      ensures i in inv
    {
      assert inv[p[i]] == i;
    }
    PermutationIff(inv);
  }

  /** `invert_permutation`: a zero-filled list, then `inv[perm[i]] = i` for each `i` in order. */
  method InvertPermutation(perm: seq<nat>) returns (inv: seq<nat>)
    requires InRange(perm)
    ensures inv == Inverse(perm)
    ensures IsPermutation(perm) ==>
      && IsPermutation(inv)
      && (forall i :: 0 <= i < |perm| ==> inv[perm[i]] == i)
      && (forall k :: 0 <= k < |perm| ==> perm[inv[k]] == k)
  {
    var a := new nat[|perm|](_ => 0);
    for i := 0 to |perm|
      invariant a[..] == InverseUpTo(perm, i)
    {
      a[perm[i]] := i;
    }
    inv := a[..];
    if IsPermutation(perm) {
      InverseFacts(perm);
    }
  }

  /** The list with the element at index `i` moved to index `perm[i]`. */
  function Permuted<T>(tiles: seq<T>, perm: seq<nat>): (out: seq<T>)
    requires |tiles| == |perm| && IsPermutation(perm)
    ensures |out| == |tiles|
    ensures forall i :: 0 <= i < |perm| ==> out[perm[i]] == tiles[i]
  {
    InverseFacts(perm);
    seq(|tiles|, k requires 0 <= k < |tiles| => tiles[Inverse(perm)[k]])
  }

  /** Moving by a permutation and then by its inverse gives the original list back. */
  lemma {:induction false} PermutedInverse<T>(tiles: seq<T>, perm: seq<nat>)
    requires |tiles| == |perm| && IsPermutation(perm)
    ensures IsPermutation(Inverse(perm))
    ensures Permuted(Permuted(tiles, perm), Inverse(perm)) == tiles
  {
    InverseFacts(perm);
    var inv := Inverse(perm);
    var moved := Permuted(tiles, perm);
    var back := Permuted(moved, inv);
    forall k | 0 <= k < |tiles|
      ensures back[k] == tiles[k]
    {
      assert inv[perm[k]] == k;
      assert back[inv[perm[k]]] == moved[perm[k]];
    }
  }

  /**
   * `apply_permutation`: `LengthMismatch` when the lengths differ; otherwise a
   * new list, initially all empty slots, with `out[perm[i]] = tiles[i]`.
   */
  method ApplyPermutation<T>(tiles: seq<T>, perm: seq<nat>) returns (r: Result<seq<T>>)
    requires |tiles| == |perm| ==> IsPermutation(perm)
    ensures r.Err? <==> |tiles| != |perm|
    ensures r.Err? ==> r.error == LengthMismatch
    ensures r.Ok? ==> r.value == Permuted(tiles, perm)
    ensures r.Ok? ==> forall i :: 0 <= i < |perm| ==> r.value[perm[i]] == tiles[i]
  {
    if |tiles| != |perm| {
      return Err(LengthMismatch);
    }
    var n := |tiles|;
    PermutationIff(perm);
    var out: seq<Option<T>> := seq(n, _ => None);
    for i := 0 to n
      invariant |out| == n
      invariant forall k :: 0 <= k < i ==> out[perm[k]] == Some(tiles[k])
    {
      out := out[perm[i] := Some(tiles[i])];
    }
    InverseFacts(perm);
    forall q | 0 <= q < n
      ensures out[q] == Some(tiles[Inverse(perm)[q]])
    {
      assert perm[Inverse(perm)[q]] == q;
    }
    r := Ok(seq(n, q requires 0 <= q < n => out[q].value));
  }
}
