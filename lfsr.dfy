/**
 * The Fibonacci feedback shift register of lfsr.py: a `width`-bit register
 * that emits its least significant bit, shifts right and feeds the exclusive
 * or of its tap bits back into the most significant position.
 */
module Lfsr {
  import opened Bits
  import opened Outcomes

  /** The register's fixed parameters: its bit width and its tap positions (1 = least significant). */
  datatype Layout = Layout(width: nat, taps: seq<int>) {
    /** The parameters a constructed register always has. */
    predicate Valid() {
      width >= 1 && TapsInRange(taps, width)
    }
  }

  predicate TapsInRange(taps: seq<int>, width: nat) {
    forall i :: 0 <= i < |taps| ==> 1 <= taps[i] <= width
  }

  /** Index of the first tap outside 1..width, or |taps| when every tap is in range. */
  function FirstBadTap(taps: seq<int>, width: nat): (k: nat)
    ensures k <= |taps|
    ensures forall i :: 0 <= i < k ==> 1 <= taps[i] <= width
    ensures k < |taps| ==> !(1 <= taps[k] <= width)
  {
    if taps == [] then 0
    else if !(1 <= taps[0] <= width) then 0
    else 1 + FirstBadTap(taps[1..], width)
  }

  /**
   * What construction yields: the zero check looks at the raw seed, before
   * the mask; then the taps are checked in order and the first bad one is
   * reported; otherwise the register starts at the seed's low `width` bits.
   */
  function Validate(width: nat, taps: seq<int>, seed: nat): (r: Result<nat>)
    ensures seed == 0 ==> r == Err(ZeroState)
    ensures r.Ok? <==> seed != 0 && TapsInRange(taps, width)
    ensures r.Ok? ==> r.value == seed % Pow2(width) && r.value < Pow2(width)
    ensures seed != 0 && !TapsInRange(taps, width) ==>
      FirstBadTap(taps, width) < |taps| && r == Err(InvalidTap(taps[FirstBadTap(taps, width)]))
  {
    if seed == 0 then Err(ZeroState)
    else
      var k := FirstBadTap(taps, width);
      if k < |taps| then Err(InvalidTap(taps[k])) else Ok(Mask(seed, width))
  }

  /** Exclusive or of bit `t - 1` of `s` over the taps `t`, folded left to right. */
  function Feedback(taps: seq<int>, s: nat): (fb: nat)
    requires forall i :: 0 <= i < |taps| ==> taps[i] >= 1
    ensures fb < 2
  {
    if taps == [] then 0
    else
      var f := Feedback(taps[..|taps| - 1], s);
      var b := Bit(s, taps[|taps| - 1] - 1);
      XorOfBits(f, b);
      Xor(f, b)
  }

  /** Number of tapped bits of `s` that are set (a tap listed twice counts twice). */
  function TappedOnes(taps: seq<int>, s: nat): nat
    requires forall i :: 0 <= i < |taps| ==> taps[i] >= 1
  {
    if taps == [] then 0 else TappedOnes(taps[..|taps| - 1], s) + Bit(s, taps[|taps| - 1] - 1)
  }

  /** The feedback bit is the parity of the tapped bits. */
  lemma {:induction false} FeedbackIsParity(taps: seq<int>, s: nat)
    requires forall i :: 0 <= i < |taps| ==> taps[i] >= 1
    ensures Feedback(taps, s) == TappedOnes(taps, s) % 2
  {
    if taps != [] {
      FeedbackIsParity(taps[..|taps| - 1], s);
      XorOfBits(Feedback(taps[..|taps| - 1], s), Bit(s, taps[|taps| - 1] - 1));
    }
  }

  /** One step: `((s >> 1) | (fb << (width - 1))) & mask`, which the mask keeps within `width` bits. */
  function NextState(l: Layout, s: nat): (t: nat)
    requires l.Valid()
    ensures t < Pow2(l.width)
  {
    Mask(Or(s / 2, Feedback(l.taps, s) * Pow2(l.width - 1)), l.width)
  }

  /**
   * On an in-range state the or and the mask lose nothing: the new state is
   * the old one shifted right with the feedback bit as its most significant
   * bit, and it is again in range.
   */
  lemma {:induction false} NextStateShifts(l: Layout, s: nat)
    requires l.Valid() && s < Pow2(l.width)
    ensures NextState(l, s) == s / 2 + Feedback(l.taps, s) * Pow2(l.width - 1)
    ensures NextState(l, s) < Pow2(l.width)
  {
    var p := Pow2(l.width - 1);
    var fb := Feedback(l.taps, s);
    assert Pow2(l.width) == 2 * p;
    assert s / 2 < p;
    OrDisjointHighBit(s / 2, fb, l.width - 1);
    var v := s / 2 + fb * p;
    assert v < 2 * p by {
      if fb == 0 { assert v == s / 2; } else { assert v == s / 2 + p; }
    }
    assert Mask(v, l.width) == v;
  }

  /**
   * Bit by bit: the feedback becomes bit `width - 1` and every lower bit `i`
   * is the old bit `i + 1`.
   */
  lemma {:induction false} NextStateBits(l: Layout, s: nat, i: nat)
    requires l.Valid() && s < Pow2(l.width) && i < l.width
    ensures Bit(NextState(l, s), i) == if i == l.width - 1 then Feedback(l.taps, s) else Bit(s, i + 1)
  {
    NextStateShifts(l, s);
    assert Pow2(l.width) == 2 * Pow2(l.width - 1);
    BitsOfSum(s / 2, Feedback(l.taps, s), l.width - 1, i);
  }

  /** State after `n` steps from `s`: within `width` bits once a step is taken, or when `s` already was. */
  function Advance(l: Layout, s: nat, n: nat): (t: nat)
    requires l.Valid()
    ensures s < Pow2(l.width) || n > 0 ==> t < Pow2(l.width)
  {
    if n == 0 then s else NextState(l, Advance(l, s, n - 1))
  }

  /** The `n` output bits produced from state `s`, first one first. */
  function Outputs(l: Layout, s: nat, n: nat): (bits: seq<nat>)
    requires l.Valid()
    ensures |bits| == n
  {
    if n == 0 then [] else Outputs(l, s, n - 1) + [Bit(Advance(l, s, n - 1), 0)]
  }

  /** Little-endian value of a bit list: `bits[0]` is the least significant; `n` bits fit in `n` bits. */
  function Pack(bits: seq<nat>): (x: nat)
    ensures AllBits(bits) ==> x < Pow2(|bits|)
  {
    if bits == [] then 0 else bits[0] + 2 * Pack(bits[1..])
  }

  predicate AllBits(bits: seq<nat>) {
    forall i :: 0 <= i < |bits| ==> bits[i] < 2
  }

  lemma {:induction false} OutputsAreBits(l: Layout, s: nat, n: nat)
    requires l.Valid()
    ensures AllBits(Outputs(l, s, n))
  {
    if n > 0 {
      OutputsAreBits(l, s, n - 1);
    }
  }

  /** Appending bit `c` after `bits` adds `c << |bits|`. */
  lemma {:induction false} PackSnoc(bits: seq<nat>, c: nat)
    ensures Pack(bits + [c]) == Pack(bits) + c * Pow2(|bits|)
  {
    if bits != [] {
      var rest := bits[1..];
      assert (bits + [c])[1..] == rest + [c];
      assert Pack(bits + [c]) == bits[0] + 2 * Pack(rest + [c]);
      PackSnoc(rest, c);
      assert Pow2(|bits|) == 2 * Pow2(|rest|);
      DoubleShift(bits[0], Pack(rest), c, Pow2(|rest|));
    }
  }

  /** Doubling `x + c * p` and adding a low bit: the `c * p` term doubles with `p`. */
  lemma {:induction false} DoubleShift(b0: nat, x: nat, c: nat, p: nat)
    ensures b0 + 2 * (x + c * p) == b0 + 2 * x + c * (2 * p)
  {
  }

  /** Bit `i` of the packed value is the `i`-th bit of the list. */
  lemma {:induction false} PackBit(bits: seq<nat>, i: nat)
    requires AllBits(bits) && i < |bits|
    ensures Bit(Pack(bits), i) == bits[i]
  {
    if i == 0 {
    } else {
      PackBit(bits[1..], i - 1);
      assert Pack(bits) / 2 == Pack(bits[1..]);
    }
  }

  /** One step more: the output bits of `n = m + 1` steps are those of `m` steps and one more. */
  lemma {:induction false} OutputsStep(l: Layout, s: nat, m: nat, n: nat)
    requires l.Valid() && n == m + 1
    ensures Outputs(l, s, n) == Outputs(l, s, m) + [Bit(Advance(l, s, m), 0)]
  {
  }

  /** One step more: `n = m + 1` steps are `m` steps and one more. */
  lemma {:induction false} AdvanceStep(l: Layout, s: nat, m: nat, n: nat)
    requires l.Valid() && n == m + 1
    ensures Advance(l, s, n) == NextState(l, Advance(l, s, m))
  {
  }

  /** Stepping `p` times and then `q` times is stepping `n = p + q` times. */
  lemma {:induction false} AdvanceAdd(l: Layout, s: nat, p: nat, q: nat, n: nat)
    requires l.Valid() && n == p + q
    ensures Advance(l, Advance(l, s, p), q) == Advance(l, s, n)
  {
    if q > 0 {
      var q', n' := q - 1, n - 1;
      AdvanceAdd(l, s, p, q', n');
      AdvanceStep(l, Advance(l, s, p), q', q);
      AdvanceStep(l, s, n', n);
    }
  }

  /** Output bit `i` is the low bit of the state after `i` steps. */
  lemma {:induction false} OutputsAt(l: Layout, s: nat, n: nat, i: nat)
    requires l.Valid() && i < n
    ensures Outputs(l, s, n)[i] == Bit(Advance(l, s, i), 0)
    decreases n
  {
    var m := n - 1;
    OutputsStep(l, s, m, n);
    if i < m {
      OutputsAt(l, s, m, i);
    }
  }

  /** The packed value of `n` output bits: what `randbits(n)` returns. */
  function Draw(l: Layout, s: nat, n: nat): (x: nat)
    requires l.Valid()
    ensures x < Pow2(n)
  {
    OutputsAreBits(l, s, n);
    Pack(Outputs(l, s, n))
  }

  /** Bit `i` of a draw is the `i`-th bit the register produced. */
  lemma {:induction false} DrawBit(l: Layout, s: nat, n: nat, i: nat)
    requires l.Valid() && i < n
    ensures Bit(Draw(l, s, n), i) == Bit(Advance(l, s, i), 0)
  {
    OutputsAreBits(l, s, n);
    PackBit(Outputs(l, s, n), i);
    OutputsAt(l, s, n, i);
  }

  /** The register object of lfsr.py: width and taps fixed, only the state changes. */
  class Register {
    const width: nat
    const taps: seq<int>
    var state: nat

    function Shape(): Layout {
      Layout(width, taps)
    }

    ghost predicate Valid()
      reads this
    {
      Shape().Valid() && state < Pow2(width)
    }

    /** Builds a register from parameters that have passed validation. */
    constructor FromValid(width: nat, taps: seq<int>, seed: nat)
      requires width >= 1 && Validate(width, taps, seed).Ok?
      ensures Valid() && this.width == width && this.taps == taps
      ensures state == Validate(width, taps, seed).value
    {
      this.width := width;
      this.taps := taps;
      state := Mask(seed, width);
    }

    /**
     * Validating construction: fails on a zero seed (seen before masking),
     * then on the first tap outside 1..width.
     */
    static method New(width: nat, taps: seq<int>, seed: nat) returns (r: Result<Register>)
      requires width >= 1
      ensures r.Err? ==> Validate(width, taps, seed) == Err(r.error)
      ensures r.Ok? ==> Validate(width, taps, seed).Ok? && fresh(r.value) && r.value.Valid()
      ensures r.Ok? ==> r.value.width == width && r.value.taps == taps
      ensures r.Ok? ==> r.value.state == Validate(width, taps, seed).value
    {
      if seed == 0 {
        return Err(ZeroState);
      }
      for i := 0 to |taps|
        invariant forall j :: 0 <= j < i ==> 1 <= taps[j] <= width
      {
        if !(1 <= taps[i] <= width) {
          assert FirstBadTap(taps, width) == i;
          return Err(InvalidTap(taps[i]));
        }
      }
      var reg := new Register.FromValid(width, taps, seed);
      return Ok(reg);
    }

    /** `step_bit`: returns the old least significant bit and advances one step. */
    method StepBit() returns (out: nat)
      requires Valid()
      modifies this
      ensures Valid()
      ensures out == Bit(old(state), 0)
      ensures state == NextState(Shape(), old(state))
      ensures state == old(state) / 2 + Feedback(taps, old(state)) * Pow2(width - 1)
    {
      out := state % 2;
      var fb := 0;
      for i := 0 to |taps|
        invariant fb == Feedback(taps[..i], state)
      {
        assert taps[..i + 1][..i] == taps[..i];
        fb := Xor(fb, Bit(state, taps[i] - 1));
      }
      assert taps[..|taps|] == taps;
      NextStateShifts(Shape(), state);
      state := Mask(Or(state / 2, fb * Pow2(width - 1)), width);
    }

    /** `randbits(n)`: `n` steps, the `i`-th output bit becoming bit `i` of the result. */
    method RandBits(n: nat) returns (x: nat)
      requires Valid()
      modifies this
      ensures Valid()
      ensures x == Draw(Shape(), old(state), n)
      ensures state == Advance(Shape(), old(state), n)
    {
      x := 0;
      for i := 0 to n
        invariant Valid()
        invariant state == Advance(Shape(), old(state), i)
        invariant x == Pack(Outputs(Shape(), old(state), i))
      {
        OutputsAreBits(Shape(), old(state), i);
        PackSnoc(Outputs(Shape(), old(state), i), state % 2);
        var b := StepBit();
        OrDisjointHighBit(x, b, i);
        x := Or(x, b * Pow2(i));
      }
    }
  }
}
