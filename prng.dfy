/**
 * The ranged sampler of prng.py: `randint(a, b)` by rejection sampling on
 * draws of `span.bit_length()` register bits.
 *
 * The source loops until a draw is accepted, which need not happen (a
 * register can cycle through states whose draws are all too large). The
 * model bounds the number of draws by a `fuel` budget and reports
 * `NoAcceptedDraw` when it is spent; with enough fuel it agrees with the
 * source wherever the source returns.
 */
module Prng {
  import opened Bits
  import opened Outcomes
  import opened Lfsr

  /**
   * The rejection loop from state `s`: at most `fuel` draws of `k` bits; the
   * first draw below `span` is the result. Also yields the state afterwards.
   * An accepted draw is below the span, and the loop fails only when the
   * budget runs out.
   */
  function Reject(l: Layout, s: nat, span: nat, k: nat, fuel: nat): (r: (Result<nat>, nat))
    requires l.Valid()
    ensures r.0.Ok? ==> r.0.value < span
    ensures r.0.Err? ==> r.0.error == NoAcceptedDraw
    decreases fuel
  {
    if fuel == 0 then (Err(NoAcceptedDraw), s)
    else if Draw(l, s, k) < span then (Ok(Draw(l, s, k)), Advance(l, s, k))
    else Reject(l, Advance(l, s, k), span, k, fuel - 1)
  }

  /** `randint(a, b)` from register state `s`: the result and the state afterwards. */
  function Sample(l: Layout, s: nat, a: int, b: int, fuel: nat): (r: (Result<int>, nat))
    requires l.Valid()
    ensures r.0.Ok? ==> a <= r.0.value <= b
    ensures a > b <==> r.0 == Err(EmptyRange)
    ensures a > b ==> r.1 == s
    ensures a == b ==> r == (Ok(a), s)
  {
    if a > b then (Err(EmptyRange), s)
    else
      var span := b - a + 1;
      if span == 1 then (Ok(a), s)
      else
        var (x, s') := Reject(l, s, span, BitLength(span), fuel);
        match x
        case Ok(v) => (Ok(a + v), s')
        case Err(e) => (Err(e), s')
  }

  /** One pass of the rejection loop: accept the draw when it is below the span, else try again with one draw less. */
  lemma {:induction false} RejectStep(l: Layout, s: nat, span: nat, k: nat, fuel: nat)
    requires l.Valid() && fuel > 0
    ensures Reject(l, s, span, k, fuel)
      == if Draw(l, s, k) < span then (Ok(Draw(l, s, k)), Advance(l, s, k))
         else Reject(l, Advance(l, s, k), span, k, fuel - 1)
  {
  }

  /** Past the two early exits, sampling is the rejection loop with its draw shifted by `a`. */
  lemma {:induction false} SampleOfReject(l: Layout, s: nat, a: int, b: int, fuel: nat, span: nat, bits: nat)
    requires l.Valid() && a < b && span == b - a + 1 && bits == BitLength(span)
    ensures var rj := Reject(l, s, span, bits, fuel);
      Sample(l, s, a, b, fuel) == (if rj.0.Ok? then Ok(a + rj.0.value) else Err(rj.0.error), rj.1)
  {
    var rj := Reject(l, s, span, bits, fuel);
    if rj.0.Ok? {
      assert Sample(l, s, a, b, fuel) == (Ok(a + rj.0.value), rj.1);
    } else {
      assert Sample(l, s, a, b, fuel) == (Err(rj.0.error), rj.1);
    }
  }

  /** State after `j` draws of `k` bits each from `s`: within `width` bits whenever `s` is, or a bit was drawn. */
  function Skip(l: Layout, s: nat, k: nat, j: nat): (t: nat)
    requires l.Valid()
    ensures s < Pow2(l.width) || (j > 0 && k > 0) ==> t < Pow2(l.width)
  {
    if j == 0 then s else Advance(l, Skip(l, s, k, j - 1), k)
  }

  /** `j` draws of `k` bits are `j * k` register steps. */
  lemma {:induction false} SkipIsAdvance(l: Layout, s: nat, k: nat, j: nat)
    requires l.Valid()
    ensures Skip(l, s, k, j) == Advance(l, s, j * k)
  {
    if j > 0 {
      var i := j - 1;
      SkipIsAdvance(l, s, k, i);
      SkipStep(l, s, k, i, j);
      MulNext(i, j, k);
      var before, after := i * k, j * k;
      AdvanceAdd(l, s, before, k, after);
    }
  }

  /** Draw `j = i + 1` starts where draw `i` ends. */
  lemma {:induction false} SkipStep(l: Layout, s: nat, k: nat, i: nat, j: nat)
    requires l.Valid() && j == i + 1
    ensures Skip(l, s, k, j) == Advance(l, Skip(l, s, k, i), k)
  {
  }

  /** Drawing once and then `j` times is drawing `j + 1` times. */
  lemma {:induction false} SkipShift(l: Layout, s: nat, k: nat, j: nat, n: nat)
    requires l.Valid() && n == j + 1
    ensures Skip(l, Advance(l, s, k), k, j) == Skip(l, s, k, n)
  {
    if j > 0 {
      var i, m := j - 1, n - 1;
      SkipShift(l, s, k, i, m);
      SkipStep(l, Advance(l, s, k), k, i, j);
      SkipStep(l, s, k, m, n);
    }
  }

  /** The first `m` draws of `k` bits from `s` were all rejected. */
  predicate RejectedDraws(l: Layout, s: nat, span: nat, k: nat, m: nat)
    requires l.Valid()
  {
    forall j :: 0 <= j < m ==> Draw(l, Skip(l, s, k, j), k) >= span
  }

  lemma {:induction false} RejectedDrawsShift(l: Layout, s: nat, span: nat, k: nat, m: nat)
    requires l.Valid() && Draw(l, s, k) >= span
    requires RejectedDraws(l, Advance(l, s, k), span, k, m)
    ensures RejectedDraws(l, s, span, k, m + 1)
  {
    forall j | 0 <= j < m + 1
      ensures Draw(l, Skip(l, s, k, j), k) >= span
    {
      if j > 0 {
        SkipShift(l, s, k, j - 1, j);
      }
    }
  }

  /** How many draws the rejection loop makes from `s`: at least one when there is budget, never more than the budget. */
  function DrawsMade(l: Layout, s: nat, span: nat, k: nat, fuel: nat): (m: nat)
    requires l.Valid()
    ensures m <= fuel && (fuel > 0 ==> m >= 1)
    decreases fuel
  {
    if fuel == 0 then 0
    else if Draw(l, s, k) < span then 1
    else 1 + DrawsMade(l, Advance(l, s, k), span, k, fuel - 1)
  }

  /** One pass of the loop counts one draw, and the passes after it when the draw is rejected. */
  lemma {:induction false} DrawsMadeStep(l: Layout, s: nat, span: nat, k: nat, fuel: nat)
    requires l.Valid() && fuel > 0
    ensures DrawsMade(l, s, span, k, fuel)
      == if Draw(l, s, k) < span then 1 else 1 + DrawsMade(l, Advance(l, s, k), span, k, fuel - 1)
  {
  }

  /** The loop ends as many draws further on as it made. */
  lemma {:induction false} RejectState(l: Layout, s: nat, span: nat, k: nat, fuel: nat)
    requires l.Valid()
    ensures Reject(l, s, span, k, fuel).1 == Skip(l, s, k, DrawsMade(l, s, span, k, fuel))
    decreases fuel
  {
    if fuel > 0 && Draw(l, s, k) >= span {
      var t, f := Advance(l, s, k), fuel - 1;
      RejectState(l, t, span, k, f);
      SkipShift(l, s, k, DrawsMade(l, t, span, k, f), DrawsMade(l, s, span, k, fuel));
    }
  }

  /**
   * An accepted call made `m` draws, `1 <= m <= fuel`, and the last one is
   * the result.
   */
  lemma {:induction false} RejectAccepts(l: Layout, s: nat, span: nat, k: nat, fuel: nat)
    requires l.Valid() && Reject(l, s, span, k, fuel).0.Ok?
    ensures 1 <= DrawsMade(l, s, span, k, fuel) <= fuel
    ensures Reject(l, s, span, k, fuel).0.value
         == Draw(l, Skip(l, s, k, DrawsMade(l, s, span, k, fuel) - 1), k)
    decreases fuel
  {
    RejectStep(l, s, span, k, fuel);
    DrawsMadeStep(l, s, span, k, fuel);
    if Draw(l, s, k) >= span {
      var t, f := Advance(l, s, k), fuel - 1;
      RejectAccepts(l, t, span, k, f);
      var d := DrawsMade(l, t, span, k, f);
      SkipShift(l, s, k, d - 1, d);
    }
  }

  /** Every draw of an accepted call before the last one was rejected. */
  lemma {:induction false} RejectAcceptsLast(l: Layout, s: nat, span: nat, k: nat, fuel: nat)
    requires l.Valid() && Reject(l, s, span, k, fuel).0.Ok?
    ensures DrawsMade(l, s, span, k, fuel) >= 1
    ensures RejectedDraws(l, s, span, k, DrawsMade(l, s, span, k, fuel) - 1)
    decreases fuel
  {
    if Draw(l, s, k) >= span {
      var t := Advance(l, s, k);
      RejectAcceptsLast(l, t, span, k, fuel - 1);
      RejectedDrawsShift(l, s, span, k, DrawsMade(l, t, span, k, fuel - 1) - 1);
    }
  }

  /** A call that gives up made all `fuel` draws and rejected every one. */
  lemma {:induction false} RejectGivesUp(l: Layout, s: nat, span: nat, k: nat, fuel: nat)
    requires l.Valid() && Reject(l, s, span, k, fuel).0.Err?
    ensures DrawsMade(l, s, span, k, fuel) == fuel
    ensures RejectedDraws(l, s, span, k, fuel)
    decreases fuel
  {
    if fuel > 0 {
      var t := Advance(l, s, k);
      RejectGivesUp(l, t, span, k, fuel - 1);
      RejectedDrawsShift(l, s, span, k, fuel - 1);
    }
  }

  /**
   * The sample width is `span.bit_length()`, not the least `k` with
   * `span <= 2^k`: for span 2 = 2^1 two bits are drawn, and from any state
   * whose two lowest bits are 0, 1 (state 2, say) the first draw is 2 and is
   * rejected, so a power-of-two span does not always take a single draw.
   */
  lemma {:induction false} PowerOfTwoSpanCanReject(l: Layout)
    requires l.Valid() && l.width >= 2
    ensures BitLength(2) == 2
    ensures Draw(l, 2, 2) == 2
    ensures Reject(l, 2, 2, 2, 1).0 == Err(NoAcceptedDraw)
  {
    assert Pow2(1) == 2;
    assert Pow2(2) == 4;
    Pow2Monotone(2, l.width);
    NextStateBits(l, 2, 0);
    assert Advance(l, 2, 1) == NextState(l, 2);
    assert Outputs(l, 2, 2) == [0, 1];
    assert [0, 1][1..] == [1];
    assert Pack([1]) == 1;
    assert Pack([0, 1]) == 2;
  }

  /** The sampler object of prng.py: it owns one register and advances it. */
  class LfsrPrng {
    const lfsr: Register

    constructor (lfsr: Register)
      ensures this.lfsr == lfsr
    {
      this.lfsr := lfsr;
    }

    /**
     * `randint(a, b)`: `EmptyRange` when `a > b`; `a` without a step when
     * `a == b`; otherwise `a + x` for the first draw `x` below the span.
     */
    method RandInt(a: int, b: int, fuel: nat) returns (r: Result<int>)
      requires lfsr.Valid()
      modifies lfsr
      ensures lfsr.Valid()
      ensures (r, lfsr.state) == Sample(lfsr.Shape(), old(lfsr.state), a, b, fuel)
    {
      if a > b {
        return Err(EmptyRange);
      }
      var span := b - a + 1;
      if span == 1 {
        return Ok(a);
      }
      var bits := BitLength(span);
      SampleOfReject(lfsr.Shape(), lfsr.state, a, b, fuel, span, bits);
      var x := DrawBelow(span, bits, fuel);
      if x.Err? {
        return Err(x.error);
      }
      return Ok(a + x.value);
    }

    /** The `while True` loop of `randint`: draw `bits` bits until the value is below `span`, at most `fuel` times. */
    method DrawBelow(span: nat, bits: nat, fuel: nat) returns (x: Result<nat>)
      requires lfsr.Valid()
      modifies lfsr
      ensures lfsr.Valid()
      ensures (x, lfsr.state) == Reject(lfsr.Shape(), old(lfsr.state), span, bits, fuel)
    {
      var draws := 0;
      while draws < fuel
        invariant draws <= fuel && lfsr.Valid()
        invariant Reject(lfsr.Shape(), lfsr.state, span, bits, fuel - draws)
               == Reject(lfsr.Shape(), old(lfsr.state), span, bits, fuel)
      {
        ghost var before := lfsr.state;
        var v := lfsr.RandBits(bits);
        RejectStep(lfsr.Shape(), before, span, bits, fuel - draws);
        if v < span {
          return Ok(v);
        }
        draws := draws + 1;
      }
      return Err(NoAcceptedDraw);
    }
  }
}
