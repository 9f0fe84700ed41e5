/**
 * Arithmetic view of the bit operations the register code performs on
 * non-negative Python integers: shifts, masks, bitwise or and exclusive or.
 * Every operand in the engine is non-negative, so these are stated on `nat`.
 */
module Bits {

  /** 2^k, the value of `1 << k`. */
  function Pow2(k: nat): (r: nat)
    ensures r >= 1
  {
    if k == 0 then 1 else 2 * Pow2(k - 1)
  }

  /** One factor more: `c * b` is `p * b` plus one `b` when `c` is `p + 1`. */
  lemma {:induction false} MulNext(p: nat, c: nat, b: nat)
    requires c == p + 1
    ensures 0 <= p * b && p * b + b == c * b
  {
  }

  /** Bit `i` of `x`: `(x >> i) & 1`, one right shift at a time. */
  function Bit(x: nat, i: nat): (r: nat)
    ensures r < 2
  {
    if i == 0 then x % 2 else Bit(x / 2, i - 1)
  }

  /** Bit 2 of `x`, `(x >> 2) & 1`, is the remainder of `x // 4` modulo 2. */
  lemma {:induction false} BitTwo(x: nat)
    ensures Bit(x, 2) == x / 4 % 2
  {
    assert Bit(x, 2) == Bit(x / 2 / 2, 0);
    assert x / 2 / 2 == x / 4;
  }

  /** `x & ((1 << w) - 1)`: the low `w` bits of `x`. */
  function Mask(x: nat, w: nat): (r: nat)
    ensures r < Pow2(w)
    ensures x < Pow2(w) ==> r == x
  {
    ModBounds(x, Pow2(w));
    x % Pow2(w)
  }

  /** The remainder modulo a positive `m` is below `m`, and a value already below `m` is its own remainder. */
  lemma {:induction false} ModBounds(x: nat, m: nat)
    requires m > 0
    ensures 0 <= x % m < m && (x < m ==> x % m == x)
  {
  }

  /** Bitwise or, `a | b`, digit by digit in base 2. */
  function Or(a: nat, b: nat): nat
    decreases a + b
  {
    if a == 0 then b
    else if b == 0 then a
    else 2 * Or(a / 2, b / 2) + (if a % 2 == 1 || b % 2 == 1 then 1 else 0)
  }

  /** Bitwise exclusive or, `a ^ b`, digit by digit in base 2. */
  function Xor(a: nat, b: nat): nat
    decreases a + b
  {
    if a == 0 && b == 0 then 0
    else 2 * Xor(a / 2, b / 2) + (if a % 2 != b % 2 then 1 else 0)
  }

  /** `n.bit_length()`: the number of binary digits of `n`, which is 0 only for 0 and never exceeds `n`. */
  function BitLength(n: nat): (k: nat)
    ensures k <= n && (k == 0 <==> n == 0)
  {
    if n == 0 then 0 else 1 + BitLength(n / 2)
  }

  lemma {:induction false} Pow2Add(p: nat, q: nat)
    ensures Pow2(p + q) == Pow2(p) * Pow2(q)
  {
    if p > 0 {
      Pow2Add(p - 1, q);
    }
  }

  lemma {:induction false} Pow2Monotone(p: nat, q: nat)
    requires p <= q
    ensures Pow2(p) <= Pow2(q)
  {
    if p < q {
      Pow2Monotone(p, q - 1);
    }
  }

  /**
   * Or-ing a single bit `b` in at position `k` above a value that fits in
   * `k` bits is addition: the operands have no bit in common.
   */
  lemma {:induction false} OrDisjointHighBit(a: nat, b: nat, k: nat)
    requires a < Pow2(k) && b < 2
    ensures 0 <= b * Pow2(k) && b * Pow2(k) == (if b == 0 then 0 else Pow2(k))
    ensures Or(a, b * Pow2(k)) == a + b * Pow2(k)
  {
    if a == 0 || b == 0 {
    } else {
      assert k > 0;
      var h := Pow2(k - 1);
      assert Pow2(k) == 2 * h;
      assert (b * Pow2(k)) / 2 == h && (b * Pow2(k)) % 2 == 0;
      OrDisjointHighBit(a / 2, 1, k - 1);
      assert Or(a, b * Pow2(k)) == 2 * Or(a / 2, h) + a % 2;
    }
  }

  /** One step of the digit-by-digit definition, also when both operands are 0. */
  lemma {:induction false} XorDigit(a: nat, b: nat)
    ensures Xor(a, b) == 2 * Xor(a / 2, b / 2) + (if a % 2 != b % 2 then 1 else 0)
  {
  }

  /**
   * Adding a bit `c` at position `k` above a value `a` that fits in `k` bits
   * sets bit `k` to `c` and leaves the bits below `k` those of `a`.
   */
  lemma {:induction false} BitsOfSum(a: nat, c: nat, k: nat, i: nat)
    requires a < Pow2(k) && c < 2 && i <= k
    ensures Bit(a + c * Pow2(k), i) == if i == k then c else Bit(a, i)
  {
    if i > 0 {
      var h := Pow2(k - 1);
      assert Pow2(k) == 2 * h;
      assert (a + c * Pow2(k)) / 2 == a / 2 + c * h;
      BitsOfSum(a / 2, c, k - 1, i - 1);
    } else if k > 0 {
      assert Pow2(k) == 2 * Pow2(k - 1);
    }
  }

  /** Exclusive or is zero exactly when its operands are equal. */
  lemma {:induction false} XorZeroIff(a: nat, b: nat)
    ensures Xor(a, b) == 0 <==> a == b
    decreases a + b
  {
    if a != 0 || b != 0 {
      XorZeroIff(a / 2, b / 2);
    }
  }

  /** Applying the same key twice gives the value back: `x ^ (x ^ a) == a`. */
  lemma {:induction false} XorCancel(x: nat, a: nat)
    ensures Xor(x, Xor(x, a)) == a
    decreases x + a
  {
    if x != 0 || a != 0 {
      XorCancel(x / 2, a / 2);
      XorDigit(x, Xor(x, a));
    }
  }

  /** `x ^ a == x ^ b` only when `a == b`. */
  lemma {:induction false} XorInjective(x: nat, a: nat, b: nat)
    requires Xor(x, a) == Xor(x, b)
    ensures a == b
  {
    XorCancel(x, a);
    XorCancel(x, b);
  }

  /** Exclusive or of two single bits is their sum modulo 2. */
  lemma {:induction false} XorOfBits(a: nat, b: nat)
    requires a < 2 && b < 2
    ensures Xor(a, b) == (a + b) % 2
  {
  }

  /** `n.bit_length()` is the least `k` with `n < 2^k`. */
  lemma {:induction false} BitLengthBounds(n: nat)
    ensures n < Pow2(BitLength(n))
    ensures n > 0 ==> Pow2(BitLength(n) - 1) <= n
  {
    if n > 0 {
      BitLengthBounds(n / 2);
    }
  }
}
