/** Bit lengths, and trimming of low bits. */
module Bits {
  import opened Arithmetic
  import opened Fractions

  function Pow2(n: nat): (p: nat)
    ensures p > 0
  {
    if n == 0 then 1 else 2 * Pow2(n - 1)
  }

  /** The number of bits up to the highest one set. */
  function BitLength(x: nat): nat {
    if x == 0 then 0 else 1 + BitLength(x / 2)
  }

  lemma {:induction false} BitLengthBounds(x: nat)
    ensures x < Pow2(BitLength(x))
    ensures x > 0 ==> BitLength(x) > 0 && Pow2(BitLength(x) - 1) <= x
  {
    if x > 0 {
      BitLengthBounds(x / 2);
      if x / 2 == 0 {
        assert Pow2(0) == 1;
      }
    }
  }

  lemma {:induction false} Pow2Mono(m: nat, n: nat)
    requires m <= n
    ensures Pow2(m) <= Pow2(n)
  {
    if m < n {
      Pow2Mono(m, n - 1);
    }
  }

  const AMOUNT_BITS: nat := 128

  /** `x` without its low bits. */
  function Shifted(x: nat, bits: nat): nat {
    FloorDiv(x, Pow2(bits))
  }

  /** How many low bits of `x` are to be trimmed for it to fit an amount. */
  function BitsAboveMax(x: nat): nat {
    BitLength(x / AMOUNT_LIMIT)
  }

  /** Trimming at least as many bits as there are above the limit makes the number fit; trimming exactly
      those leaves at least half of the range. */
  lemma TrimmedFits(x: nat, bits: nat)
    requires BitsAboveMax(x) <= bits
    ensures Shifted(x, bits) < AMOUNT_LIMIT
    ensures 0 < BitsAboveMax(x) == bits ==> AMOUNT_LIMIT / 2 <= Shifted(x, bits)
  {
    var k, high := BitsAboveMax(x), x / AMOUNT_LIMIT;
    BitLengthBounds(high);
    Pow2Mono(k, bits);
    assert x < AMOUNT_LIMIT * (high + 1) <= AMOUNT_LIMIT * Pow2(bits);
    FloorBelow(x, Pow2(bits), AMOUNT_LIMIT);
    if 0 < k == bits {
      assert AMOUNT_LIMIT * Pow2(k - 1) <= AMOUNT_LIMIT * high <= x;
      assert AMOUNT_LIMIT / 2 * Pow2(k) == AMOUNT_LIMIT * Pow2(k - 1);
      FloorAtLeast(x, Pow2(bits), AMOUNT_LIMIT / 2);
    }
  }

  lemma {:induction false} Pow2Sum(m: nat, n: nat)
    ensures Pow2(m + n) == Pow2(m) * Pow2(n)
  {
    if m > 0 {
      Pow2Sum(m - 1, n);
      Assoc(2, Pow2(m - 1), Pow2(n));
    }
  }

  lemma Pow2Double(n: nat, p: nat)
    requires Pow2(n) == p
    ensures Pow2(n + n) == p * p
  {
    Pow2Sum(n, n);
  }

  lemma Pow2OfAmountBits()
    ensures Pow2(AMOUNT_BITS) == AMOUNT_LIMIT
  {
    assert Pow2(1) == 2;
    hide Pow2;
    Pow2Double(1, 2);
    Pow2Double(2, 4);
    Pow2Double(4, 16);
    Pow2Double(8, 256);
    Pow2Double(16, 0x1_0000);
    Pow2Double(32, 0x1_0000_0000);
    Pow2Double(64, 0x1_0000_0000_0000_0000);
  }

  lemma {:induction false} BitLengthAtMost(x: nat, n: nat)
    requires x < Pow2(n)
    ensures BitLength(x) <= n
  {
    if x > 0 {
      if n > 0 {
        BitLengthAtMost(x / 2, n - 1);
      }
    }
  }

  /** The high half of the product of two amounts is itself an amount. */
  lemma ProductOfAmounts(x: Amount, y: Amount) returns (xy: nat)
    ensures xy == x * y < AMOUNT_LIMIT * AMOUNT_LIMIT
    ensures BitsAboveMax(xy) <= AMOUNT_BITS
  {
    xy := x * y;
    MulMono(x, AMOUNT_LIMIT - 1, y);
    MulMono(y, AMOUNT_LIMIT - 1, AMOUNT_LIMIT - 1);
    assert xy < AMOUNT_LIMIT * AMOUNT_LIMIT;
    Pow2OfAmountBits();
    BitLengthAtMost(xy / AMOUNT_LIMIT, AMOUNT_BITS);
  }
}
