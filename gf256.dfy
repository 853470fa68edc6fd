/** The GF(2^8) helpers of the AES program: the `nb` constant and the `xtime`
    and `multiply` macros. The macros work on C `int`s, modelled here as
    32-bit vectors; nothing in them truncates to 8 bits, so their results may
    carry bits above bit 7, which the lemmas below show never reach the low
    byte. The reference definitions GfXtime and GfMul are the byte operations
    of FIPS-197 section 4.2. */
module Gf256 {
  type Byte = bv8

  /** The number of columns of the AES state. */
  const Nb: nat := 4

  /** The `xtime` macro on a C int: shift left by one, and xor 0x1b when bit 7
      was set. */
  function Xtime(x: bv32): bv32
  {
    (x << 1) ^ (((x >> 7) & 1) * 0x1b)
  }

  /** The partial products of the `multiply` macro from the n-th onwards: term
      k is bit k of y times x with `xtime` applied k times. */
  function MultiplyTerms(x: bv32, y: bv32, n: nat): bv32
    decreases n
  {
    if n == 0 then 0 else ((y & 1) * x) ^ MultiplyTerms(Xtime(x), y >> 1, n - 1)
  }

  /** The `multiply` macro: the xor of the five partial products for bits 0..4
      of y. */
  function Multiply(x: bv32, y: bv32): bv32
  {
    MultiplyTerms(x, y, 5)
  }

  /** Addition in GF(2^8) (FIPS-197 section 4.1): the xor of the bytes. */
  function Add(a: Byte, b: Byte): Byte
  {
    a ^ b
  }

  /** Multiplication by {02} in GF(2^8) modulo x^8 + x^4 + x^3 + x + 1. */
  function GfXtime(a: Byte): Byte
  {
    if a & 0x80 == 0 then a << 1 else (a << 1) ^ 0x1b
  }

  /** Multiplication in GF(2^8): a is added for the low bit of b, and the rest
      of b multiplies a * {02}. */
  function GfMul(a: Byte, b: Byte): Byte
    decreases b
  {
    if b == 0 then 0
    else (if b & 1 == 1 then a else 0) ^ GfMul(GfXtime(a), b >> 1)
  }

  /** The low byte of a C int, as stored into an `unsigned char`. */
  function Low(x: bv32): Byte
  {
    (x & 0xff) as Byte
  }

  /** 2^n for n <= 5. */
  function Limit(n: nat): bv32
    requires n <= 5
  {
    match n
    case 0 => 1
    case 1 => 2
    case 2 => 4
    case 3 => 8
    case 4 => 16
    case _ => 32
  }

  /** Truncated to a byte, `xtime` is multiplication by {02}, whatever the
      bits of x above bit 7. */
  lemma XtimeLowByte(x: bv32)
    ensures Low(Xtime(x)) == GfXtime(Low(x))
  {
  }

  /** Below 0x80 no reduction happens: `xtime` is a plain shift. */
  lemma XtimeSmall(x: bv32)
    requires x < 0x80
    ensures Xtime(x) == x << 1 && Xtime(x) < 0x100
  {
  }

  lemma FirstTerm(x: bv32, y: bv32)
    ensures Low((y & 1) * x) == if Low(y) & 1 == 1 then Low(x) else 0
  {
    if y & 1 == 1 {
      assert (y & 1) * x == 1 * x;
    } else {
      assert y & 1 == 0;
    }
  }

  lemma LowXor(a: bv32, b: bv32)
    ensures Low(a ^ b) == Low(a) ^ Low(b)
  {
  }

  lemma LowUnfold(x: bv32, y: bv32, n: nat)
    requires 1 <= n
    ensures Low(MultiplyTerms(x, y, n)) == Low((y & 1) * x) ^ Low(MultiplyTerms(Xtime(x), y >> 1, n - 1))
  {
    LowXor((y & 1) * x, MultiplyTerms(Xtime(x), y >> 1, n - 1));
  }

  lemma GfMulStep(a: Byte, b: Byte)
    ensures GfMul(a, b) == (if b & 1 == 1 then a else 0) ^ GfMul(GfXtime(a), b >> 1)
  {
  }

  lemma GfMulArgs(x: bv32, y: bv32)
    requires y < 32
    ensures GfMul(Low(Xtime(x)), Low(y >> 1)) == GfMul(GfXtime(Low(x)), Low(y) >> 1)
  {
    XtimeLowByte(x);
    assert Low(y >> 1) == Low(y) >> 1;
  }

  lemma ProductStep(x: bv32, y: bv32, n: nat)
    requires 1 <= n && y < 32
    requires Low(MultiplyTerms(Xtime(x), y >> 1, n - 1)) == GfMul(Low(Xtime(x)), Low(y >> 1))
    ensures Low(MultiplyTerms(x, y, n)) == GfMul(Low(x), Low(y))
  {
    GfMulArgs(x, y);
    LowUnfold(x, y, n);
    FirstTerm(x, y);
    GfMulStep(Low(x), Low(y));
  }

  lemma {:induction false} MultiplyTermsProduct(x: bv32, y: bv32, n: nat)
    requires n <= 5 && y < Limit(n)
    ensures Low(MultiplyTerms(x, y, n)) == GfMul(Low(x), Low(y))
    decreases n
  {
    if n == 0 {
      assert y == 0;
    } else {
      assert y >> 1 < Limit(n - 1);
      MultiplyTermsProduct(Xtime(x), y >> 1, n - 1);
      ProductStep(x, y, n);
    }
  }

  /** For y < 32 the low byte of `multiply(x, y)` is the GF(2^8) product of
      the low bytes; the bits that the untruncated `xtime` nesting carries
      above bit 7 never reach it. */
  lemma MultiplyIsProduct(x: bv32, y: bv32)
    requires y < 32
    ensures Low(Multiply(x, y)) == GfMul(Low(x), Low(y))
  {
    MultiplyTermsProduct(x, y, 5);
  }

  /** 2^n - 1 for n <= 5: the bits of y that n partial products read. */
  function Mask(n: nat): bv32
    requires n <= 5
  {
    match n
    case 0 => 0
    case 1 => 1
    case 2 => 3
    case 3 => 7
    case 4 => 15
    case _ => 31
  }

  /** n partial products read bits 0 to n - 1 of y and no other: two values
      of y that agree on those bits give the same sum. */
  lemma {:induction false} MultiplyTermsLowBits(x: bv32, y1: bv32, y2: bv32, n: nat)
    requires n <= 5 && y1 & Mask(n) == y2 & Mask(n)
    ensures MultiplyTerms(x, y1, n) == MultiplyTerms(x, y2, n)
    decreases n
  {
    if n > 0 {
      MaskStep(y1, y2, n);
      MultiplyTermsLowBits(Xtime(x), y1 >> 1, y2 >> 1, n - 1);
      SameLowBit(x, y1, y2, n);
    }
  }

  /** Two values of y with the same bit 0, whose shifted partial products
      agree, give the same partial products. */
  lemma SameLowBit(x: bv32, y1: bv32, y2: bv32, n: nat)
    requires 1 <= n && y1 & 1 == y2 & 1
    requires MultiplyTerms(Xtime(x), y1 >> 1, n - 1) == MultiplyTerms(Xtime(x), y2 >> 1, n - 1)
    ensures MultiplyTerms(x, y1, n) == MultiplyTerms(x, y2, n)
  {
    if y1 & 1 == 0 {
      MultiplyTermsEven(x, y1, n);
      MultiplyTermsEven(x, y2, n);
    } else {
      MultiplyTermsOdd(x, y1, n);
      MultiplyTermsOdd(x, y2, n);
    }
  }

  /** Agreeing on bits 0 to n - 1 is agreeing on bit 0 and, after a shift,
      on bits 0 to n - 2. */
  lemma MaskStep(y1: bv32, y2: bv32, n: nat)
    requires 1 <= n <= 5 && y1 & Mask(n) == y2 & Mask(n)
    ensures y1 & 1 == y2 & 1 && (y1 >> 1) & Mask(n - 1) == (y2 >> 1) & Mask(n - 1)
  {
    if n == 1 {
      assert y1 & 1 == y2 & 1;
    } else if n == 2 {
      assert y1 & 3 == y2 & 3;
    } else if n == 3 {
      assert y1 & 7 == y2 & 7;
    } else if n == 4 {
      assert y1 & 15 == y2 & 15;
    } else {
      assert y1 & 31 == y2 & 31;
    }
  }

  /** `multiply(x, y)` depends on bits 0 to 4 of y alone. */
  lemma MultiplyLowBits(x: bv32, y: bv32)
    ensures Multiply(x, y) == Multiply(x, y & 0x1f)
  {
    MultiplyTermsLowBits(x, y, y & 0x1f, 5);
  }

  lemma {:induction false} MultiplyTermsZero(x: bv32, n: nat)
    ensures MultiplyTerms(x, 0, n) == 0
    decreases n
  {
    if n > 0 {
      MultiplyTermsZero(Xtime(x), n - 1);
    }
  }

  lemma MultiplyTermsOne(x: bv32, n: nat)
    requires 1 <= n
    ensures MultiplyTerms(x, 1, n) == x
  {
    MultiplyTermsZero(Xtime(x), n - 1);
    assert (1 as bv32) & 1 == 1 && (1 as bv32) >> 1 == 0;
  }

  lemma MultiplyTermsEven(x: bv32, y: bv32, n: nat)
    requires 1 <= n && y & 1 == 0
    ensures MultiplyTerms(x, y, n) == MultiplyTerms(Xtime(x), y >> 1, n - 1)
  {
  }

  lemma MultiplyTermsOdd(x: bv32, y: bv32, n: nat)
    requires 1 <= n && y & 1 == 1
    ensures MultiplyTerms(x, y, n) == x ^ MultiplyTerms(Xtime(x), y >> 1, n - 1)
  {
    assert (y & 1) * x == x;
  }

  /** Multiplying by 0, 1, 2 and 3, exactly (all 32 bits). */
  lemma MultiplyByZero(x: bv32)
    ensures Multiply(x, 0) == 0
  {
    MultiplyTermsZero(x, 5);
  }

  lemma MultiplyByOne(x: bv32)
    ensures Multiply(x, 1) == x
  {
    MultiplyTermsOne(x, 5);
  }

  lemma MultiplyByTwo(x: bv32)
    ensures Multiply(x, 2) == Xtime(x)
  {
    MultiplyTermsEven(x, 2, 5);
    MultiplyTermsOne(Xtime(x), 4);
  }

  lemma MultiplyByThree(x: bv32)
    ensures Multiply(x, 3) == x ^ Xtime(x)
  {
    MultiplyTermsOdd(x, 3, 5);
    MultiplyTermsOne(Xtime(x), 4);
  }
}
