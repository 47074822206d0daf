/**
 * The C# `int` type and its `^` operator. An `int` is a 32-bit two's
 * complement value; XOR works on the 32-bit patterns, which are written here
 * as the naturals below 2^32 and combined one bit at a time.
 */
module Bitwise {

  const TWO_32: int := 0x1_0000_0000

  /** The values of a C# `int`. */
  type Int32 = x: int | -0x8000_0000 <= x < 0x8000_0000

  function Pow2(n: nat): (p: nat)
    ensures p > 0
  {
    if n == 0 then 1 else 2 * Pow2(n - 1)
  }

  lemma {:induction false} Pow2Add(a: nat, b: nat)
    ensures Pow2(a + b) == Pow2(a) * Pow2(b)
  {
    if a > 0 {
      Pow2Add(a - 1, b);
    }
  }

  lemma Pow2Of32()
    ensures Pow2(32) == TWO_32
  {
    assert Pow2(4) == 16;
    Pow2Add(4, 4);
    Pow2Add(8, 8);
    Pow2Add(16, 16);
  }

  /** The XOR of the low n bits of a and b. */
  function XorBits(a: nat, b: nat, n: nat): (x: nat)
    ensures x < Pow2(n)
  {
    if n == 0 then 0
    else (if a % 2 == b % 2 then 0 else 1) + 2 * XorBits(a / 2, b / 2, n - 1)
  }

  lemma {:induction false} XorBitsSymmetric(a: nat, b: nat, n: nat)
    ensures XorBits(a, b, n) == XorBits(b, a, n)
  {
    if n > 0 {
      XorBitsSymmetric(a / 2, b / 2, n - 1);
    }
  }

  /** Bit i of the pattern u: its i-th binary digit, counting from the lowest. */
  function Bit(u: nat, i: nat): (b: nat)
    ensures b < 2
  {
    if i == 0 then u % 2 else Bit(u / 2, i - 1)
  }

  /** Bit i of the XOR of two patterns is set exactly when bit i of one of them is. */
  lemma {:induction false} XorBitsBit(a: nat, b: nat, n: nat, i: nat)
    requires i < n
    ensures Bit(XorBits(a, b, n), i) == if Bit(a, i) == Bit(b, i) then 0 else 1
  {
    if i > 0 {
      XorBitsBit(a / 2, b / 2, n - 1, i - 1);
    }
  }

  /** XOR with the zero pattern leaves a pattern as it is. */
  lemma {:induction false} XorBitsZeroLeft(b: nat, n: nat)
    requires b < Pow2(n)
    ensures XorBits(0, b, n) == b
  {
    if n > 0 {
      XorBitsZeroLeft(b / 2, n - 1);
    }
  }

  /** XOR with the same pattern twice gives back the original pattern. */
  lemma {:induction false} XorBitsCancel(a: nat, b: nat, n: nat)
    requires a < Pow2(n)
    ensures XorBits(XorBits(a, b, n), b, n) == a
  {
    if n > 0 {
      var x := XorBits(a, b, n);
      XorBitsCancel(a / 2, b / 2, n - 1);
      assert x % 2 == (if a % 2 == b % 2 then 0 else 1);
      assert x / 2 == XorBits(a / 2, b / 2, n - 1);
    }
  }

  /** The two's complement pattern of an `int`, read as an unsigned number. */
  function Bits(x: Int32): (u: nat)
    ensures u < TWO_32
    ensures u == x || u == x + TWO_32
  {
    if x < 0 then x + TWO_32 else x
  }

  /** The `int` whose pattern is u: the inverse of Bits. */
  function FromBits(u: nat): (x: Int32)
    requires u < TWO_32
    ensures Bits(x) == u
  {
    if u < 0x8000_0000 then u else u - TWO_32
  }

  /** The number of bits of a C# `int`. */
  function Width(): nat { 32 }

  /** C#'s `a ^ b` on `int`: its pattern is the XOR of the operands' patterns. */
  function Xor(a: Int32, b: Int32): (x: Int32)
    ensures Bits(x) == XorBits(Bits(a), Bits(b), Width())
  {
    Pow2Of32();
    FromBits(XorBits(Bits(a), Bits(b), Width()))
  }

  /** Bit i of `a ^ b` is set exactly when bit i of exactly one operand is. */
  lemma XorBitwise(a: Int32, b: Int32, i: nat)
    requires i < 32
    ensures Bit(Bits(Xor(a, b)), i) == if Bit(Bits(a), i) == Bit(Bits(b), i) then 0 else 1
  {
    XorBitsBit(Bits(a), Bits(b), 32, i);
  }

  lemma XorSymmetric(a: Int32, b: Int32)
    ensures Xor(a, b) == Xor(b, a)
  {
    XorBitsSymmetric(Bits(a), Bits(b), 32);
  }

  lemma XorCancel(a: Int32, b: Int32)
    ensures Xor(Xor(a, b), b) == a
  {
    Pow2Of32();
    XorBitsCancel(Bits(a), Bits(b), 32);
  }

  /** Fixing one operand, XOR is injective in the other. */
  lemma XorInjective(a1: Int32, a2: Int32, b: Int32)
    ensures Xor(a1, b) == Xor(a2, b) <==> a1 == a2
  {
    XorCancel(a1, b);
    XorCancel(a2, b);
  }
}
