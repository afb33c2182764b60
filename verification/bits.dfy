/**
 * Sign and zero extension of 64-bit register values (`sign_extend` and
 * `zero_extend` in src/decode_helpers.hpp).
 *
 * The width argument is an `int` in the source and is only ever 1..64; it is
 * a `bv8` here so that every shift stays a bit-vector operation.
 */
module Bits {

  /** `-1ULL`: all 64 bits set. */
  const Ones: bv64 := 0xFFFF_FFFF_FFFF_FFFF

  /** The top bit of a 64-bit value: the sign under two's complement. */
  const SignBit: bv64 := 0x8000_0000_0000_0000

  type Width = w: bv8 | 1 <= w <= 64 witness 64

  /** Bit `i` of `x`, as 0 or 1. */
  function Bit(x: bv64, i: bv8): bv64
    requires i < 64
  {
    (x >> i) & 1
  }

  /**
   * `sign_extend(reg, bits)`: when bit `bits-1` is set, every bit from `bits`
   * upwards is set; otherwise the input comes back unchanged.
   */
  function SignExtend(reg: bv64, bits: Width): bv64 {
    if bits == 64 || (reg >> (bits - 1)) & 1 == 0 then reg else reg | (Ones << bits)
  }

  /** `zero_extend(reg, bits)`: keeps the low `bits` bits and clears the rest. */
  function ZeroExtend(reg: bv64, bits: Width): bv64 {
    reg & (Ones >> (64 - bits))
  }

  /** The bits at or above position `bits`. */
  function HighMask(bits: Width): bv64 {
    if bits == 64 then 0 else Ones << bits
  }

  /** `reg` has no bit set at or above position `bits`: it is below 2^bits. */
  predicate Fits(reg: bv64, bits: Width) {
    reg & HighMask(bits) == 0
  }

  /** The source's low mask `-1 >> (64 - bits)` is the complement of the high mask. */
  lemma LowMaskIsComplement(bits: Width)
    ensures Ones >> (64 - bits) == !HighMask(bits)
  {
  }

  lemma MaskedIsDisjoint(reg: bv64, high: bv64)
    ensures (reg & !high) & high == 0
  {
  }

  lemma ClearHigh(reg: bv64, high: bv64)
    requires reg & high == 0
    ensures (reg | high) & !high == reg && reg & !high == reg
  {
  }

  /** A zero-extended value fits in `bits` bits. */
  lemma {:induction false} ZeroExtendFits(reg: bv64, bits: Width)
    ensures Fits(ZeroExtend(reg, bits), bits)
  {
    LowMaskIsComplement(bits);
    MaskedIsDisjoint(reg, HighMask(bits));
  }

  /** Zero-extending twice to the same width is zero-extending once. */
  lemma ZeroExtendIdempotent(reg: bv64, bits: Width)
    ensures ZeroExtend(ZeroExtend(reg, bits), bits) == ZeroExtend(reg, bits)
  {
  }

  /**
   * `sign_extend` never clears a bit: with bit `bits-1` clear (or a width
   * of 64) it returns its input, whatever lies above the width; with the
   * bit set it sets every bit from `bits` up and keeps the low `bits` bits.
   */
  lemma SignExtendBits(reg: bv64, bits: Width)
    ensures bits == 64 || Bit(reg, bits - 1) == 0 ==> SignExtend(reg, bits) == reg
    ensures bits < 64 && Bit(reg, bits - 1) == 1 ==>
      && SignExtend(reg, bits) & HighMask(bits) == HighMask(bits)
      && SignExtend(reg, bits) & !HighMask(bits) == reg & !HighMask(bits)
  {
  }

  /**
   * Zero-extension undoes sign-extension: both keep the low `bits` bits, so
   * a field below 2^bits comes back from the round trip.
   */
  lemma {:induction false} ZeroExtendOfSignExtend(reg: bv64, bits: Width)
    requires Fits(reg, bits)
    ensures ZeroExtend(SignExtend(reg, bits), bits) == reg
  {
    LowMaskIsComplement(bits);
    ClearHigh(reg, HighMask(bits));
  }

  lemma HighMaskIsNegatedPower(bits: Width)
    requires bits < 64
    ensures HighMask(bits) == 0 - (1 << bits)
  {
  }

  lemma DisjointOrIsSum(a: bv64, h: bv64)
    requires a & h == 0
    ensures a | h == a + h
  {
  }

  /**
   * For an input below 2^bits, `SignExtend` yields the 64-bit two's-complement
   * encoding of the `bits`-wide signed value: the field minus 2^bits when its
   * top bit is set, the field itself otherwise; the result is negative exactly
   * when bit `bits-1` is set.
   */
  lemma {:induction false} SignExtendTwosComplement(reg: bv64, bits: Width)
    requires Fits(reg, bits)
    ensures bits < 64 ==>
              SignExtend(reg, bits) == if Bit(reg, bits - 1) == 1 then reg - (1 << bits) else reg
    ensures (SignExtend(reg, bits) & SignBit != 0) == (Bit(reg, bits - 1) == 1)
  {
    if bits < 64 && Bit(reg, bits - 1) == 1 {
      DisjointOrIsSum(reg, HighMask(bits));
      HighMaskIsNegatedPower(bits);
    }
  }
}
