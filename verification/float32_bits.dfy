/**
 * The bit-level view of an IEEE-754 binary32 value that the codec works on:
 * a 32-bit word holding 1 sign bit (bit 31), 8 exponent bits (bits 30..23)
 * and 23 mantissa bits (bits 22..0). Floats are never interpreted
 * numerically; every value, NaNs and signed zeros included, is just a word.
 */
module Float32Bits {

  /** Width of the binary32 mantissa (fraction) field. */
  const MantissaBits: nat := 23

  /** The sign bit, as a word holding 0 or 1. */
  function SignOf(x: bv32): (s: bv32)
    ensures s <= 1
    ensures (s == 1) == (x >= 0x8000_0000)
  {
    (x >> 31) & 0x1
  }

  /** The 8-bit biased exponent field. */
  function ExponentOf(x: bv32): (e: bv32)
    ensures e <= 0xFF
  {
    (x >> 23) & 0xFF
  }

  /** The 23-bit mantissa field. */
  function MantissaOf(x: bv32): (m: bv32)
    ensures m < 0x80_0000
  {
    x & 0x7F_FFFF
  }

  /** The word whose sign, exponent and mantissa fields are s, e and m.
      Fields in range come back out unchanged. */
  function Assemble(s: bv32, e: bv32, m: bv32): (x: bv32)
    ensures s <= 1 && e <= 0xFF && m < 0x80_0000 ==>
      SignOf(x) == s && ExponentOf(x) == e && MantissaOf(x) == m
  {
    (s << 31) | (e << 23) | m
  }

  /** Every word is the assembly of its own fields. */
  lemma AssembleFields(x: bv32)
    ensures Assemble(SignOf(x), ExponentOf(x), MantissaOf(x)) == x
  {
  }

  /** True when x has no bit set at or above position n, that is x < 2^n. */
  predicate FitsIn(x: bv32, n: bv32)
    requires n <= 32
  {
    x >> n == 0
  }

  /** The word with its low n bits set, `(1 << n) - 1`. */
  function LowMask(n: bv32): bv32
    requires n <= 31
  {
    (1 << n) - 1
  }

  /** A bit count as a 32-bit shift amount: `n as bv32`, written as a
      recursion so that its value can be proved by induction
      (`ShiftOfValue`), which the solver does not manage for the built-in
      conversion. */
  function ShiftOf(n: nat): (k: bv32)
    requires n <= 32
  {
    if n == 0 then 0 else ShiftOf(n - 1) + 1
  }

  /** The conversion keeps the value. */
  lemma {:induction false} ShiftOfValue(n: nat)
    requires n <= 32
    ensures ShiftOf(n) as int == n
  {
    if n > 0 {
      ShiftOfValue(n - 1);
    }
  }

  /** A word a with no bit inside mask m that or-ed with the m-bits of x
      gives x is x with the m-bits cleared. */
  lemma DisjointMaskedJoin(a: bv32, x: bv32, m: bv32)
    ensures a & m == 0 && a | (x & m) == x ==> a == x & !m
  {
  }

  /** Shifting the high part of m back up and or-ing in its low n bits
      gives m. */
  lemma SplitRejoin(m: bv32, n: bv32)
    requires n <= 31
    ensures ((m >> n) << n) | (m & LowMask(n)) == m
  {
  }

  /** Or-ing a word below 2^n into a word whose low n bits are clear keeps
      it as the low n bits. */
  lemma JoinedLow(a: bv32, low: bv32, n: bv32)
    requires n <= 31
    ensures a & LowMask(n) == 0 && FitsIn(low, n) ==> (a | low) & LowMask(n) == low
  {
  }
}
