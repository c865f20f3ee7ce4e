/** IEEE 754 binary32 words: 1 sign bit, 8 biased exponent bits, 23 significand
    bits (section 3.4 of IEEE 754-2019). Floats are handled as their bit
    patterns; the two predicates that need float semantics (NaN and the
    `==` comparison of section 5.11) are defined on the bits. */
module Float32 {

  const SignMask: bv32 := 0x8000_0000
  const ExponentMask: bv32 := 0x7F80_0000
  const SignificandMask: bv32 := 0x007F_FFFF
  const SignificandBits: nat := 23
  const ExponentBias: int := 127

  /** The biased exponent field E, 0..255. */
  function BiasedExponent(w: bv32): (e: bv32)
    ensures e <= 0xFF
    ensures (e << 23) == w & ExponentMask
  {
    (w & ExponentMask) >> 23
  }

  /** Exponent all ones and a non-zero significand. */
  predicate IsNaN(w: bv32) {
    w & ExponentMask == ExponentMask && w & SignificandMask != 0
  }

  /** Neither NaN nor an infinity: the exponent field is not all ones. */
  predicate IsFinite(w: bv32) {
    w & ExponentMask != ExponentMask
  }

  /** Both words are +0 or -0. */
  predicate IsZero(w: bv32) {
    w & !SignMask == 0
  }

  /** The float comparison `a == b`: NaN equals nothing, +0 equals -0,
      every other pair is equal exactly when the words are. */
  predicate FloatEq(a: bv32, b: bv32) {
    !IsNaN(a) && !IsNaN(b) && (a == b || (IsZero(a) && IsZero(b)))
  }

  lemma FloatEqProperties(a: bv32, b: bv32)
    ensures FloatEq(a, b) == FloatEq(b, a)
    ensures !IsNaN(a) ==> FloatEq(a, a)
    ensures IsNaN(a) ==> !FloatEq(a, b)
    ensures FloatEq(0x0000_0000, 0x8000_0000)
  {
  }

  /** Bit i of w (bit 0 = least significant), as 0 or 1. */
  function Bit(w: bv32, i: bv32): (b: nat)
    requires i < 32
    ensures b <= 1
  {
    if (w >> i) & 1 == 1 then 1 else 0
  }
}
