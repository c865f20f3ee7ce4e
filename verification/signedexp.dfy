/** The signed-exponent transform applied to the analysis copy of a buffer
    (src/bitrounding_bitinfo.c, `signed_exponent_kernel` and `signed_exponent`;
    bit_rounding.py has the same two functions). The 8-bit biased exponent E is
    replaced by a sign-magnitude encoding of e = E - 127: bit 30 holds e < 0 and
    |e| is shifted to the exponent offset 23. */
module SignedExponent {
  import opened Float32

  const SignAndSignificand: bv32 := 0x807F_FFFF
  /** `esignmask`, the sign mask shifted right by one. */
  const ExponentSignMask: bv32 := 0x4000_0000

  /** |E - 127| for the 8-bit field E; the source computes it on a 32-bit
      signed int with `abs`, which cannot overflow for 0 <= E <= 255. */
  function ExponentMagnitude(e: bv32): (m: bv32)
    requires e <= 0xFF
    ensures m <= 128
  {
    if e < 127 then 127 - e else e - 127
  }

  /** Bit 30 of the new word: set when e < 0. */
  function ExponentSign(e: bv32): (s: bv32)
    ensures s == 0 || s == ExponentSignMask
  {
    if e < 127 then ExponentSignMask else 0
  }

  /** The new exponent field: the sign of e at bit 30 and |e| at offset 23. */
  function SignedField(e: bv32): bv32
    requires e <= 0xFF
  {
    ExponentSign(e) | (ExponentMagnitude(e) << 23)
  }

  function Kernel(u: bv32): bv32 {
    (u & SignAndSignificand) | SignedField(BiasedExponent(u))
  }

  /** Sign bit and all 23 significand bits pass through unchanged. */
  lemma KernelKeepsSignAndSignificand(u: bv32)
    ensures Kernel(u) & SignAndSignificand == u & SignAndSignificand
  {
    var e := BiasedExponent(u);
    SignedFieldOutside(e);
    OrOutside(u & SignAndSignificand, SignedField(e));
  }

  /** The new exponent field lies in bits 23..30 only. */
  lemma SignedFieldOutside(e: bv32)
    requires e <= 0xFF
    ensures SignedField(e) & SignAndSignificand == 0
  {
  }

  /** Or-ing in bits outside the sign and significand leaves those alone. */
  lemma OrOutside(x: bv32, y: bv32)
    requires y & SignAndSignificand == 0
    ensures (x | y) & SignAndSignificand == x & SignAndSignificand
  {
  }

  /** The new exponent field is (e < 0 ? 0x40000000 : 0) | (|e| << 23). */
  lemma KernelExponentField(u: bv32)
    ensures var e := BiasedExponent(u);
            Kernel(u) & ExponentMask ==
              (if e < 127 then ExponentSignMask else 0) | (ExponentMagnitude(e) << 23)
    ensures BiasedExponent(u) == 127 ==> Kernel(u) & ExponentMask == 0
    ensures BiasedExponent(u) == 255 ==> Kernel(u) & ExponentMask == ExponentSignMask
  {
  }

  /** Recovers the biased exponent from a transformed word: bit 30 alone is
      E = 255 (|e| = 128), bit 30 with a non-zero magnitude is E < 127, and a
      clear bit 30 is E >= 127. */
  function RecoverExponent(t: bv32): (e: bv32)
    ensures e <= 0xFF
  {
    var mag := (t & 0x3F80_0000) >> 23;
    if t & ExponentSignMask == 0 then 127 + mag
    else if mag == 0 then 255
    else 127 - mag
  }

  /** The inverse transform. */
  function Unkernel(t: bv32): bv32 {
    (t & SignAndSignificand) | (RecoverExponent(t) << 23)
  }

  /** The transform is a bijection on 32-bit words: `Unkernel` undoes it, so no
      two words share a transformed pattern (E = 255 included). */
  lemma KernelRoundTrip(u: bv32)
    ensures Unkernel(Kernel(u)) == u
  {
    KernelRecoversExponent(u);
    KernelKeepsSignAndSignificand(u);
    UnkernelFromParts(Kernel(u), u);
  }

  /** The biased exponent can be read back from a transformed word. */
  lemma KernelRecoversExponent(u: bv32)
    ensures RecoverExponent(Kernel(u)) == BiasedExponent(u)
  {
    KernelFields(u);
    RecoverFromFields(BiasedExponent(u), Kernel(u));
  }

  /** Where the transformed word keeps the sign of e and its magnitude. */
  lemma KernelFields(u: bv32)
    ensures var e := BiasedExponent(u);
            (Kernel(u) & 0x3F80_0000) >> 23 == (if e == 255 then 0 else ExponentMagnitude(e))
    ensures var e := BiasedExponent(u);
            (Kernel(u) & ExponentSignMask != 0) == (e < 127 || e == 255)
  {
  }

  lemma RecoverFromFields(e: bv32, t: bv32)
    requires e <= 0xFF
    ensures (t & 0x3F80_0000) >> 23 == (if e == 255 then 0 else ExponentMagnitude(e)) &&
            (t & ExponentSignMask != 0) == (e < 127 || e == 255) ==>
            RecoverExponent(t) == e
  {
  }

  /** A word is determined by its sign, significand and exponent field. */
  lemma UnkernelFromParts(t: bv32, u: bv32)
    ensures RecoverExponent(t) == BiasedExponent(u) && t & SignAndSignificand == u & SignAndSignificand ==>
            Unkernel(t) == u
  {
  }

  lemma KernelInjective(a: bv32, b: bv32)
    ensures Kernel(a) == Kernel(b) ==> a == b
  {
    KernelRoundTrip(a);
    KernelRoundTrip(b);
  }

  /** `signed_exponent`: the kernel applied to every element. */
  function Transform(v: seq<bv32>): (r: seq<bv32>)
    ensures |r| == |v|
    ensures forall i :: 0 <= i < |v| ==> r[i] == Kernel(v[i])
  {
    seq(|v|, i requires 0 <= i < |v| => Kernel(v[i]))
  }

  /** The in-place loop of `signed_exponent`. */
  method TransformInPlace(a: array<bv32>)
    modifies a
    ensures a[..] == Transform(old(a[..]))
  {
    var i := 0;
    while i < a.Length
      invariant 0 <= i <= a.Length
      invariant a[i..] == old(a[i..])
      invariant a[..i] == Transform(old(a[..]))[..i]
    {
      a[i] := Kernel(a[i]);
      i := i + 1;
    }
  }

  // ----- Python twin: numba evaluates the same expressions on 64-bit integers -----

  function PyKernel(u: bv64): bv64
    requires u <= 0xFFFF_FFFF
  {
    PySignAndSignificand(u) | PySignedField(PyExponent(u))
  }

  /** `sf = u & (signmask | mantissamask)`. */
  function PySignAndSignificand(u: bv64): bv64 {
    u & (0x8000_0000 | 0x007F_FFFF)
  }

  /** `e = (u & exponentmask) >> 23`. */
  function PyExponent(u: bv64): (e: bv64)
    ensures e <= 0xFF
  {
    (u & 0x7F80_0000) >> 23
  }

  /** `esign | (eabs << 23)` on 64-bit integers. */
  function PySignedField(e: bv64): bv64
    requires e <= 0xFF
  {
    var eabs: bv64 := if e < 127 then 127 - e else e - 127;
    var esign: bv64 := if e < 127 then 0x8000_0000 >> 1 else 0;
    esign | (eabs << 23)
  }

  /** The Python kernel computes the same 32-bit word as the C kernel. */
  lemma PythonKernelMatchesC(u: bv32)
    ensures PyKernel(u as bv64) == Kernel(u) as bv64
  {
    var e := BiasedExponent(u);
    WidenFields(u);
    WidenSignedField(e);
    WidenOr(u & SignAndSignificand, SignedField(e));
  }

  /** Masking and shifting a word widened to 64 bits gives the widened
      32-bit results. */
  lemma WidenFields(u: bv32)
    ensures PySignAndSignificand(u as bv64) == (u & SignAndSignificand) as bv64
    ensures PyExponent(u as bv64) == BiasedExponent(u) as bv64
  {
  }

  lemma WidenSignedField(e: bv32)
    requires e <= 0xFF
    ensures PySignedField(e as bv64) == SignedField(e) as bv64
  {
  }

  lemma WidenOr(a: bv32, b: bv32)
    ensures (a as bv64) | (b as bv64) == (a | b) as bv64
  {
  }
}
