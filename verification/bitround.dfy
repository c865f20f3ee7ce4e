/** The bit-level quantizer `bitround` (src/netcdf_bit_rounding.c) and its
    Python twin (bit_rounding.py). `nsb` is the number of significand bits
    kept; z = 23 - nsb low bits are cleared after adding a half-quantum bias. */
module BitRound {
  import opened Float32

  /** `nsb` as the C code holds it, in a `uint32_t` (`prc_bnr_xpl_rqr`). The
      shift by z = 23 - nsb is defined only for z < 32; every caller passes
      1 <= nsb <= 23. */
  predicate ValidNsb(nsb: bv32) {
    nsb <= 23
  }

  /** `bit_xpl_nbr_zro`, the number of low bits cleared. */
  function Cleared(nsb: bv32): (z: bv32)
    requires ValidNsb(nsb)
    ensures z <= 23
  {
    23 - nsb
  }

  /** `msk_f32_u32_zro`: all ones shifted left by z. */
  function ZeroMask(nsb: bv32): bv32
    requires ValidNsb(nsb)
  {
    0xFFFF_FFFF << Cleared(nsb)
  }

  /** `msk_f32_u32_one`: the complement of the zero mask. */
  function OneMask(nsb: bv32): bv32
    requires ValidNsb(nsb)
  {
    !ZeroMask(nsb)
  }

  /** `msk_f32_u32_hshv`, exactly as the source writes it: one & (zero >> 1). */
  function Bias(nsb: bv32): bv32
    requires ValidNsb(nsb)
  {
    OneMask(nsb) & (ZeroMask(nsb) >> 1)
  }

  /** The masks select complementary bit ranges: the zero mask keeps bit k
      exactly when k >= z. */
  lemma MasksSplitWord(nsb: bv32, k: bv32)
    requires ValidNsb(nsb) && k < 32
    ensures ZeroMask(nsb) & (1 << k) != 0 <==> k >= Cleared(nsb)
    ensures OneMask(nsb) & (1 << k) != 0 <==> k < Cleared(nsb)
  {
  }

  /** The bias is half of one retained quantum, 2^(z-1), and 0 when z = 0. */
  lemma BiasIsHalfQuantum(nsb: bv32)
    requires ValidNsb(nsb)
    ensures Cleared(nsb) == 0 ==> Bias(nsb) == 0
    ensures Cleared(nsb) >= 1 ==> Bias(nsb) == 1 << (Cleared(nsb) - 1)
  {
  }

  /** With nsb = 23 nothing is cleared and nothing is added. */
  lemma FullRetentionMasks()
    ensures ZeroMask(23) == 0xFFFF_FFFF && OneMask(23) == 0 && Bias(23) == 0
  {
  }

  /** One processed element: add the bias modulo 2^32, then clear the low bits. */
  function RoundWord(nsb: bv32, u: bv32): bv32
    requires ValidNsb(nsb)
  {
    (u + Bias(nsb)) & ZeroMask(nsb)
  }

  /** A processed word has its low z bits cleared. */
  lemma RoundWordClearsLowBits(nsb: bv32, u: bv32)
    requires ValidNsb(nsb)
    ensures RoundWord(nsb, u) & OneMask(nsb) == 0
  {
  }

  /** The skip test of the loop: `v[idx] != missval && !isnan(v[idx])`. */
  predicate Processed(x: bv32, missval: bv32) {
    !FloatEq(x, missval) && !IsNaN(x)
  }

  /** `bitround` on a buffer, element by element. */
  function BitRound(nsb: bv32, v: seq<bv32>, missval: bv32): (r: seq<bv32>)
    requires ValidNsb(nsb)
    ensures |r| == |v|
    ensures forall i :: 0 <= i < |v| && !Processed(v[i], missval) ==> r[i] == v[i]
  {
    seq(|v|, i requires 0 <= i < |v| => if Processed(v[i], missval) then RoundWord(nsb, v[i]) else v[i])
  }

  /** After `bitround` every processed element has its low 23 - nsb bits equal
      to zero. */
  lemma BitRoundClearsLowBits(nsb: bv32, v: seq<bv32>, missval: bv32)
    requires ValidNsb(nsb)
    ensures forall i :: 0 <= i < |v| && Processed(v[i], missval) ==>
              BitRound(nsb, v, missval)[i] & OneMask(nsb) == 0
  {
    forall i | 0 <= i < |v| && Processed(v[i], missval)
      ensures BitRound(nsb, v, missval)[i] & OneMask(nsb) == 0
    {
      RoundWordClearsLowBits(nsb, v[i]);
    }
  }

  /** In-place form of the C loop over `u32_ptr`. */
  method BitRoundInPlace(nsb: bv32, v: array<bv32>, missval: bv32)
    requires ValidNsb(nsb)
    modifies v
    ensures v[..] == BitRound(nsb, old(v[..]), missval)
  {
    var zero := ZeroMask(nsb);
    var hshv := Bias(nsb);
    var idx := 0;
    while idx < v.Length
      invariant 0 <= idx <= v.Length
      invariant v[idx..] == old(v[idx..])
      invariant v[..idx] == BitRound(nsb, old(v[..]), missval)[..idx]
    {
      if Processed(v[idx], missval) {
        v[idx] := (v[idx] + hshv) & zero;
      }
      idx := idx + 1;
    }
  }

  /** Rounding an already rounded word changes nothing. */
  lemma RoundWordIdempotent(nsb: bv32, u: bv32)
    requires ValidNsb(nsb)
    ensures RoundWord(nsb, RoundWord(nsb, u)) == RoundWord(nsb, u)
  {
    BiasBelowMask(nsb);
    RoundWordClearsLowBits(nsb, u);
    NoCarryWhenDisjoint(RoundWord(nsb, u), Bias(nsb), ZeroMask(nsb));
  }

  lemma BiasBelowMask(nsb: bv32)
    requires ValidNsb(nsb)
    ensures Bias(nsb) & ZeroMask(nsb) == 0
  {
  }

  /** Adding bits that lie below the mask to a word with no bits below the
      mask produces no carry, so masking restores the word. */
  lemma NoCarryWhenDisjoint(r: bv32, b: bv32, z: bv32)
    requires b & z == 0 && r & !z == 0
    ensures (r + b) & z == r
  {
    DisjointFromBelow(r, b, z);
    DisjointAddIsOr(r, b);
    MaskOfOr(r, b, z);
  }

  lemma DisjointFromBelow(r: bv32, b: bv32, z: bv32)
    requires b & z == 0 && r & !z == 0
    ensures r & b == 0
  {
  }

  lemma DisjointAddIsOr(r: bv32, b: bv32)
    requires r & b == 0
    ensures r + b == r | b
  {
  }

  lemma MaskOfOr(r: bv32, b: bv32, z: bv32)
    requires r & !z == 0 && b & z == 0
    ensures (r | b) & z == r
  {
  }

  /** With nsb = 23 every word is left unchanged. */
  lemma FullRetentionIsIdentity(v: seq<bv32>, missval: bv32)
    ensures BitRound(23, v, missval) == v
  {
    FullRetentionMasks();
  }

  /** Applying `bitround` twice with the same parameters equals applying it once. */
  lemma BitRoundIdempotent(nsb: bv32, v: seq<bv32>, missval: bv32)
    requires ValidNsb(nsb)
    ensures BitRound(nsb, BitRound(nsb, v, missval), missval) == BitRound(nsb, v, missval)
  {
    var once := BitRound(nsb, v, missval);
    forall i | 0 <= i < |v|
      ensures BitRound(nsb, once, missval)[i] == once[i]
    {
      if Processed(v[i], missval) {
        RoundWordIdempotent(nsb, v[i]);
      }
    }
  }

  /** For a word that is not NaN the addition never wraps, the sign bit is kept,
      and the result lies within half a quantum 2^(z-1) of the input, reading
      words as unsigned 32-bit integers: r is in (u - 2^(z-1), u + 2^(z-1)]. */
  lemma RoundWordCloseToInput(nsb: bv32, u: bv32)
    requires ValidNsb(nsb)
    requires !IsNaN(u)
    ensures u <= u + Bias(nsb)
    ensures RoundWord(nsb, u) & SignMask == u & SignMask
    ensures var r := RoundWord(nsb, u); (u <= r && r - u <= Bias(nsb)) || (r < u && u - r < Bias(nsb))
  {
    BiasBounds(nsb);
    NoWrapBelowNaN(u, Bias(nsb));
    UnfoldRoundWord(nsb, u);
    SignKept(u + Bias(nsb), ZeroMask(nsb));
    DistanceByShift(nsb, u);
  }

  /** The bias is at most 2^22 and the zero mask keeps the sign bit. */
  lemma BiasBounds(nsb: bv32)
    requires ValidNsb(nsb)
    ensures Bias(nsb) <= 0x40_0000
    ensures ZeroMask(nsb) & SignMask == SignMask
  {
  }

  /** The largest word that is not NaN is 0xFF800000 (negative infinity), so adding
      at most 2^22 neither wraps nor crosses the sign bit. */
  lemma NoWrapBelowNaN(u: bv32, b: bv32)
    requires !IsNaN(u) && b <= 0x40_0000
    ensures u <= 0xFF80_0000
    ensures u <= u + b
    ensures (u + b) & SignMask == u & SignMask
  {
  }

  lemma SignKept(w: bv32, zero: bv32)
    requires zero & SignMask == SignMask
    ensures (w & zero) & SignMask == w & SignMask
  {
  }

  lemma UnfoldRoundWord(nsb: bv32, u: bv32)
    requires ValidNsb(nsb)
    ensures RoundWord(nsb, u) == (u + Bias(nsb)) & ZeroMask(nsb)
  {
  }

  /** The distance bound, one shift amount at a time: with constant masks the
      bit-vector comparisons are cheap to decide. Each shift amount is its own
      lemma, `CloseWhenClearing<k>` for k cleared bits, because the solver
      decides the 24 cases in separate queries but not in one. */
  lemma DistanceByShift(nsb: bv32, u: bv32)
    requires ValidNsb(nsb) && u <= 0xFF80_0000
    ensures var r := RoundWord(nsb, u); (u <= r && r - u <= Bias(nsb)) || (r < u && u - r < Bias(nsb))
  {
    if nsb == 23 {
      CloseWhenClearing0(nsb, u);
    } else if nsb == 22 {
      CloseWhenClearing1(nsb, u);
    } else if nsb == 21 {
      CloseWhenClearing2(nsb, u);
    } else if nsb == 20 {
      CloseWhenClearing3(nsb, u);
    } else if nsb == 19 {
      CloseWhenClearing4(nsb, u);
    } else if nsb == 18 {
      CloseWhenClearing5(nsb, u);
    } else if nsb == 17 {
      CloseWhenClearing6(nsb, u);
    } else if nsb == 16 {
      CloseWhenClearing7(nsb, u);
    } else if nsb == 15 {
      CloseWhenClearing8(nsb, u);
    } else if nsb == 14 {
      CloseWhenClearing9(nsb, u);
    } else if nsb == 13 {
      CloseWhenClearing10(nsb, u);
    } else if nsb == 12 {
      CloseWhenClearing11(nsb, u);
    } else if nsb == 11 {
      CloseWhenClearing12(nsb, u);
    } else if nsb == 10 {
      CloseWhenClearing13(nsb, u);
    } else if nsb == 9 {
      CloseWhenClearing14(nsb, u);
    } else if nsb == 8 {
      CloseWhenClearing15(nsb, u);
    } else if nsb == 7 {
      CloseWhenClearing16(nsb, u);
    } else if nsb == 6 {
      CloseWhenClearing17(nsb, u);
    } else if nsb == 5 {
      CloseWhenClearing18(nsb, u);
    } else if nsb == 4 {
      CloseWhenClearing19(nsb, u);
    } else if nsb == 3 {
      CloseWhenClearing20(nsb, u);
    } else if nsb == 2 {
      CloseWhenClearing21(nsb, u);
    } else if nsb == 1 {
      CloseWhenClearing22(nsb, u);
    } else if nsb == 0 {
      CloseWhenClearing23(nsb, u);
    }
  }

  lemma CloseWhenClearing0(nsb: bv32, u: bv32)
    requires nsb == 23 && u <= 0xFF80_0000
    ensures var r := RoundWord(nsb, u); (u <= r && r - u <= Bias(nsb)) || (r < u && u - r < Bias(nsb))
  {
  }

  lemma CloseWhenClearing1(nsb: bv32, u: bv32)
    requires nsb == 22 && u <= 0xFF80_0000
    ensures var r := RoundWord(nsb, u); (u <= r && r - u <= Bias(nsb)) || (r < u && u - r < Bias(nsb))
  {
  }

  lemma CloseWhenClearing2(nsb: bv32, u: bv32)
    requires nsb == 21 && u <= 0xFF80_0000
    ensures var r := RoundWord(nsb, u); (u <= r && r - u <= Bias(nsb)) || (r < u && u - r < Bias(nsb))
  {
  }

  lemma CloseWhenClearing3(nsb: bv32, u: bv32)
    requires nsb == 20 && u <= 0xFF80_0000
    ensures var r := RoundWord(nsb, u); (u <= r && r - u <= Bias(nsb)) || (r < u && u - r < Bias(nsb))
  {
  }

  lemma CloseWhenClearing4(nsb: bv32, u: bv32)
    requires nsb == 19 && u <= 0xFF80_0000
    ensures var r := RoundWord(nsb, u); (u <= r && r - u <= Bias(nsb)) || (r < u && u - r < Bias(nsb))
  {
  }

  lemma CloseWhenClearing5(nsb: bv32, u: bv32)
    requires nsb == 18 && u <= 0xFF80_0000
    ensures var r := RoundWord(nsb, u); (u <= r && r - u <= Bias(nsb)) || (r < u && u - r < Bias(nsb))
  {
  }

  lemma CloseWhenClearing6(nsb: bv32, u: bv32)
    requires nsb == 17 && u <= 0xFF80_0000
    ensures var r := RoundWord(nsb, u); (u <= r && r - u <= Bias(nsb)) || (r < u && u - r < Bias(nsb))
  {
  }

  lemma CloseWhenClearing7(nsb: bv32, u: bv32)
    requires nsb == 16 && u <= 0xFF80_0000
    ensures var r := RoundWord(nsb, u); (u <= r && r - u <= Bias(nsb)) || (r < u && u - r < Bias(nsb))
  {
  }

  lemma CloseWhenClearing8(nsb: bv32, u: bv32)
    requires nsb == 15 && u <= 0xFF80_0000
    ensures var r := RoundWord(nsb, u); (u <= r && r - u <= Bias(nsb)) || (r < u && u - r < Bias(nsb))
  {
  }

  lemma CloseWhenClearing9(nsb: bv32, u: bv32)
    requires nsb == 14 && u <= 0xFF80_0000
    ensures var r := RoundWord(nsb, u); (u <= r && r - u <= Bias(nsb)) || (r < u && u - r < Bias(nsb))
  {
  }

  lemma CloseWhenClearing10(nsb: bv32, u: bv32)
    requires nsb == 13 && u <= 0xFF80_0000
    ensures var r := RoundWord(nsb, u); (u <= r && r - u <= Bias(nsb)) || (r < u && u - r < Bias(nsb))
  {
  }

  lemma CloseWhenClearing11(nsb: bv32, u: bv32)
    requires nsb == 12 && u <= 0xFF80_0000
    ensures var r := RoundWord(nsb, u); (u <= r && r - u <= Bias(nsb)) || (r < u && u - r < Bias(nsb))
  {
  }

  lemma CloseWhenClearing12(nsb: bv32, u: bv32)
    requires nsb == 11 && u <= 0xFF80_0000
    ensures var r := RoundWord(nsb, u); (u <= r && r - u <= Bias(nsb)) || (r < u && u - r < Bias(nsb))
  {
  }

  lemma CloseWhenClearing13(nsb: bv32, u: bv32)
    requires nsb == 10 && u <= 0xFF80_0000
    ensures var r := RoundWord(nsb, u); (u <= r && r - u <= Bias(nsb)) || (r < u && u - r < Bias(nsb))
  {
  }

  lemma CloseWhenClearing14(nsb: bv32, u: bv32)
    requires nsb == 9 && u <= 0xFF80_0000
    ensures var r := RoundWord(nsb, u); (u <= r && r - u <= Bias(nsb)) || (r < u && u - r < Bias(nsb))
  {
  }

  lemma CloseWhenClearing15(nsb: bv32, u: bv32)
    requires nsb == 8 && u <= 0xFF80_0000
    ensures var r := RoundWord(nsb, u); (u <= r && r - u <= Bias(nsb)) || (r < u && u - r < Bias(nsb))
  {
  }

  lemma CloseWhenClearing16(nsb: bv32, u: bv32)
    requires nsb == 7 && u <= 0xFF80_0000
    ensures var r := RoundWord(nsb, u); (u <= r && r - u <= Bias(nsb)) || (r < u && u - r < Bias(nsb))
  {
  }

  lemma CloseWhenClearing17(nsb: bv32, u: bv32)
    requires nsb == 6 && u <= 0xFF80_0000
    ensures var r := RoundWord(nsb, u); (u <= r && r - u <= Bias(nsb)) || (r < u && u - r < Bias(nsb))
  {
  }

  lemma CloseWhenClearing18(nsb: bv32, u: bv32)
    requires nsb == 5 && u <= 0xFF80_0000
    ensures var r := RoundWord(nsb, u); (u <= r && r - u <= Bias(nsb)) || (r < u && u - r < Bias(nsb))
  {
  }

  lemma CloseWhenClearing19(nsb: bv32, u: bv32)
    requires nsb == 4 && u <= 0xFF80_0000
    ensures var r := RoundWord(nsb, u); (u <= r && r - u <= Bias(nsb)) || (r < u && u - r < Bias(nsb))
  {
  }

  lemma CloseWhenClearing20(nsb: bv32, u: bv32)
    requires nsb == 3 && u <= 0xFF80_0000
    ensures var r := RoundWord(nsb, u); (u <= r && r - u <= Bias(nsb)) || (r < u && u - r < Bias(nsb))
  {
  }

  lemma CloseWhenClearing21(nsb: bv32, u: bv32)
    requires nsb == 2 && u <= 0xFF80_0000
    ensures var r := RoundWord(nsb, u); (u <= r && r - u <= Bias(nsb)) || (r < u && u - r < Bias(nsb))
  {
  }

  lemma CloseWhenClearing22(nsb: bv32, u: bv32)
    requires nsb == 1 && u <= 0xFF80_0000
    ensures var r := RoundWord(nsb, u); (u <= r && r - u <= Bias(nsb)) || (r < u && u - r < Bias(nsb))
  {
  }

  lemma CloseWhenClearing23(nsb: bv32, u: bv32)
    requires nsb == 0 && u <= 0xFF80_0000
    ensures var r := RoundWord(nsb, u); (u <= r && r - u <= Bias(nsb)) || (r < u && u - r < Bias(nsb))
  {
  }

  /** The carry may enter the exponent: 1.9999999 (0x3FFFFFFF) rounds to 2.0 with
      nsb = 1, while 1.0 (0x3F800000) is kept. */
  lemma CarryIntoExponent()
    ensures RoundWord(1, 0x3FFF_FFFF) == 0x4000_0000
    ensures RoundWord(1, 0x3F80_0000) == 0x3F80_0000
  {
  }

  // ----- Python twin (bit_rounding.py, compiled by numba on 64-bit integers) -----

  function PyZeroMask(nsb: bv32): bv64
    requires ValidNsb(nsb)
  {
    0xFFFF_FFFF << Cleared(nsb)
  }

  function PyBias(nsb: bv32): bv64
    requires ValidNsb(nsb)
  {
    !PyZeroMask(nsb) & (PyZeroMask(nsb) >> 1)
  }

  function Low32(x: bv64): bv32 {
    (x & 0xFFFF_FFFF) as bv32
  }

  /** `u32_ptr[idx] += hshv; u32_ptr[idx] &= zro` with 64-bit masks stored back
      into a 32-bit element. */
  function PyRoundWord(nsb: bv32, u: bv32): bv32
    requires ValidNsb(nsb)
  {
    Low32(Low32(u as bv64 + PyBias(nsb)) as bv64 & PyZeroMask(nsb))
  }

  /** The Python masks agree with the C masks on the low 32 bits, and the
      Python update computes the same word as the C update. */
  lemma PythonMatchesC(nsb: bv32, u: bv32)
    requires ValidNsb(nsb)
    ensures Low32(PyZeroMask(nsb)) == ZeroMask(nsb)
    ensures PyBias(nsb) == Bias(nsb) as bv64
    ensures PyRoundWord(nsb, u) == RoundWord(nsb, u)
  {
  }

  /** Python `bitround`: the loop over the `uint32` view with the 64-bit masks,
      updating the elements for which `data[idx] != missval and not
      math.isnan(data[idx])`. It computes the C `bitround`. */
  method PyBitRound(nsb: bv32, data: seq<bv32>, missval: bv32) returns (r: seq<bv32>)
    requires ValidNsb(nsb)
    ensures r == BitRound(nsb, data, missval)
  {
    r := data;
    for idx := 0 to |data|
      invariant |r| == |data|
      invariant forall i :: 0 <= i < idx ==> r[i] == BitRound(nsb, data, missval)[i]
      invariant forall i :: idx <= i < |data| ==> r[i] == data[i]
    {
      if !FloatEq(r[idx], missval) && !IsNaN(r[idx]) {
        PythonMatchesC(nsb, r[idx]);
        r := r[idx := PyRoundWord(nsb, r[idx])];
      }
    }
  }
}
