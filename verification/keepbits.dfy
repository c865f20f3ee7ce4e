/** The keep-bits decision: from the 32-entry information curve (row 0 = sign
    bit) to the number of significand bits `nsb` that bit rounding keeps.
    `get_keepbits` is src/bitrounding_bitinfo.c:108-154 and its Python twin
    bit_rounding.py:183-229; `get_keepbits_monotonic` and
    `get_keepbits_gradient` are the two alternative strategies of
    bit_rounding.py. Doubles are modelled as exact reals. */
module KeepBits {
  import opened Wrappers

  const NBits: nat := 32
  /** `floatNMBITS`: one sign bit and eight exponent bits precede the significand. */
  const NonMantissaBits: int := 9
  const MaxKeep: int := 23
  /** The initial value `-1e33` of the running maxima. */
  const VeryNegative: real := -1000000000000000000000000000000000.0

  type Curve = c: seq<real> | |c| == NBits witness seq(32, _ => 0.0)

  // ----- sums -----

  /** x[0] + ... + x[k-1]. */
  function Sum(x: seq<real>, k: nat): real
    requires k <= |x|
  {
    if k == 0 then 0.0 else Sum(x, k - 1) + x[k - 1]
  }

  /** The cumulative sums the source builds in place with `M[i] += M[i-1]`:
      entry i holds the sum of entries 0..i. */
  function Cumulative(x: seq<real>): (S: seq<real>)
    ensures |S| == |x|
    ensures forall i :: 0 <= i < |x| ==> S[i] == Sum(x, i + 1)
  {
    seq(|x|, i requires 0 <= i < |x| => Sum(x, i + 1))
  }

  /** The in-place prefix loop `for i in 1..: M[i] += M[i-1]`. */
  method CumulativeInPlace(x: seq<real>) returns (S: seq<real>)
    ensures S == Cumulative(x)
  {
    S := x;
    if |x| == 0 {
      return;
    }
    var i := 1;
    while i < |x|
      invariant 1 <= i <= |x| && |S| == |x|
      invariant forall j :: 0 <= j < i ==> S[j] == Sum(x, j + 1)
      invariant forall j :: i <= j < |x| ==> S[j] == x[j]
    {
      S := S[i := S[i] + S[i - 1]];
      i := i + 1;
    }
  }

  /** Sums of non-negative entries never decrease. */
  lemma {:induction false} SumMonotone(x: seq<real>, i: nat, j: nat)
    requires i <= j <= |x|
    requires forall k :: 0 <= k < |x| ==> x[k] >= 0.0
    ensures Sum(x, i) <= Sum(x, j)
  {
    if i < j {
      SumMonotone(x, i, j - 1);
    }
  }

  lemma {:induction false} SumOfZeros(x: seq<real>, k: nat)
    requires k <= |x|
    requires forall i :: 0 <= i < |x| ==> x[i] == 0.0
    ensures Sum(x, k) == 0.0
  {
    if k > 0 {
      SumOfZeros(x, k - 1);
    }
  }

  /** The cumulative sums divided by the total. */
  function Normalise(S: seq<real>, last: real): (cdf: seq<real>)
    requires last != 0.0
    ensures |cdf| == |S|
    ensures forall i :: 0 <= i < |S| ==> cdf[i] * last == S[i]
  {
    seq(|S|, i requires 0 <= i < |S| => S[i] / last)
  }

  // ----- the search shared by all strategies -----

  /** The first index at or after `from` whose entry strictly exceeds `level`. */
  function FirstAbove(c: seq<real>, level: real, from: nat): (r: Option<nat>)
    requires from <= |c|
    ensures r.Some? ==> from <= r.value < |c| && c[r.value] > level
    ensures r.Some? ==> forall j :: from <= j < r.value ==> c[j] <= level
    ensures r.None? <==> forall j :: from <= j < |c| ==> c[j] <= level
    decreases |c| - from
  {
    if from == |c| then None
    else if c[from] > level then Some(from)
    else FirstAbove(c, level, from + 1)
  }

  /** Raising the level can only move the first exceeding index later. */
  lemma FirstAboveMonotone(c: seq<real>, l1: real, l2: real)
    requires l1 <= l2
    ensures FirstAbove(c, l2, 0).Some? ==>
              FirstAbove(c, l1, 0).Some? && FirstAbove(c, l1, 0).value <= FirstAbove(c, l2, 0).value
  {
  }

  /** `keepMantissaBits = i + 1 - nonMantissaBits` on a hit, 23 otherwise. */
  function KeepFromSearch(found: Option<nat>): int {
    match found
    case Some(i) => i + 1 - NonMantissaBits
    case None => MaxKeep
  }

  /** The final clamp to [1, 23] that every strategy applies. */
  function Clamp(keep: int): (nsb: int)
    ensures 1 <= nsb <= MaxKeep
    ensures 1 <= keep <= MaxKeep ==> nsb == keep
  {
    if keep < 1 then 1 else if keep > MaxKeep then MaxKeep else keep
  }

  lemma KeepFromSearchMonotone(a: Option<nat>, b: Option<nat>)
    requires b.Some? ==> a.Some? && a.value <= b.value
    ensures Clamp(KeepFromSearch(a)) <= Clamp(KeepFromSearch(b))
  {
  }

  // ----- get_keepbits (C and Python) -----

  /** `bitInfoMaxLast4`: the running maximum of -1e33 and M[28..31]. */
  function MaxLast4(M: Curve): (m: real)
    ensures m >= VeryNegative
    ensures forall i :: NBits - 4 <= i < NBits ==> M[i] <= m
    ensures m == VeryNegative || exists i :: NBits - 4 <= i < NBits && m == M[i]
  {
    RunningMax(M, NBits - 4, VeryNegative)
  }

  function RunningMax(M: Curve, i: nat, acc: real): (m: real)
    requires NBits - 4 <= i <= NBits
    ensures m >= acc
    ensures forall j :: i <= j < NBits ==> M[j] <= m
    ensures m == acc || exists j :: i <= j < NBits && m == M[j]
    decreases NBits - i
  {
    if i == NBits then acc
    else RunningMax(M, i + 1, if M[i] > acc then M[i] else acc)
  }

  /** The cleaning threshold `1.5 * bitInfoMaxLast4`. */
  function Threshold(M: Curve): real {
    1.5 * MaxLast4(M)
  }

  /** Entries strictly above the threshold are kept, all others become 0. */
  function CleanedAbove(M: seq<real>, threshold: real): (c: seq<real>)
    ensures |c| == |M|
    ensures forall i :: 0 <= i < |M| ==> (c[i] == M[i] && M[i] > threshold) || (c[i] == 0.0 && M[i] <= threshold)
  {
    seq(|M|, i requires 0 <= i < |M| => if M[i] > threshold then M[i] else 0.0)
  }

  /** When the last four entries are not all negative, none of them survives the
      cleaning: the threshold is 1.5 times their maximum. */
  lemma LastFourDropped(M: Curve)
    requires MaxLast4(M) >= 0.0
    ensures forall i :: NBits - 4 <= i < NBits ==> CleanedAbove(M, Threshold(M))[i] == 0.0
  {
  }

  /** `infoPerBitCleaned` after the prefix loop. */
  function CleanedCumulative(M: Curve): (S: seq<real>)
    ensures |S| == NBits
  {
    Cumulative(CleanedAbove(M, Threshold(M)))
  }

  /** The total of the cleaned curve, `infoPerBitCleaned[NBITS-1]` after the
      prefix loop. */
  function CleanedTotal(M: Curve): (t: real)
    ensures t == CleanedCumulative(M)[NBits - 1]
  {
    Sum(CleanedAbove(M, Threshold(M)), NBits)
  }

  function GetKeepbits(M: Curve, inflevel: real): (nsb: int)
    ensures 1 <= nsb <= MaxKeep
    ensures CleanedTotal(M) <= 0.0 ==> nsb == MaxKeep
    ensures (CleanedTotal(M) > 0.0 && FirstAbove(Normalise(CleanedCumulative(M), CleanedTotal(M)), inflevel, 0).None?)
              ==> nsb == MaxKeep
  {
    var S := CleanedCumulative(M);
    var last := S[NBits - 1];
    var keep := if last > 0.0 then KeepFromSearch(FirstAbove(Normalise(S, last), inflevel, 0)) else MaxKeep;
    Clamp(keep)
  }

  /** The first index whose cumulative sum exceeds `inflevel` times the total
      decides: the result is `clamp(i + 1 - 9, 1, 23)`. */
  lemma GetKeepbitsFromFirstHit(M: Curve, inflevel: real, i: nat)
    requires CleanedTotal(M) > 0.0 && i < NBits
    requires CleanedCumulative(M)[i] > inflevel * CleanedTotal(M)
    requires forall j :: 0 <= j < i ==> CleanedCumulative(M)[j] <= inflevel * CleanedTotal(M)
    ensures GetKeepbits(M, inflevel) == Clamp(i + 1 - NonMantissaBits)
  {
    ScaledFirstHit(CleanedCumulative(M), CleanedTotal(M), inflevel, i);
  }

  /** The first sum above `level * T` is the first cdf entry above `level`. */
  lemma ScaledFirstHit(S: seq<real>, T: real, level: real, i: nat)
    requires T > 0.0 && i < |S| && S[i] > level * T
    requires forall j :: 0 <= j < i ==> S[j] <= level * T
    ensures FirstAbove(Normalise(S, T), level, 0) == Some(i)
  {
    var cdf := Normalise(S, T);
    AboveIffScaled(cdf, S, T, level);
    FirstAboveIsFirst(cdf, level, i);
  }

  lemma FirstAboveIsFirst(c: seq<real>, level: real, i: nat)
    requires i < |c| && c[i] > level
    requires forall j :: 0 <= j < i ==> c[j] <= level
    ensures FirstAbove(c, level, 0) == Some(i)
  {
  }

  /** For a positive total, `S[i] / last > level` is `S[i] > level * last`. */
  lemma AboveIffScaled(cdf: seq<real>, S: seq<real>, last: real, level: real)
    requires last > 0.0 && last != 0.0 && |cdf| == |S|
    requires forall i :: 0 <= i < |S| ==> cdf[i] * last == S[i]
    ensures forall i :: 0 <= i < |S| ==> (cdf[i] > level <==> S[i] > level * last)
  {
    forall i | 0 <= i < |S|
      ensures cdf[i] > level <==> S[i] > level * last
    {
      ScaleStrict(cdf[i], level, last);
    }
  }

  lemma ScaleStrict(x: real, level: real, last: real)
    requires last > 0.0
    ensures x > level <==> x * last > level * last
  {
    if x > level {
      assert (x - level) * last > 0.0;
    } else {
      assert (level - x) * last >= 0.0;
    }
  }

  /** Asking for more information never keeps fewer bits, for every curve. */
  lemma GetKeepbitsMonotone(M: Curve, l1: real, l2: real)
    requires l1 <= l2
    ensures GetKeepbits(M, l1) <= GetKeepbits(M, l2)
  {
    var S := CleanedCumulative(M);
    var last := S[NBits - 1];
    if last > 0.0 {
      var cdf := Normalise(S, last);
      FirstAboveMonotone(cdf, l1, l2);
      KeepFromSearchMonotone(FirstAbove(cdf, l1, 0), FirstAbove(cdf, l2, 0));
    }
  }

  // ----- get_keepbits_monotonic (Python) -----

  /** `current_min` after step i: the minimum of M[9..i]. */
  function RunMin(M: Curve, i: nat): real
    requires NonMantissaBits <= i < NBits
  {
    if i == NonMantissaBits as nat then M[i]
    else var m := RunMin(M, i - 1); if M[i] < m then M[i] else m
  }

  lemma {:induction false} RunMinIsMinimum(M: Curve, i: nat)
    requires NonMantissaBits <= i < NBits
    ensures forall j :: NonMantissaBits <= j <= i ==> RunMin(M, i) <= M[j]
    ensures exists j :: NonMantissaBits <= j <= i && RunMin(M, i) == M[j]
  {
    if i > NonMantissaBits as nat {
      RunMinIsMinimum(M, i - 1);
    }
  }

  /** Whether step i raises the flag: its entry exceeds 1.5 times the running minimum. */
  function Rises(M: Curve, i: nat): nat
    requires NonMantissaBits <= i < NBits
  {
    if M[i] > RunMin(M, i) * 1.5 then 1 else 0
  }

  /** `flag` after step i (0 before step 9). */
  function Flag(M: Curve, i: nat): nat
    requires NonMantissaBits - 1 <= i < NBits
  {
    if i == (NonMantissaBits - 1) as nat then 0 else Flag(M, i - 1) + Rises(M, i)
  }

  lemma {:induction false} FlagMonotone(M: Curve, i: nat, j: nat)
    requires NonMantissaBits - 1 <= i <= j < NBits
    ensures Flag(M, i) <= Flag(M, j)
  {
    if i < j {
      FlagMonotone(M, i, j - 1);
    }
  }

  /** The cleaned curve of the monotonic strategy. */
  function MonotonicCleaned(M: Curve): (c: Curve)
    ensures forall i :: 0 <= i < NonMantissaBits ==> c[i] == M[i]
  {
    seq(32, i requires 0 <= i < 32 =>
      if i < NonMantissaBits then M[i] else if Flag(M, i) > 2 then 0.0 else M[i])
  }

  /** Once the flag has risen three times, every later significand entry is 0. */
  lemma ZeroedAfterThirdRise(M: Curve, i: nat, j: nat)
    requires NonMantissaBits <= i <= j < NBits && Flag(M, i) > 2
    ensures MonotonicCleaned(M)[j] == 0.0
  {
    FlagMonotone(M, i, j);
  }

  /** The cleaning loop of `get_keepbits_monotonic`, with `current_min` and
      `flag` carried from step to step. */
  method MonotonicCleanLoop(M: Curve) returns (c: seq<real>)
    ensures c == MonotonicCleaned(M)
  {
    c := seq(32, _ => 0.0);
    var flag: nat := 0;
    var currentMin := M[NonMantissaBits];
    var i := 0;
    while i < NBits
      invariant 0 <= i <= NBits && |c| == NBits
      invariant forall j :: 0 <= j < i ==> c[j] == MonotonicCleaned(M)[j]
      invariant i <= NonMantissaBits ==> flag == 0 && currentMin == M[NonMantissaBits]
      invariant i > NonMantissaBits ==> flag == Flag(M, i - 1) && currentMin == RunMin(M, i - 1)
    {
      if i < NonMantissaBits {
        c := c[i := M[i]];
      } else {
        currentMin := if M[i] < currentMin then M[i] else currentMin;
        assert currentMin == RunMin(M, i);
        if M[i] > currentMin * 1.5 {
          flag := flag + 1;
        }
        assert flag == Flag(M, i);
        c := c[i := if flag > 2 then 0.0 else M[i]];
      }
      i := i + 1;
    }
  }

  function MonotonicTotal(M: Curve): real {
    Sum(MonotonicCleaned(M), NBits)
  }

  /** The curve searched by the monotonic strategy: the cumulative sums,
      normalised only when their total is positive. */
  function MonotonicCdf(M: Curve): (cdf: seq<real>)
    ensures |cdf| == NBits
    ensures MonotonicTotal(M) <= 0.0 ==> cdf == Cumulative(MonotonicCleaned(M))
  {
    var S := Cumulative(MonotonicCleaned(M));
    if S[NBits - 1] > 0.0 then Normalise(S, S[NBits - 1]) else S
  }

  function GetKeepbitsMonotonic(M: Curve, inflevel: real): (nsb: int)
    ensures 1 <= nsb <= MaxKeep
    ensures FirstAbove(MonotonicCdf(M), inflevel, 0).None? ==> nsb == MaxKeep
  {
    Clamp(KeepFromSearch(FirstAbove(MonotonicCdf(M), inflevel, 0)))
  }

  lemma GetKeepbitsMonotonicMonotone(M: Curve, l1: real, l2: real)
    requires l1 <= l2
    ensures GetKeepbitsMonotonic(M, l1) <= GetKeepbitsMonotonic(M, l2)
  {
    FirstAboveMonotone(MonotonicCdf(M), l1, l2);
    KeepFromSearchMonotone(FirstAbove(MonotonicCdf(M), l1, 0), FirstAbove(MonotonicCdf(M), l2, 0));
  }

  /** The two strategies part ways on an information-free curve: `get_keepbits`
      falls back to 23, while the monotonic strategy still searches the
      (all-zero) cumulative sums and a negative level is exceeded at once. */
  lemma EmptyCurveStrategiesDiffer()
    ensures GetKeepbits(seq(32, _ => 0.0), -1.0) == MaxKeep
    ensures GetKeepbitsMonotonic(seq(32, _ => 0.0), -1.0) == 1
  {
    var Z: Curve := seq(32, _ => 0.0);
    var c := CleanedAbove(Z, Threshold(Z));
    SumOfZeros(c, NBits);
    var mc := MonotonicCleaned(Z);
    forall i | 0 <= i < NBits
      ensures mc[i] == 0.0
    {
    }
    SumOfZeros(mc, NBits);
    SumOfZeros(mc, 1);
    assert MonotonicCdf(Z)[0] == 0.0;
  }

  // ----- get_keepbits_gradient (Python) -----

  /** Negative entries are dropped (`bit_info[i] >= 0` is kept). */
  function NonNegativePart(M: seq<real>): (c: seq<real>)
    ensures |c| == |M|
    ensures forall i :: 0 <= i < |M| ==> c[i] >= 0.0 && (M[i] >= 0.0 ==> c[i] == M[i])
  {
    seq(|M|, i requires 0 <= i < |M| => if M[i] >= 0.0 then M[i] else 0.0)
  }

  /** `lastBit`: the last cumulative sum of the cleaned curve, its total. */
  function GradientTotal(M: Curve): real {
    Sum(NonNegativePart(M), NBits)
  }

  /** `gradient_array[i] = cdf[i+1] - cdf[i]` for i in 0..30. */
  function Gradient(cdf: seq<real>): (g: seq<real>)
    requires |cdf| == NBits
    ensures |g| == NBits - 1
  {
    seq(NBits - 1, i requires 0 <= i < NBits - 1 => cdf[i + 1] - cdf[i])
  }

  /** The cleaned cumulative fraction never decreases, so no gradient entry is
      negative. */
  lemma GradientNonNegative(M: Curve)
    requires GradientTotal(M) > 0.0
    ensures forall i :: 0 <= i < NBits - 1 ==>
              Gradient(Normalise(Cumulative(NonNegativePart(M)), GradientTotal(M)))[i] >= 0.0
  {
    var x := NonNegativePart(M);
    var T := GradientTotal(M);
    var cdf := Normalise(Cumulative(x), T);
    forall i | 0 <= i < NBits - 1
      ensures cdf[i + 1] - cdf[i] >= 0.0
    {
      SumMonotone(x, i + 1, i + 2);
      DivideKeepsOrder(Sum(x, i + 1), Sum(x, i + 2), T);
    }
  }

  lemma DivideKeepsOrder(a: real, b: real, t: real)
    requires t > 0.0 && a <= b
    ensures a / t <= b / t
  {
    assert b / t - a / t == (b - a) / t;
  }

  /** The stopping test at index i: a flat gradient and enough accumulated
      information. `CurrentBit_Sum` at step i is the raw sum of M[0..i]. */
  predicate GradientStops(M: Curve, g: seq<real>, tolerance: real, bound: real, i: nat)
    requires i < |g| && i < NBits
  {
    g[i] < tolerance && Sum(M, i + 1) >= bound
  }

  /** The search `for i in range(9, len(gradient_array) - 1)`: indices 9..29. */
  function GradientSearch(M: Curve, g: seq<real>, tolerance: real, bound: real, i: nat): (r: Option<nat>)
    requires |g| == NBits - 1 && NonMantissaBits <= i <= NBits - 2
    ensures r.Some? ==> i <= r.value < NBits - 2 && GradientStops(M, g, tolerance, bound, r.value)
    ensures r.Some? ==> forall j :: i <= j < r.value ==> !GradientStops(M, g, tolerance, bound, j)
    ensures r.None? ==> forall j :: i <= j < NBits - 2 ==> !GradientStops(M, g, tolerance, bound, j)
    decreases NBits - i
  {
    if i == NBits - 2 then None
    else if GradientStops(M, g, tolerance, bound, i) then Some(i)
    else GradientSearch(M, g, tolerance, bound, i + 1)
  }

  /** The loop as written, accumulating `CurrentBit_Sum` from the sign and
      exponent sum and stopping at the first hit. */
  method GradientSearchLoop(M: Curve, g: seq<real>, tolerance: real, bound: real) returns (infbits: nat)
    requires |g| == NBits - 1
    ensures infbits == match GradientSearch(M, g, tolerance, bound, NonMantissaBits as nat)
                       case Some(i) => i
                       case None => NBits - 1
  {
    var currentSum := Sum(M, NonMantissaBits as nat);
    infbits := NBits - 1;
    var i: nat := NonMantissaBits as nat;
    while i < |g| - 1
      invariant NonMantissaBits <= i <= NBits - 2
      invariant currentSum == Sum(M, i)
      invariant GradientSearch(M, g, tolerance, bound, NonMantissaBits as nat) == GradientSearch(M, g, tolerance, bound, i)
    {
      currentSum := currentSum + M[i];
      if g[i] < tolerance && currentSum >= bound {
        infbits := i;
        return;
      }
      i := i + 1;
    }
  }

  function GetKeepbitsGradient(M: Curve, threshold: real, tolerance: real): (nsb: int)
    ensures 1 <= nsb <= MaxKeep
    ensures GradientTotal(M) <= 0.0 ==> nsb == MaxKeep
  {
    var keep :=
      if GradientTotal(M) > 0.0 then
        match GradientSearch(M, GradientOf(M), tolerance, GradientBound(M, threshold), NonMantissaBits as nat)
        case Some(i) => i + 1 - NonMantissaBits
        case None => (NBits - 1) + 1 - NonMantissaBits
      else MaxKeep;
    Clamp(keep)
  }

  /** The gradient of the normalised cleaned cumulative sums, as searched by
      the gradient strategy when the cleaned total is positive. */
  function GradientOf(M: Curve): (g: seq<real>)
    requires GradientTotal(M) > 0.0
    ensures |g| == NBits - 1
  {
    Gradient(Normalise(Cumulative(NonNegativePart(M)), GradientTotal(M)))
  }

  /** `threshold * infSum`, the information the running sum must reach; infSum
      is the raw total, negative entries included. */
  function GradientBound(M: Curve, threshold: real): real {
    threshold * Sum(M, NBits)
  }

  /** The first index in 9..29 where the gradient is below the tolerance and the
      raw running sum reaches `threshold` times the raw total decides: the
      result is `clamp(i + 1 - 9, 1, 23)`. */
  lemma GetKeepbitsGradientFromFirstStop(M: Curve, threshold: real, tolerance: real, i: nat)
    requires GradientTotal(M) > 0.0 && NonMantissaBits <= i < NBits - 2
    requires GradientStops(M, GradientOf(M), tolerance, GradientBound(M, threshold), i)
    requires var g, bound := GradientOf(M), GradientBound(M, threshold);
             forall j :: NonMantissaBits <= j < i ==> !GradientStops(M, g, tolerance, bound, j)
    ensures GetKeepbitsGradient(M, threshold, tolerance) == Clamp(i + 1 - NonMantissaBits)
  {
    var g, bound := GradientOf(M), GradientBound(M, threshold);
    var r := GradientSearch(M, g, tolerance, bound, NonMantissaBits as nat);
    assert GradientStops(M, g, tolerance, bound, i);
    assert r == Some(i);
  }

  /** Without a stopping index the default `infbits = 31` keeps all 23 bits. */
  lemma GetKeepbitsGradientWithoutStop(M: Curve, threshold: real, tolerance: real)
    requires GradientTotal(M) > 0.0
    requires var g, bound := GradientOf(M), GradientBound(M, threshold);
             forall j :: NonMantissaBits <= j < NBits - 2 ==> !GradientStops(M, g, tolerance, bound, j)
    ensures GetKeepbitsGradient(M, threshold, tolerance) == MaxKeep
  {
    var g, bound := GradientOf(M), GradientBound(M, threshold);
    assert GradientSearch(M, g, tolerance, bound, NonMantissaBits as nat).None?;
  }

  /** The search stops at 29 at the latest, so a hit keeps at most 21 bits and
      22 significand bits are never chosen. */
  lemma GradientNever22(M: Curve, threshold: real, tolerance: real)
    ensures GetKeepbitsGradient(M, threshold, tolerance) <= 21 || GetKeepbitsGradient(M, threshold, tolerance) == MaxKeep
  {
  }
}
