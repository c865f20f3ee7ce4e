/** Bit-pair contingency tables and the per-bit mutual-information curve
    (src/bitrounding_bitinfo.c, `bitpair_count_kernel`, `bitpair_count`,
    `mutual_information`, `set_zero_insignificant`, `bitinformation`, and their
    twins in bit_rounding.py). For each of the 32 bit positions the table holds a
    2x2 count of the (bit of a, bit of b) pairs; row 0 is the most significant
    bit (the sign), row 31 the least significant. */
module BitInformation {
  import opened Float32

  const NBits: nat := 32
  /** The confidence `mutual_information` passes to the free-entropy bound. */
  const Confidence: real := 0.99

  /** One 2x2 cell group `C[row][j][k]`: how often bit j of a met bit k of b. */
  datatype Counts = Counts(c00: nat, c01: nat, c10: nat, c11: nat) {
    function Total(): nat {
      c00 + c01 + c10 + c11
    }

    function Cell(j: nat, k: nat): nat
      requires j <= 1 && k <= 1
    {
      if j == 0 && k == 0 then c00
      else if j == 0 then c01
      else if k == 0 then c10
      else c11
    }

    /** `C[row][j][k] += 1`. */
    function Inc(j: nat, k: nat): (r: Counts)
      requires j <= 1 && k <= 1
      ensures r.Cell(j, k) == Cell(j, k) + 1
      ensures forall j', k' :: j' <= 1 && k' <= 1 && !(j' == j && k' == k) ==> r.Cell(j', k') == Cell(j', k')
      ensures r.Total() == Total() + 1
    {
      if j == 0 && k == 0 then this.(c00 := c00 + 1)
      else if j == 0 then this.(c01 := c01 + 1)
      else if k == 0 then this.(c10 := c10 + 1)
      else this.(c11 := c11 + 1)
    }
  }

  const NoCounts: Counts := Counts(0, 0, 0, 0)

  /** `BitpairCounters`: one cell group per bit position. */
  type Table = t: seq<Counts> | |t| == NBits witness seq(32, _ => Counts(0, 0, 0, 0))

  function EmptyTable(): Table {
    seq(32, _ => NoCounts)
  }

  /** The bit that row p of a table describes: bit 31 - p of the word. */
  function BitAtRow(w: bv32, p: nat): (b: nat)
    requires p < NBits
    ensures b <= 1
  {
    Bit(w, (31 - p) as bv32)
  }

  /** Reference form of one kernel call: every row gains exactly one count, in
      the cell named by the two words' bits at that row. */
  function AddPair(t: Table, a: bv32, b: bv32): Table {
    seq(32, p requires 0 <= p < 32 => t[p].Inc(BitAtRow(a, p), BitAtRow(b, p)))
  }

  lemma AddPairIncrementsOneCell(t: Table, a: bv32, b: bv32, p: nat)
    requires p < NBits
    ensures AddPair(t, a, b)[p].Cell(BitAtRow(a, p), BitAtRow(b, p)) == t[p].Cell(BitAtRow(a, p), BitAtRow(b, p)) + 1
    ensures forall j, k :: j <= 1 && k <= 1 && !(j == BitAtRow(a, p) && k == BitAtRow(b, p)) ==>
              AddPair(t, a, b)[p].Cell(j, k) == t[p].Cell(j, k)
    ensures AddPair(t, a, b)[p].Total() == t[p].Total() + 1
  {
  }

  lemma MaskedBit(a: bv32, mask: bv32, i: bv32)
    requires i < 32 && mask == 1 << i
    ensures ((a & mask) >> i) as nat == Bit(a, i)
  {
  }

  /** `(a & mask) >> i` with `mask == 1 << i` is the bit of row 31 - i. */
  function MaskedBitAtRow(a: bv32, mask: bv32, i: bv32, n: nat): (j: nat)
    requires n < NBits && i == n as bv32 && mask == 1 << i
    ensures j == BitAtRow(a, 31 - n)
  {
    MaskedBit(a, mask, i);
    ((a & mask) >> i) as nat
  }

  /** `bitpair_count_kernel`: walks i = 0..31 from the least significant bit,
      extracting bit i of both words with the mask `1 << i` (the source keeps the
      mask in a variable shifted left once per step) and counting it in row
      `NBITS - i - 1`. */
  method PairKernel(t: Table, a: bv32, b: bv32) returns (r: Table)
    ensures r == AddPair(t, a, b)
  {
    r := t;
    var n: nat := 0;
    while n < NBits
      invariant n <= NBits
      invariant forall p :: 0 <= p < NBits ==>
        r[p] == if 31 - p < n then t[p].Inc(BitAtRow(a, p), BitAtRow(b, p)) else t[p]
    {
      var i: bv32 := n as bv32;
      var mask: bv32 := 1 << i;
      var j := MaskedBitAtRow(a, mask, i, n);
      var k := MaskedBitAtRow(b, mask, i, n);
      r := r[NBits - n - 1 := r[NBits - n - 1].Inc(j, k)];
      n := n + 1;
    }
  }

  /** `bitpair_count` over the first n pairs (A[i], B[i]). Every row of the
      result accounts for each pair exactly once. */
  function BitpairCount(A: seq<bv32>, B: seq<bv32>, n: nat): (t: Table)
    requires n <= |A| && n <= |B|
    ensures forall p :: 0 <= p < NBits ==> t[p].Total() == n
  {
    if n == 0 then EmptyTable()
    else AddPair(BitpairCount(A, B, n - 1), A[n - 1], B[n - 1])
  }

  /** The counting loop of `bitpair_count`, one kernel call per pair. */
  method BitpairCountLoop(A: seq<bv32>, B: seq<bv32>, n: nat) returns (t: Table)
    requires n <= |A| && n <= |B|
    ensures t == BitpairCount(A, B, n)
  {
    t := EmptyTable();
    for i := 0 to n
      invariant t == BitpairCount(A, B, i)
    {
      t := PairKernel(t, A[i], B[i]);
    }
  }

  /** Reference count: how many of the first n pairs have bits (j, k) at row p. */
  function CellCount(A: seq<bv32>, B: seq<bv32>, n: nat, p: nat, j: nat, k: nat): nat
    requires n <= |A| && n <= |B| && p < NBits
  {
    if n == 0 then 0
    else CellCount(A, B, n - 1, p, j, k)
         + (if BitAtRow(A[n - 1], p) == j && BitAtRow(B[n - 1], p) == k then 1 else 0)
  }

  /** Every cell of the table is the number of pairs with that bit combination. */
  lemma {:induction false} BitpairCountCells(A: seq<bv32>, B: seq<bv32>, n: nat, p: nat, j: nat, k: nat)
    requires n <= |A| && n <= |B| && p < NBits && j <= 1 && k <= 1
    ensures BitpairCount(A, B, n)[p].Cell(j, k) == CellCount(A, B, n, p, j, k)
  {
    if n > 0 {
      BitpairCountCells(A, B, n - 1, p, j, k);
      AddPairIncrementsOneCell(BitpairCount(A, B, n - 1), A[n - 1], B[n - 1], p);
    }
  }

  /** How many of the first n words have a set bit at row p. */
  function OnesAt(A: seq<bv32>, n: nat, p: nat): nat
    requires n <= |A| && p < NBits
  {
    if n == 0 then 0 else OnesAt(A, n - 1, p) + BitAtRow(A[n - 1], p)
  }

  /** The row and column marginals of a row are the set-bit counts of A and B. */
  lemma BitpairCountMarginals(A: seq<bv32>, B: seq<bv32>, n: nat, p: nat)
    requires n <= |A| && n <= |B| && p < NBits
    ensures BitpairCount(A, B, n)[p].c10 + BitpairCount(A, B, n)[p].c11 == OnesAt(A, n, p)
    ensures BitpairCount(A, B, n)[p].c01 + BitpairCount(A, B, n)[p].c11 == OnesAt(B, n, p)
  {
    BitpairCountCells(A, B, n, p, 1, 0);
    BitpairCountCells(A, B, n, p, 1, 1);
    BitpairCountCells(A, B, n, p, 0, 1);
    CellsSumToOnes(A, B, n, p);
  }

  lemma {:induction false} CellsSumToOnes(A: seq<bv32>, B: seq<bv32>, n: nat, p: nat)
    requires n <= |A| && n <= |B| && p < NBits
    ensures CellCount(A, B, n, p, 1, 0) + CellCount(A, B, n, p, 1, 1) == OnesAt(A, n, p)
    ensures CellCount(A, B, n, p, 0, 1) + CellCount(A, B, n, p, 1, 1) == OnesAt(B, n, p)
  {
    if n > 0 {
      CellsSumToOnes(A, B, n - 1, p);
    }
  }

  /** `bitinformation` counts the n - 1 adjacent pairs (A[i], A[i+1]). */
  function AdjacentCounts(A: seq<bv32>): (t: Table)
    requires |A| >= 1
    ensures forall p :: 0 <= p < NBits ==> t[p].Total() == |A| - 1
  {
    BitpairCount(A, A[1..], |A| - 1)
  }

  /** Reference count over adjacent pairs. */
  function AdjacentCellCount(A: seq<bv32>, m: nat, p: nat, j: nat, k: nat): nat
    requires m < |A| && p < NBits
  {
    if m == 0 then 0
    else AdjacentCellCount(A, m - 1, p, j, k)
         + (if BitAtRow(A[m - 1], p) == j && BitAtRow(A[m], p) == k then 1 else 0)
  }

  lemma {:induction false} AdjacentCountsCells(A: seq<bv32>, p: nat, j: nat, k: nat)
    requires |A| >= 1 && p < NBits && j <= 1 && k <= 1
    ensures AdjacentCounts(A)[p].Cell(j, k) == AdjacentCellCount(A, |A| - 1, p, j, k)
  {
    BitpairCountCells(A, A[1..], |A| - 1, p, j, k);
    ShiftedCellCount(A, |A| - 1, p, j, k);
  }

  lemma {:induction false} ShiftedCellCount(A: seq<bv32>, m: nat, p: nat, j: nat, k: nat)
    requires m < |A| && p < NBits
    ensures CellCount(A, A[1..], m, p, j, k) == AdjacentCellCount(A, m, p, j, k)
  {
    if m > 0 {
      ShiftedCellCount(A, m - 1, p, j, k);
      assert A[1..][m - 1] == A[m];
    }
  }

  /** `P[j][k] = C[row][j][k] / nelements`. */
  datatype Probs = Probs(p00: real, p01: real, p10: real, p11: real) {
    function Sum(): real {
      p00 + p01 + p10 + p11
    }
  }

  function ProbsOf(c: Counts, nelements: nat): (P: Probs)
    requires nelements > 0
    ensures P.p00 >= 0.0 && P.p01 >= 0.0 && P.p10 >= 0.0 && P.p11 >= 0.0
    ensures P.Sum() * nelements as real == c.Total() as real
  {
    var n := nelements as real;
    Probs(c.c00 as real / n, c.c01 as real / n, c.c10 as real / n, c.c11 as real / n)
  }

  /** With the pair count as denominator, each row is a probability distribution. */
  lemma ProbsSumToOne(c: Counts, nelements: nat)
    requires nelements > 0 && c.Total() == nelements
    ensures ProbsOf(c, nelements).Sum() == 1.0
  {
    var n := nelements as real;
    var a, b, e, d := c.c00 as real, c.c01 as real, c.c10 as real, c.c11 as real;
    assert ProbsOf(c, nelements).Sum() == a / n + b / n + e / n + d / n;
    QuotientSum(a, b, e, d, n);
    assert a + b + e + d == n;
    SelfQuotient(n);
  }

  lemma SelfQuotient(n: real)
    requires n > 0.0
    ensures n / n == 1.0
  {
  }

  lemma QuotientSum(a: real, b: real, c: real, d: real, n: real)
    requires n > 0.0
    ensures a / n + b / n + c / n + d / n == (a + b + c + d) / n
  {
  }

  /** `set_zero_insignificant`: entries not above the free-entropy bound become
      0, all others are kept. */
  function SetZeroInsignificant(H: seq<real>, hfree: real): (r: seq<real>)
    ensures |r| == |H|
    ensures forall i :: 0 <= i < |H| && H[i] <= hfree ==> r[i] == 0.0
    ensures forall i :: 0 <= i < |H| && H[i] > hfree ==> r[i] == H[i]
  {
    seq(|H|, i requires 0 <= i < |H| => if H[i] <= hfree then 0.0 else H[i])
  }

  /** After the filter every entry is 0 or significant, so filtering again with
      the same bound changes nothing. */
  lemma SetZeroInsignificantIdempotent(H: seq<real>, hfree: real)
    ensures forall i :: 0 <= i < |H| ==>
              SetZeroInsignificant(H, hfree)[i] == 0.0 || SetZeroInsignificant(H, hfree)[i] > hfree
    ensures SetZeroInsignificant(SetZeroInsignificant(H, hfree), hfree) == SetZeroInsignificant(H, hfree)
  {
  }

  /** The kernel applied to each normalised row, before the filter. */
  function RawInformation(t: Table, nelements: nat, mi: Probs -> real): (H: seq<real>)
    requires nelements > 0
    ensures |H| == NBits
  {
    seq(32, p requires 0 <= p < 32 => mi(ProbsOf(t[p], nelements)))
  }

  /** `mutual_information`: the per-row information of the normalised table,
      filtered with the free-entropy bound for `nelements` at confidence 0.99.
      `mi` is `mutual_information_kernel` and `freeEntropy` is
      `binom_free_entropy`, both floating-point numerics left as parameters. */
  function MutualInformation(t: Table, nelements: nat, mi: Probs -> real, freeEntropy: (nat, real) -> real): (M: seq<real>)
    requires nelements > 0
    ensures |M| == NBits
    ensures forall p :: 0 <= p < NBits ==>
              M[p] == (if mi(ProbsOf(t[p], nelements)) <= freeEntropy(nelements, Confidence)
                       then 0.0 else mi(ProbsOf(t[p], nelements)))
  {
    SetZeroInsignificant(RawInformation(t, nelements, mi), freeEntropy(nelements, Confidence))
  }

  /** C `bitinformation(A, n)`: `mutual_information(A, A + 1, n - 1)`. */
  function Bitinformation(A: seq<bv32>, mi: Probs -> real, freeEntropy: (nat, real) -> real): (M: seq<real>)
    requires |A| >= 2
    ensures |M| == NBits
    ensures forall p :: 0 <= p < NBits ==> M[p] == 0.0 || M[p] > freeEntropy(|A| - 1, Confidence)
  {
    MutualInformation(AdjacentCounts(A), |A| - 1, mi, freeEntropy)
  }

  /** Every row handed to the information kernel is a probability distribution. */
  lemma BitinformationRowsAreDistributions(A: seq<bv32>, p: nat)
    requires |A| >= 2 && p < NBits
    ensures ProbsOf(AdjacentCounts(A)[p], |A| - 1).Sum() == 1.0
  {
    ProbsSumToOne(AdjacentCounts(A)[p], |A| - 1);
  }

  // ----- Python `bitpair_count` as written -----

  /** `B` padded to length n with `beyond`, the word that lies after the end of
      the view `data[1:]` in memory. */
  function PadWith(B: seq<bv32>, n: nat, beyond: bv32): (r: seq<bv32>)
    requires |B| <= n
    ensures |r| == n && r[..|B|] == B
  {
    B + seq(n - |B|, _ => beyond)
  }

  /** Python `bitpair_count(A, B)` loops over `len(A)` pairs. `bitinformation`
      calls it with `data` and `data[1:]`, one element shorter, so the last
      iteration reads `B[n - 1]` past the end of the view (numba does not check
      bounds by default). */
  function PyAdjacentCountsAsWritten(data: seq<bv32>, beyond: bv32): Table
    requires |data| >= 1
  {
    BitpairCount(data, PadWith(data[1..], |data|, beyond), |data|)
  }

  /** As written, each row counts n pairs while the probabilities divide by
      n - 1: the last pair involves the out-of-range word and the rows sum to
      n / (n - 1), not 1. */
  lemma PyAdjacentCountsOvercount(data: seq<bv32>, beyond: bv32, p: nat)
    requires |data| >= 2 && p < NBits
    ensures PyAdjacentCountsAsWritten(data, beyond)[p].Total() == |data|
    ensures ProbsOf(PyAdjacentCountsAsWritten(data, beyond)[p], |data| - 1).Sum() > 1.0
  {
    OvercountRow(PyAdjacentCountsAsWritten(data, beyond)[p], |data| - 1);
  }

  /** A row holding one pair more than the divisor sums above 1. */
  lemma OvercountRow(c: Counts, n: nat)
    requires n >= 1 && c.Total() == n + 1
    ensures ProbsOf(c, n).Sum() > 1.0
  {
    AboveOne(ProbsOf(c, n).Sum(), n as real);
  }

  lemma AboveOne(s: real, m: real)
    requires m >= 1.0 && s * m == m + 1.0
    ensures s > 1.0
  {
  }

  /** Counting the first n pairs only looks at the first n words of A and B. */
  lemma {:induction false} BitpairCountPrefix(A: seq<bv32>, B: seq<bv32>, A': seq<bv32>, B': seq<bv32>, n: nat)
    requires n <= |A| && n <= |B| && n <= |A'| && n <= |B'|
    requires A[..n] == A'[..n] && B[..n] == B'[..n]
    ensures BitpairCount(A, B, n) == BitpairCount(A', B', n)
  {
    if n > 0 {
      assert A[n - 1] == A[..n][n - 1] && A'[n - 1] == A'[..n][n - 1];
      assert B[n - 1] == B[..n][n - 1] && B'[n - 1] == B'[..n][n - 1];
      assert A[..n - 1] == A[..n][..n - 1] && A'[..n - 1] == A'[..n][..n - 1];
      assert B[..n - 1] == B[..n][..n - 1] && B'[..n - 1] == B'[..n][..n - 1];
      BitpairCountPrefix(A, B, A', B', n - 1);
    }
  }

  /** As written, the Python table is the C table of the n - 1 adjacent pairs
      with one more pair counted: the last word against the word past the
      view. */
  lemma PyAdjacentCountsExtraPair(data: seq<bv32>, beyond: bv32)
    requires |data| >= 2
    ensures PyAdjacentCountsAsWritten(data, beyond) == AddPair(AdjacentCounts(data), data[|data| - 1], beyond)
  {
    var n := |data|;
    var padded := PadWith(data[1..], n, beyond);
    assert padded[n - 1] == beyond;
    assert padded[..n - 1] == data[1..][..n - 1];
    BitpairCountPrefix(data, padded, data, data[1..], n - 1);
  }

  /** Corrected Python table: `bitpair_count(data[:-1], data[1:])`, one pair
      per neighbour. */
  function PyCorrectedCounts(data: seq<bv32>): Table
    requires |data| >= 1
  {
    BitpairCount(data[..|data| - 1], data[1..], |data| - 1)
  }

  /** The corrected Python table is the C table of `bitinformation`. */
  lemma PyCorrectedCountsMatchC(data: seq<bv32>)
    requires |data| >= 1
    ensures PyCorrectedCounts(data) == AdjacentCounts(data)
  {
    var n := |data| - 1;
    assert data[..n][..n] == data[..n];
    BitpairCountPrefix(data[..n], data[1..], data, data[1..], n);
  }

  /** Corrected: counting only the n - 1 pairs that exist gives rows that sum to
      exactly 1. */
  lemma PyAdjacentCountsCorrected(data: seq<bv32>, p: nat)
    requires |data| >= 2 && p < NBits
    ensures ProbsOf(PyCorrectedCounts(data)[p], |data| - 1).Sum() == 1.0
  {
    PyCorrectedCountsMatchC(data);
    BitinformationRowsAreDistributions(data, p);
  }

  // ----- Python `bitinformation` -----

  /** Python `bitinformation` as written: an all-zero curve below two elements,
      otherwise the information of the over-counting table, still divided by
      n - 1. */
  function PyBitinformation(A: seq<bv32>, beyond: bv32, mi: Probs -> real, freeEntropy: (nat, real) -> real): (M: seq<real>)
    ensures |M| == NBits
    ensures |A| < 2 ==> forall p :: 0 <= p < NBits ==> M[p] == 0.0
    ensures |A| >= 2 ==> forall p :: 0 <= p < NBits ==> M[p] == 0.0 || M[p] > freeEntropy(|A| - 1, Confidence)
  {
    if |A| < 2 then seq(32, _ => 0.0)
    else MutualInformation(PyAdjacentCountsAsWritten(A, beyond), |A| - 1, mi, freeEntropy)
  }

  /** The as-written Python curve is the C computation on the C table with the
      extra pair added. */
  lemma PyBitinformationExtraPair(A: seq<bv32>, beyond: bv32, mi: Probs -> real, freeEntropy: (nat, real) -> real)
    requires |A| >= 2
    ensures PyBitinformation(A, beyond, mi, freeEntropy) ==
            MutualInformation(AddPair(AdjacentCounts(A), A[|A| - 1], beyond), |A| - 1, mi, freeEntropy)
  {
    PyAdjacentCountsExtraPair(A, beyond);
  }

  /** Corrected Python `bitinformation`, counting `data[:-1]` against `data[1:]`. */
  function PyBitinformationCorrected(A: seq<bv32>, mi: Probs -> real, freeEntropy: (nat, real) -> real): (M: seq<real>)
    ensures |M| == NBits
    ensures |A| < 2 ==> forall p :: 0 <= p < NBits ==> M[p] == 0.0
  {
    if |A| < 2 then seq(32, _ => 0.0)
    else MutualInformation(PyCorrectedCounts(A), |A| - 1, mi, freeEntropy)
  }

  /** From two elements on, the corrected Python curve is the C curve. */
  lemma PyBitinformationCorrectedMatchesC(A: seq<bv32>, mi: Probs -> real, freeEntropy: (nat, real) -> real)
    requires |A| >= 2
    ensures PyBitinformationCorrected(A, mi, freeEntropy) == Bitinformation(A, mi, freeEntropy)
  {
    PyCorrectedCountsMatchC(A);
  }
}
