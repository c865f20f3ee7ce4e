/** The rounding pipeline of src/netcdf_bit_rounding.c: `analyze_and_get_nsb`
    on a copy of the data, then `bitround` with the chosen number of significand
    bits, applied per variable and, for variables of rank 3 or more, per chunk
    of the last two dimensions. Python `analyze_and_get_nsb` (bit_rounding.py)
    takes the same decision on its own, over-counting, information curve. */
module Pipeline {
  import opened Float32
  import opened Wrappers
  import opened BitRound
  import SignedExponent
  import BitInformation
  import KeepBits
  import opened Dims

  /** NC_FILL_FLOAT, 9.9692099683868690e+36f, the netCDF default fill value. */
  const NcFillFloat: bv32 := 0x7CF0_0000

  /** The inputs of the analysis that the buffer does not carry: the
      information level, the strategy switch, and the two floating-point
      numerics left as parameters (the information kernel and the free-entropy
      bound). */
  datatype Analysis = Analysis(
    inflevel: real,
    monotonic: bool,
    mi: BitInformation.Probs -> real,
    freeEntropy: (nat, real) -> real)

  /** The curve handed to the keep-bits decision for a buffer of at least two
      words: the information of the signed-exponent transformed copy. */
  function InformationCurve(v: seq<bv32>, a: Analysis): (M: KeepBits.Curve)
    requires |v| >= 2
  {
    BitInformation.Bitinformation(SignedExponent.Transform(v), a.mi, a.freeEntropy)
  }

  /** C `analyze_and_get_nsb`. `copyAllocated` says whether `malloc` of the
      copy succeeded. The C `get_keepbits_monotonic` is not part of this model;
      the monotonic branch uses the Python strategy. */
  function AnalyzeAndGetNsb(v: seq<bv32>, a: Analysis, copyAllocated: bool): (nsb: int)
    ensures |v| < 2 ==> nsb == 1
    ensures |v| >= 2 && !copyAllocated ==> nsb == -1
    ensures |v| >= 2 && copyAllocated ==> 1 <= nsb <= 23
    ensures |v| >= 2 && copyAllocated && !a.monotonic ==>
              nsb == KeepBits.GetKeepbits(InformationCurve(v, a), a.inflevel)
  {
    if |v| < 2 then 1
    else if !copyAllocated then -1
    else KeepDecision(InformationCurve(v, a), a)
  }

  /** The strategy the analysis selects: monotonic or plain `get_keepbits`. */
  function KeepDecision(M: KeepBits.Curve, a: Analysis): (nsb: int)
    ensures 1 <= nsb <= 23
  {
    if a.monotonic then KeepBits.GetKeepbitsMonotonic(M, a.inflevel)
    else KeepBits.GetKeepbits(M, a.inflevel)
  }

  /** The C function on a buffer: the transform runs on a fresh copy, and the
      caller's array is not in the frame, so it is left untouched. */
  method AnalyzeBuffer(v: array<bv32>, a: Analysis, copyAllocated: bool) returns (nsb: int)
    ensures nsb == AnalyzeAndGetNsb(v[..], a, copyAllocated)
  {
    if v.Length < 2 {
      return 1;
    }
    if !copyAllocated {
      return -1;
    }
    var copy := new bv32[v.Length](i requires 0 <= i < v.Length reads v => v[i]);
    assert copy[..] == v[..];
    SignedExponent.TransformInPlace(copy);
    var M := BitInformation.Bitinformation(copy[..], a.mi, a.freeEntropy);
    if a.monotonic {
      nsb := KeepBits.GetKeepbitsMonotonic(M, a.inflevel);
    } else {
      nsb := KeepBits.GetKeepbits(M, a.inflevel);
    }
  }

  /** Python `analyze_and_get_nsb` as written: 1 below two elements,
      otherwise the decision on the Python curve of the transformed copy.
      `beyond` is the word that lies after the copy in memory, which the
      as-written pair count reads. */
  function PyAnalyzeAndGetNsb(v: seq<bv32>, a: Analysis, beyond: bv32): (nsb: int)
    ensures |v| < 2 ==> nsb == 1
    ensures 1 <= nsb <= 23
  {
    if |v| < 2 then 1
    else KeepDecision(BitInformation.PyBitinformation(SignedExponent.Transform(v), beyond, a.mi, a.freeEntropy), a)
  }

  /** The information curve of the C pair table of T with one extra pair
      counted: the last word of T against `beyond`. */
  function ExtraPairCurve(T: seq<bv32>, a: Analysis, beyond: bv32): (M: KeepBits.Curve)
    requires |T| >= 2
  {
    BitInformation.MutualInformation(
      BitInformation.AddPair(BitInformation.AdjacentCounts(T), T[|T| - 1], beyond), |T| - 1, a.mi, a.freeEntropy)
  }

  /** The as-written Python decision is the C decision taken on the C pair table
      with one extra pair: the last transformed word against `beyond`. */
  lemma PyAnalysisSeesExtraPair(v: seq<bv32>, a: Analysis, beyond: bv32)
    requires |v| >= 2
    ensures PyAnalyzeAndGetNsb(v, a, beyond) == KeepDecision(ExtraPairCurve(SignedExponent.Transform(v), a, beyond), a)
  {
    var T := SignedExponent.Transform(v);
    var P := BitInformation.PyBitinformation(T, beyond, a.mi, a.freeEntropy);
    assert P == ExtraPairCurve(T, a, beyond) by {
      BitInformation.PyBitinformationExtraPair(T, beyond, a.mi, a.freeEntropy);
    }
    assert PyAnalyzeAndGetNsb(v, a, beyond) == KeepDecision(P, a);
  }

  /** Corrected Python `analyze_and_get_nsb`, on the corrected curve. */
  function PyAnalyzeAndGetNsbCorrected(v: seq<bv32>, a: Analysis): (nsb: int)
    ensures |v| < 2 ==> nsb == 1
    ensures 1 <= nsb <= 23
  {
    if |v| < 2 then 1
    else KeepDecision(BitInformation.PyBitinformationCorrected(SignedExponent.Transform(v), a.mi, a.freeEntropy), a)
  }

  /** Corrected, the Python decision is the C decision whenever the C copy is
      allocated. */
  lemma PythonCorrectedMatchesC(v: seq<bv32>, a: Analysis)
    ensures PyAnalyzeAndGetNsbCorrected(v, a) == AnalyzeAndGetNsb(v, a, true)
  {
    if |v| >= 2 {
      BitInformation.PyBitinformationCorrectedMatchesC(SignedExponent.Transform(v), a.mi, a.freeEntropy);
    }
  }

  /** The test `nsb > 0 && nsb <= 23` guarding every call of `bitround`. */
  predicate Roundable(nsb: int) {
    0 < nsb <= 23
  }

  /** The `uint32_t` that `bitround` makes of a usable nsb. */
  function NsbWord(nsb: int): (w: bv32)
    requires Roundable(nsb)
    ensures ValidNsb(w) && w != 0
  {
    nsb as bv32
  }

  /** One analysed-and-rounded buffer: rounded with its own nsb when the
      analysis gives a usable one, left alone otherwise. */
  function RoundChunk(chunk: seq<bv32>, a: Analysis, copyAllocated: bool, missval: bv32): (r: seq<bv32>)
    ensures |r| == |chunk|
    ensures !Roundable(AnalyzeAndGetNsb(chunk, a, copyAllocated)) ==> r == chunk
  {
    var nsb := AnalyzeAndGetNsb(chunk, a, copyAllocated);
    if Roundable(nsb) then BitRound.BitRound(NsbWord(nsb), chunk, missval) else chunk
  }

  /** A buffer of fewer than two values is rounded to a single significand bit,
      since the analysis returns 1 for it. */
  lemma TinyChunkKeepsOneBit(chunk: seq<bv32>, a: Analysis, copyAllocated: bool, missval: bv32)
    requires |chunk| < 2
    ensures RoundChunk(chunk, a, copyAllocated, missval) == BitRound.BitRound(1, chunk, missval)
  {
  }

  /** A failed allocation leaves a buffer of two or more values unrounded. */
  lemma FailedCopySkipsRounding(chunk: seq<bv32>, a: Analysis, missval: bv32)
    requires |chunk| >= 2
    ensures RoundChunk(chunk, a, false, missval) == chunk
  {
  }

  /** Every rounded chunk keeps its low bits clear according to its own nsb. */
  lemma RoundChunkClearsLowBits(chunk: seq<bv32>, a: Analysis, copyAllocated: bool, missval: bv32)
    requires Roundable(AnalyzeAndGetNsb(chunk, a, copyAllocated))
    ensures var nsb := NsbWord(AnalyzeAndGetNsb(chunk, a, copyAllocated));
            forall i :: 0 <= i < |chunk| && Processed(chunk[i], missval) ==>
              RoundChunk(chunk, a, copyAllocated, missval)[i] & OneMask(nsb) == 0
  {
    var nsb := NsbWord(AnalyzeAndGetNsb(chunk, a, copyAllocated));
    BitRoundClearsLowBits(nsb, chunk, missval);
  }

  // ----- chunking -----

  /** `chunk_size`: the product of the last two dimensions (of all of them
      when there are fewer than two). */
  function ChunkSize(dims: seq<nat>): nat {
    Product(dims[(if |dims| >= 2 then |dims| - 2 else 0)..])
  }

  /** `varsize` is a whole number of chunks: the leading dimensions' product
      times the chunk size. */
  lemma VariableIsWholeChunks(dims: seq<nat>)
    requires |dims| >= 2
    ensures Product(dims) == Product(dims[..|dims| - 2]) * ChunkSize(dims)
  {
    ProductSplit(dims, |dims| - 2);
  }

  /** A per-chunk operation, given the chunk number and the chunk, that keeps
      the length of its buffer, as the in-place analysis and rounding of one
      chunk does. */
  ghost predicate KeepsLength(round: (nat, seq<bv32>) -> seq<bv32>) {
    forall c, x :: |round(c, x)| == |x|
  }

  /** The chunk loop over `data`, whose first chunk is number `first`: chunk
      c covers [c*cs, (c+1)*cs), there are `varsize / cs` of them, and each is
      handed to `round` on its own with its number `first + c`; a trailing
      partial chunk would be left alone. */
  function Chunked(data: seq<bv32>, cs: nat, round: (nat, seq<bv32>) -> seq<bv32>, first: nat): (r: seq<bv32>)
    requires cs > 0 && KeepsLength(round)
    ensures |r| == |data|
    decreases |data|
  {
    if |data| < cs then data
    else round(first, data[..cs]) + Chunked(data[cs..], cs, round, first + 1)
  }

  /** Each chunk of the result depends only on the same chunk of the input:
      chunks are processed independently. */
  lemma ChunkedIsPerChunk(data: seq<bv32>, cs: nat, round: (nat, seq<bv32>) -> seq<bv32>, first: nat, c: nat)
    requires cs > 0 && KeepsLength(round) && (c + 1) * cs <= |data|
    ensures Chunked(data, cs, round, first)[c * cs..(c + 1) * cs] == round(first + c, data[c * cs..(c + 1) * cs])
  {
    NextChunk(c, cs);
    ChunkAt(data, cs, round, first, c, c * cs);
  }

  /** `ChunkedIsPerChunk` for a chunk whose result is known. */
  lemma ChunkedAt(data: seq<bv32>, cs: nat, round: (nat, seq<bv32>) -> seq<bv32>, c: nat, y: seq<bv32>)
    requires cs > 0 && KeepsLength(round) && (c + 1) * cs <= |data|
    requires round(c, data[c * cs..(c + 1) * cs]) == y
    ensures Chunked(data, cs, round, 0)[c * cs..(c + 1) * cs] == y
  {
    ChunkedIsPerChunk(data, cs, round, 0, c);
  }

  /** The induction behind `ChunkedIsPerChunk`, on the chunk number c with the
      chunk start lo = c * cs carried alongside. */
  lemma {:induction false} ChunkAt(data: seq<bv32>, cs: nat, round: (nat, seq<bv32>) -> seq<bv32>, first: nat, c: nat, lo: nat)
    requires cs > 0 && KeepsLength(round) && lo == c * cs && lo + cs <= |data|
    ensures Chunked(data, cs, round, first)[lo..lo + cs] == round(first + c, data[lo..lo + cs])
  {
    NextChunk(c, cs);
    if c == 0 {
      FirstChunk(data, cs, round, first);
    } else {
      ChunkAt(data[cs..], cs, round, first + 1, c - 1, lo - cs);
      ChunkedPastFirst(data, cs, round, first, lo, lo + cs);
      SliceOfSuffix(data, cs, lo - cs, lo);
    }
  }

  lemma FirstChunk(data: seq<bv32>, cs: nat, round: (nat, seq<bv32>) -> seq<bv32>, first: nat)
    requires KeepsLength(round) && 0 < cs <= |data|
    ensures Chunked(data, cs, round, first)[0..cs] == round(first, data[0..cs])
  {
    var head := round(first, data[..cs]);
    var tail := Chunked(data[cs..], cs, round, first + 1);
    assert (head + tail)[0..cs] == head;
    assert data[0..cs] == data[..cs];
  }

  /** Past the first chunk, the result is the result for the rest of the buffer. */
  lemma ChunkedPastFirst(data: seq<bv32>, cs: nat, round: (nat, seq<bv32>) -> seq<bv32>, first: nat, lo: nat, hi: nat)
    requires KeepsLength(round) && 0 < cs <= lo <= hi <= |data|
    ensures Chunked(data, cs, round, first)[lo..hi] == Chunked(data[cs..], cs, round, first + 1)[lo - cs..hi - cs]
  {
    var head := round(first, data[..cs]);
    var tail := Chunked(data[cs..], cs, round, first + 1);
    assert Chunked(data, cs, round, first) == head + tail;
    SliceOfConcat(head, tail, lo, hi);
  }

  lemma NextChunk(c: nat, cs: nat)
    ensures (c + 1) * cs == c * cs + cs
    ensures c == 0 ==> c * cs == 0
    ensures c > 0 ==> c * cs == (c - 1) * cs + cs && c * cs >= cs
  {
  }

  lemma SliceOfConcat<T>(h: seq<T>, t: seq<T>, lo: nat, hi: nat)
    requires |h| <= lo <= hi <= |h| + |t|
    ensures (h + t)[lo..hi] == t[lo - |h|..hi - |h|]
  {
  }

  lemma SliceOfSuffix<T>(d: seq<T>, k: nat, lo: nat, hi: nat)
    requires lo <= hi && k + hi <= |d|
    ensures d[k..][lo..hi] == d[k + lo..k + hi]
  {
  }

  /** Values after the last whole chunk keep their bits. */
  lemma ChunkedKeepsRemainder(data: seq<bv32>, cs: nat, round: (nat, seq<bv32>) -> seq<bv32>, first: nat, k: nat)
    requires cs > 0 && KeepsLength(round) && k * cs <= |data| < (k + 1) * cs
    ensures Chunked(data, cs, round, first)[k * cs..] == data[k * cs..]
  {
    NextChunk(k, cs);
    RemainderAt(data, cs, round, first, k, k * cs);
  }

  lemma {:induction false} RemainderAt(data: seq<bv32>, cs: nat, round: (nat, seq<bv32>) -> seq<bv32>, first: nat, k: nat, lo: nat)
    requires cs > 0 && KeepsLength(round) && lo == k * cs && lo <= |data| < lo + cs
    ensures Chunked(data, cs, round, first)[lo..] == data[lo..]
  {
    NextChunk(k, cs);
    if k > 0 {
      RemainderAt(data[cs..], cs, round, first + 1, k - 1, lo - cs);
      ChunkedPastFirst(data, cs, round, first, lo, |data|);
      SliceOfSuffix(data, cs, lo - cs, |data| - cs);
    }
  }

  // ----- one variable -----

  /** A float variable as the tool sees it: its dimension lengths, its values
      in file order, its `_FillValue` if the attribute has length 1, and
      whether its name is a dimension name (a coordinate variable). */
  datatype Variable = Variable(dims: seq<nat>, data: seq<bv32>, fill: Option<bv32>, isCoordinate: bool)

  /** The scan of `main` for NaN or (when a fill value is declared) a value
      comparing equal to it. */
  predicate ContainsMissing(data: seq<bv32>, fill: Option<bv32>) {
    exists i :: 0 <= i < |data| && (IsNaN(data[i]) || (fill.Some? && FloatEq(data[i], fill.value)))
  }

  method ScanForMissing(data: seq<bv32>, fill: Option<bv32>) returns (found: bool)
    ensures found == ContainsMissing(data, fill)
  {
    found := false;
    var i := 0;
    while i < |data|
      invariant 0 <= i <= |data|
      invariant forall j :: 0 <= j < i ==> !(IsNaN(data[j]) || (fill.Some? && FloatEq(data[j], fill.value)))
    {
      if IsNaN(data[i]) || (fill.Some? && FloatEq(data[i], fill.value)) {
        found := true;
        break;
      }
      i := i + 1;
    }
  }

  /** `missval`: the declared fill value, NC_FILL_FLOAT otherwise. */
  function MissingValue(fill: Option<bv32>): bv32 {
    if fill.Some? then fill.value else NcFillFloat
  }

  /** The number of `analyze_and_get_nsb` calls for a variable: one for rank
      2 or less, one per chunk (index tuple of the leading dimensions)
      otherwise. Each call allocates its own copy, so each has its own
      allocation outcome. */
  function AnalysisCalls(dims: seq<nat>): nat {
    if |dims| <= 2 then 1 else Product(dims[..|dims| - 2])
  }

  /** The operation the chunk loop applies to chunk c: analyse it, with
      `copyAllocated[c]` the outcome of that call's `malloc`, then round it
      with its own nsb. */
  function ChunkRounder(a: Analysis, copyAllocated: seq<bool>, missval: bv32): (round: (nat, seq<bv32>) -> seq<bv32>)
    ensures KeepsLength(round)
    ensures forall c: nat, x :: c < |copyAllocated| ==> round(c, x) == RoundChunk(x, a, copyAllocated[c], missval)
  {
    var round := (c: nat, x: seq<bv32>) => RoundChunk(x, a, c < |copyAllocated| && copyAllocated[c], missval);
    assert KeepsLength(round) by {
      forall c: nat, x: seq<bv32>
        ensures |round(c, x)| == |x|
      {
        assert round(c, x) == RoundChunk(x, a, c < |copyAllocated| && copyAllocated[c], missval);
      }
    }
    round
  }

  /** What `main` writes for a float variable; `copyAllocated` holds the
      allocation outcome of each analysis call, in call order. */
  function RoundVariable(v: Variable, a: Analysis, copyAllocated: seq<bool>): (r: seq<bv32>)
    requires |v.data| == Product(v.dims) && |copyAllocated| == AnalysisCalls(v.dims)
    ensures |r| == |v.data|
    ensures v.isCoordinate || ContainsMissing(v.data, v.fill) ==> r == v.data
    ensures !v.isCoordinate && !ContainsMissing(v.data, v.fill) && |v.dims| <= 2 ==>
              r == RoundChunk(v.data, a, copyAllocated[0], MissingValue(v.fill))
  {
    if |v.data| == 0 || v.isCoordinate || ContainsMissing(v.data, v.fill) then v.data
    else if |v.dims| <= 2 then RoundChunk(v.data, a, copyAllocated[0], MissingValue(v.fill))
    else
      VariableIsWholeChunks(v.dims);
      Chunked(v.data, ChunkSize(v.dims), ChunkRounder(a, copyAllocated, MissingValue(v.fill)), 0)
  }

  /** For a variable of rank 3 or more that reaches rounding, every chunk of the
      last two dimensions is analysed and rounded on its own, with the
      allocation outcome of its own analysis call. */
  lemma RoundVariableByChunks(v: Variable, a: Analysis, copyAllocated: seq<bool>, c: nat)
    requires |v.data| == Product(v.dims) && |copyAllocated| == AnalysisCalls(v.dims) && |v.dims| >= 3
    requires !v.isCoordinate && !ContainsMissing(v.data, v.fill)
    requires c < |copyAllocated| && (c + 1) * ChunkSize(v.dims) <= |v.data|
    ensures var cs := ChunkSize(v.dims);
            RoundVariable(v, a, copyAllocated)[c * cs..(c + 1) * cs]
            == RoundChunk(v.data[c * cs..(c + 1) * cs], a, copyAllocated[c], MissingValue(v.fill))
  {
    var cs := ChunkSize(v.dims);
    NextChunk(c, cs);
    if |v.data| > 0 {
      var x := v.data[c * cs..(c + 1) * cs];
      RoundVariableIsChunked(v, a, copyAllocated);
      RounderAt(a, copyAllocated, MissingValue(v.fill), c, x);
      ChunkedAt(v.data, cs, ChunkRounder(a, copyAllocated, MissingValue(v.fill)), c,
                RoundChunk(x, a, copyAllocated[c], MissingValue(v.fill)));
    } else {
      EmptyChunk(v.data[c * cs..(c + 1) * cs], a, copyAllocated[c], MissingValue(v.fill));
    }
  }

  /** A chunk whose own copy could not be allocated is written unrounded,
      whatever happened to the other chunks of the variable. */
  lemma FailedChunkUnrounded(v: Variable, a: Analysis, copyAllocated: seq<bool>, c: nat)
    requires |v.data| == Product(v.dims) && |copyAllocated| == AnalysisCalls(v.dims) && |v.dims| >= 3
    requires !v.isCoordinate && !ContainsMissing(v.data, v.fill)
    requires c < |copyAllocated| && !copyAllocated[c] && ChunkSize(v.dims) >= 2
    requires (c + 1) * ChunkSize(v.dims) <= |v.data|
    ensures var cs := ChunkSize(v.dims);
            RoundVariable(v, a, copyAllocated)[c * cs..(c + 1) * cs] == v.data[c * cs..(c + 1) * cs]
  {
    var cs := ChunkSize(v.dims);
    NextChunk(c, cs);
    RoundVariableByChunks(v, a, copyAllocated, c);
    FailedCopySkipsRounding(v.data[c * cs..(c + 1) * cs], a, MissingValue(v.fill));
  }

  lemma RounderAt(a: Analysis, copyAllocated: seq<bool>, missval: bv32, c: nat, x: seq<bv32>)
    requires c < |copyAllocated|
    ensures ChunkRounder(a, copyAllocated, missval)(c, x) == RoundChunk(x, a, copyAllocated[c], missval)
  {
  }

  lemma EmptyChunk(chunk: seq<bv32>, a: Analysis, copyAllocated: bool, missval: bv32)
    requires |chunk| == 0
    ensures RoundChunk(chunk, a, copyAllocated, missval) == chunk
  {
  }

  /** A variable of rank 3 or more that reaches rounding goes through the
      chunk loop. */
  lemma RoundVariableIsChunked(v: Variable, a: Analysis, copyAllocated: seq<bool>)
    requires |v.data| == Product(v.dims) && |copyAllocated| == AnalysisCalls(v.dims) && |v.dims| >= 3
    requires !v.isCoordinate && !ContainsMissing(v.data, v.fill) && |v.data| > 0
    ensures ChunkSize(v.dims) > 0
    ensures RoundVariable(v, a, copyAllocated)
            == Chunked(v.data, ChunkSize(v.dims), ChunkRounder(a, copyAllocated, MissingValue(v.fill)), 0)
  {
    VariableIsWholeChunks(v.dims);
  }

  /** The chunks of a variable of rank 3 or more: one per index tuple of the
      leading dimensions, together covering every value. */
  lemma ChunkCount(v: Variable)
    requires |v.data| == Product(v.dims) && |v.dims| >= 3
    ensures Product(v.dims[..|v.dims| - 2]) * ChunkSize(v.dims) == |v.data|
  {
    VariableIsWholeChunks(v.dims);
  }

  /** With a declared fill value and no missing data, no value is skipped:
      every value of a rounded buffer is the rounded word. */
  lemma NoMissingRoundsEveryValue(data: seq<bv32>, fill: bv32, nsb: bv32)
    requires ValidNsb(nsb)
    requires !ContainsMissing(data, Some(fill))
    ensures forall i :: 0 <= i < |data| ==> BitRound.BitRound(nsb, data, fill)[i] == RoundWord(nsb, data[i])
  {
    forall i | 0 <= i < |data|
      ensures Processed(data[i], fill)
    {
      FloatEqProperties(data[i], fill);
    }
  }
}
