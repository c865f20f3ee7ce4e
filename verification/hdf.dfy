/** The HDF5 front end of src/hdf_bit_analysis.c: how a dataset's HDF5 type
    maps to an element type of the bit-pattern analysis, the parenthesised
    shape text, which datasets are analysed whole and which slice by slice,
    and the odometer that walks the leading indices of a 3D+ dataset. */
module Hdf {
  import opened Wrappers
  import opened Text
  import opened Dims
  import BitPattern

  // ----- element types -----

  /** The `H5T_class_t` values the tool tells apart. */
  datatype H5Class = H5Integer | H5Float | H5OtherClass

  /** `H5T_sign_t`: unsigned, two's complement, or no sign information. */
  datatype H5Sign = SignNone | SignTwos | SignError

  /** `(dtype_t)-1`, the "unsupported" answer. */
  const Unsupported: int := -1

  /** `hdf5_to_dtype`: the `dtype_t` value for an HDF5 class, byte size and
      sign, or -1. */
  function Hdf5ToDType(cls: H5Class, size: nat, sign: H5Sign): (code: int)
    ensures code == Unsupported || BitPattern.DTypeOfCode(code).Some?
  {
    match cls
    case H5Float =>
      if size == 4 then 0
      else if size == 8 then 1
      else Unsupported
    case H5Integer =>
      if size == 2 then (if sign == SignNone then 3 else 2)
      else if size == 4 then (if sign == SignNone then 5 else 4)
      else if size == 8 then (if sign == SignNone then 7 else 6)
      else Unsupported
    case H5OtherClass => Unsupported
  }

  /** The HDF5 types the tool can analyse. */
  predicate Supported(cls: H5Class, size: nat) {
    (cls == H5Float && (size == 4 || size == 8)) ||
    (cls == H5Integer && (size == 2 || size == 4 || size == 8))
  }

  predicate IsUnsigned(d: BitPattern.DType) {
    d == BitPattern.DUInt16 || d == BitPattern.DUInt32 || d == BitPattern.DUInt64
  }

  lemma Hdf5ToDTypeSupported(cls: H5Class, size: nat, sign: H5Sign)
    ensures Hdf5ToDType(cls, size, sign) != Unsupported <==> Supported(cls, size)
  {
  }

  /** A supported HDF5 type maps to an element type of the same byte size,
      a floating type exactly for the float class, and an unsigned one
      exactly for `H5T_SGN_NONE`. */
  lemma Hdf5ToDTypeMeaning(cls: H5Class, size: nat, sign: H5Sign)
    requires Supported(cls, size)
    ensures var d := BitPattern.DTypeOfCode(Hdf5ToDType(cls, size, sign)).value;
            BitPattern.LayoutOf(d).elementSize == size &&
            (BitPattern.LayoutOf(d).checkFinite <==> cls == H5Float) &&
            (cls == H5Integer ==> (IsUnsigned(d) <==> sign == SignNone))
  {
  }

  /** `get_element_size`: bytes per element of a `dtype_t`, 0 for any other
      value. */
  function ElementSize(code: int): (n: nat)
    ensures n == 0 <==> BitPattern.DTypeOfCode(code).None?
    ensures n > 0 ==> n == BitPattern.LayoutOf(BitPattern.DTypeOfCode(code).value).elementSize
  {
    if code == 0 then 4
    else if code == 1 then 8
    else if code == 2 || code == 3 then 2
    else if code == 4 || code == 5 then 4
    else if code == 6 || code == 7 then 8
    else 0
  }

  /** The element size of the mapped type is the HDF5 type's size. */
  lemma ElementSizeRoundTrip(cls: H5Class, size: nat, sign: H5Sign)
    requires Supported(cls, size)
    ensures ElementSize(Hdf5ToDType(cls, size, sign)) == size
  {
    Hdf5ToDTypeMeaning(cls, size, sign);
  }

  // ----- format_hdf5_shape_string -----

  /** The length limit the loop guards: `temp` and `output` hold 256 bytes. */
  const ShapeBuffer: nat := 256

  /** The loop of `format_hdf5_shape_string` from dimension i on, `temp`
      being what it has built so far. */
  function ShapeLoop(dims: seq<nat>, i: nat, temp: string): string
    requires i <= |dims|
    decreases |dims| - i
  {
    if i == |dims| then temp + ")"
    else
      var ds := Decimal(dims[i]);
      if |temp| + |ds| + 10 >= ShapeBuffer - 1 then "(...)"
      else ShapeLoop(dims, i + 1, temp + ds + (if i < |dims| - 1 then ", " else ""))
  }

  /** `format_hdf5_shape_string`: "scalar" with no dims, else the dims in
      parentheses, or "(...)" when they would not fit. */
  function FormatHdf5ShapeString(dims: seq<nat>): string {
    if |dims| == 0 then "scalar" else ShapeLoop(dims, 0, "(")
  }

  /** The dims in decimal separated by ", ". */
  function TupleText(dims: seq<nat>): string {
    Join(Decimals(dims), ", ")
  }

  /** The shape text is the whole tuple exactly when the tuple leaves room
      for the guard's ten spare bytes; then it fits the buffer. */
  lemma FormatHdf5ShapeStringCases(dims: seq<nat>)
    ensures |dims| == 0 ==> FormatHdf5ShapeString(dims) == "scalar"
    ensures |dims| > 0 && |TupleText(dims)| >= 244 ==> FormatHdf5ShapeString(dims) == "(...)"
    ensures |dims| > 0 && |TupleText(dims)| < 244 ==>
              FormatHdf5ShapeString(dims) == "(" + TupleText(dims) + ")" &&
              |FormatHdf5ShapeString(dims)| < ShapeBuffer
  {
    if |dims| > 0 {
      ShapeLoopFrom(dims, 0);
    }
  }

  /** What `temp` holds when the loop reaches dimension i. */
  function Temp(dims: seq<nat>, i: nat): string
    requires i <= |dims|
  {
    if i == 0 then "(" else "(" + Join(Decimals(dims)[..i], ", ") + ", "
  }

  lemma {:induction false} ShapeLoopFrom(dims: seq<nat>, i: nat)
    requires i < |dims|
    ensures ShapeLoop(dims, i, Temp(dims, i)) ==
            if |TupleText(dims)| >= 244 then "(...)" else "(" + TupleText(dims) + ")"
    decreases |dims| - i
  {
    var joined := Join(Decimals(dims)[..i + 1], ", ");
    if |joined| >= 244 {
      ShapeLoopGivesUp(dims, i);
      TupleTooLong(dims, i);
    } else if i == |dims| - 1 {
      ShapeLoopCloses(dims);
    } else {
      ShapeLoopGoesOn(dims, i);
      ShapeLoopFrom(dims, i + 1);
    }
  }

  /** Once the dims so far are too long, the answer is "(...)". */
  lemma ShapeLoopGivesUp(dims: seq<nat>, i: nat)
    requires i < |dims| && |Join(Decimals(dims)[..i + 1], ", ")| >= 244
    ensures ShapeLoop(dims, i, Temp(dims, i)) == "(...)"
  {
    TempStep(dims, i);
    ShapeLoopUnfold(dims, i, Temp(dims, i));
  }

  /** A prefix of the dims already too long makes the whole tuple too long. */
  lemma TupleTooLong(dims: seq<nat>, i: nat)
    requires i < |dims| && |Join(Decimals(dims)[..i + 1], ", ")| >= 244
    ensures |TupleText(dims)| >= 244
  {
    JoinPrefixLength(Decimals(dims), i + 1, ", ");
    assert Decimals(dims)[..|dims|] == Decimals(dims);
  }

  /** At the last dimension, with room left, the tuple is closed. */
  lemma ShapeLoopCloses(dims: seq<nat>)
    requires |dims| > 0 && |Join(Decimals(dims)[..|dims|], ", ")| < 244
    ensures ShapeLoop(dims, |dims| - 1, Temp(dims, |dims| - 1)) == "(" + TupleText(dims) + ")"
    ensures |TupleText(dims)| < 244
  {
    var i := |dims| - 1;
    TempStep(dims, i);
    assert Decimals(dims)[..i + 1] == Decimals(dims);
    ShapeLoopUnfold(dims, i, Temp(dims, i));
  }

  /** Before the last dimension, with room left, the loop goes on with the
      next `temp`. */
  lemma ShapeLoopGoesOn(dims: seq<nat>, i: nat)
    requires i < |dims| - 1 && |Join(Decimals(dims)[..i + 1], ", ")| < 244
    ensures ShapeLoop(dims, i, Temp(dims, i)) == ShapeLoop(dims, i + 1, Temp(dims, i + 1))
  {
    TempStep(dims, i);
    ShapeLoopUnfold(dims, i, Temp(dims, i));
  }

  /** One turn of the loop: give up, close, or go on. */
  lemma ShapeLoopUnfold(dims: seq<nat>, i: nat, temp: string)
    requires i < |dims|
    ensures |temp| + |Decimal(dims[i])| + 10 >= ShapeBuffer - 1 ==> ShapeLoop(dims, i, temp) == "(...)"
    ensures |temp| + |Decimal(dims[i])| + 10 < ShapeBuffer - 1 && i == |dims| - 1 ==>
              ShapeLoop(dims, i, temp) == temp + Decimal(dims[i]) + ")"
    ensures |temp| + |Decimal(dims[i])| + 10 < ShapeBuffer - 1 && i < |dims| - 1 ==>
              ShapeLoop(dims, i, temp) == ShapeLoop(dims, i + 1, temp + Decimal(dims[i]) + ", ")
  {
    if i == |dims| - 1 {
      assert temp + Decimal(dims[i]) + "" == temp + Decimal(dims[i]);
    }
  }

  /** One pass of the loop body: what `temp` holds once the dimension is
      appended, and the next `temp`. */
  lemma TempStep(dims: seq<nat>, i: nat)
    requires i < |dims|
    ensures Temp(dims, i) + Decimals(dims)[i] == "(" + Join(Decimals(dims)[..i + 1], ", ")
    ensures i < |dims| - 1 ==> Temp(dims, i) + Decimals(dims)[i] + ", " == Temp(dims, i + 1)
  {
    var parts := Decimals(dims);
    JoinStep(parts, i, ", ");
  }

  /** Joining one more part. */
  lemma JoinStep(parts: seq<string>, i: nat, sep: string)
    requires i < |parts|
    ensures i == 0 ==> Join(parts[..i + 1], sep) == parts[0]
    ensures i > 0 ==> Join(parts[..i + 1], sep) == Join(parts[..i], sep) + sep + parts[i]
  {
    assert parts[..i + 1][..i] == parts[..i];
  }

  /** A longer prefix joins to a longer text. */
  lemma {:induction false} JoinPrefixLength(parts: seq<string>, k: nat, sep: string)
    requires 1 <= k <= |parts|
    ensures |Join(parts[..k], sep)| <= |Join(parts, sep)|
    decreases |parts| - k
  {
    if k < |parts| {
      JoinStep(parts, k, sep);
      JoinPrefixLength(parts, k + 1, sep);
    } else {
      assert parts[..k] == parts;
    }
  }

  /** The space the format puts after each comma. */
  function DropSpace(p: string): string {
    if |p| > 0 && p[0] == ' ' then p[1..] else p
  }

  /** Reading a parenthesised shape back. */
  function ParseTuple(s: string): seq<int>
    requires |s| >= 2
  {
    ParsePieces(Split(s[1..|s| - 1], ','))
  }

  /** Each comma-separated piece read as a decimal after its space. */
  function ParsePieces(parts: seq<string>): (r: seq<int>)
    ensures |r| == |parts|
  {
    seq(|parts|, i requires 0 <= i < |parts| => ParseDecimal(DropSpace(parts[i])))
  }

  /** An untruncated shape text reads back as the dims. */
  lemma Hdf5ShapeRoundTrip(dims: seq<nat>)
    requires |dims| > 0 && |TupleText(dims)| < 244
    ensures |FormatHdf5ShapeString(dims)| >= 2
    ensures ParseTuple(FormatHdf5ShapeString(dims)) == dims
  {
    FormatHdf5ShapeStringCases(dims);
    var s := FormatHdf5ShapeString(dims);
    assert s[1..|s| - 1] == TupleText(dims);
    TupleReadsBack(dims);
  }

  /** The tuple text without its parentheses reads back as the dims. */
  lemma TupleReadsBack(dims: seq<nat>)
    requires |dims| > 0
    ensures ParsePieces(Split(TupleText(dims), ',')) == dims
  {
    TupleSplit(dims);
    var r := Split(TupleText(dims), ',');
    forall i | 0 <= i < |dims|
      ensures ParsePieces(r)[i] == dims[i]
    {
      PieceReadsBack(dims, r, i);
    }
  }

  /** Splitting the tuple text at commas gives the decimals, each after the
      first still led by its space. */
  lemma TupleSplit(dims: seq<nat>)
    requires |dims| > 0
    ensures var r := Split(TupleText(dims), ',');
            |r| == |dims| && r[0] == Decimal(dims[0]) &&
            forall k :: 1 <= k < |dims| ==> r[k] == " " + Decimal(dims[k])
  {
    DecimalsAvoid(dims, ',');
    assert ", " == [','] + " ";
    SplitJoin(Decimals(dims), ',', " ");
  }

  /** Piece i of the split tuple is dimension i, after a space unless first. */
  lemma PieceReadsBack(dims: seq<nat>, r: seq<string>, i: nat)
    requires i < |dims| && |r| == |dims|
    requires r[0] == Decimal(dims[0])
    requires forall k :: 1 <= k < |dims| ==> r[k] == " " + Decimal(dims[k])
    ensures ParseDecimal(DropSpace(r[i])) == dims[i]
  {
    DecimalRoundTrip(dims[i]);
    var d := Decimal(dims[i]);
    if i > 0 {
      assert r[i] == " " + d;
      assert DropSpace(r[i]) == d;
    } else {
      assert d[0] != ' ' by { assert IsDigit(d[0]); }
    }
  }

  // ----- which datasets are analysed, and how -----

  /** `is_hdf5_multidimensional`: three or more dims are analysed as 2D
      slices. */
  predicate IsMultidimensional(ndims: nat) {
    ndims >= 3
  }

  /** The collected record of one dataset: its dims, its HDF5 type, the sign
      `H5Tget_sign` reports for it, and `total_elements` as stored. */
  datatype Dataset = Dataset(dims: seq<nat>, cls: H5Class, size: nat, sign: H5Sign, totalElements: nat)

  /** What the main loop does with one dataset. */
  datatype Plan =
    | SkipSingleValue
    | SkipUnsupported
    | Whole(shape: string, dtype: int, count: nat)
    | Sliced(shape: string, sliceShape: string, totalSlices: nat, sliceSize: nat, dtype: int)

  /** The main loop's body up to the reads: the single-value skip, the type
      check (the sign is asked for integers only), the shape text, and for
      3D+ the slice shape, the number of slices and the slice size. */
  function PlanDataset(ds: Dataset): Plan {
    if ds.totalElements <= 1 then SkipSingleValue
    else
      var sign := if ds.cls == H5Integer then ds.sign else SignError;
      var code := Hdf5ToDType(ds.cls, ds.size, sign);
      if code == Unsupported then SkipUnsupported
      else
        var shape := FormatHdf5ShapeString(ds.dims);
        var n := |ds.dims|;
        if IsMultidimensional(n) then
          Sliced(shape, FormatHdf5ShapeString(ds.dims[n - 2..]), Product(ds.dims[..n - 2]),
                 ds.dims[n - 2] * ds.dims[n - 1], code)
        else Whole(shape, code, ds.totalElements)
  }

  /** Each dataset lands in exactly one branch; the slices tile the dataset
      and are read with the element type the dataset's HDF5 type maps to. */
  lemma PlanCases(ds: Dataset)
    ensures PlanDataset(ds).SkipSingleValue? <==> ds.totalElements <= 1
    ensures PlanDataset(ds).SkipUnsupported? <==> ds.totalElements > 1 && !Supported(ds.cls, ds.size)
    ensures PlanDataset(ds).Whole? <==>
              ds.totalElements > 1 && Supported(ds.cls, ds.size) && |ds.dims| < 3
    ensures PlanDataset(ds).Sliced? <==>
              ds.totalElements > 1 && Supported(ds.cls, ds.size) && |ds.dims| >= 3
    ensures PlanDataset(ds).Whole? ==>
              PlanDataset(ds).count == ds.totalElements &&
              ElementSize(PlanDataset(ds).dtype) == ds.size
    ensures PlanDataset(ds).Sliced? ==>
              PlanDataset(ds).totalSlices * PlanDataset(ds).sliceSize == Product(ds.dims) &&
              ElementSize(PlanDataset(ds).dtype) == ds.size
  {
    var sign := if ds.cls == H5Integer then ds.sign else SignError;
    Hdf5ToDTypeSupported(ds.cls, ds.size, sign);
    if Supported(ds.cls, ds.size) {
      ElementSizeRoundTrip(ds.cls, ds.size, sign);
    }
    var n := |ds.dims|;
    if n >= 3 {
      ProductSplit(ds.dims, n - 2);
      ProductOfTwo(ds.dims[n - 2..]);
    }
  }

  lemma ProductOfTwo(dims: seq<nat>)
    requires |dims| == 2
    ensures Product(dims) == dims[0] * dims[1]
  {
    assert dims[..1][..0] == [];
    assert Product(dims[..1]) == dims[0];
  }

  /** `collect_datasets` as written: `total_elements` is the product of the
      dims when there are any; a scalar dataset (no dims) never has it
      written, so it keeps whatever the fresh allocation held (`leftover`). */
  function CollectAsWritten(dims: seq<nat>, cls: H5Class, size: nat, sign: H5Sign, leftover: nat): (ds: Dataset)
    ensures ds.dims == dims && ds.cls == cls && ds.size == size && ds.sign == sign
    ensures |dims| > 0 ==> ds.totalElements == Product(dims)
  {
    Dataset(dims, cls, size, sign, if |dims| > 0 then Product(dims) else leftover)
  }

  /** A scalar float dataset whose allocation held 2 is analysed whole as two
      elements although its dataspace holds one. */
  lemma ScalarReadAsTwo(cls: H5Class, size: nat)
    requires cls == H5Float && size == 4
    ensures var p := PlanDataset(CollectAsWritten([], cls, size, SignError, 2));
            p.Whole? && p.shape == "scalar" && p.count == 2 && p.count > Product([])
  {
  }

  /** `collect_datasets` with `total_elements` set for every dataspace, the
      empty product being 1. */
  function Collect(dims: seq<nat>, cls: H5Class, size: nat, sign: H5Sign): (ds: Dataset)
    ensures ds.dims == dims && ds.cls == cls && ds.size == size && ds.sign == sign
    ensures ds.totalElements == Product(dims)
  {
    Dataset(dims, cls, size, sign, Product(dims))
  }

  /** With every record complete a whole-dataset read asks for exactly the
      elements of the dataspace, and a scalar dataset is skipped as a single
      value. */
  lemma CollectedCountMatches(dims: seq<nat>, cls: H5Class, size: nat, sign: H5Sign)
    ensures var p := PlanDataset(Collect(dims, cls, size, sign));
            (p.Whole? ==> p.count == Product(dims)) &&
            (|dims| == 0 ==> p.SkipSingleValue?)
  {
    PlanCases(Collect(dims, cls, size, sign));
  }

  // ----- the slice odometer -----

  /** The carry loop after each slice: bump the last leading index; on
      overflow reset it and carry into the one before; past the first index
      everything is back at zero. */
  function Advance(idx: seq<nat>, dims: seq<nat>): (r: seq<nat>)
    requires |idx| == |dims|
    ensures |r| == |idx|
    decreases |idx|
  {
    if |idx| == 0 then []
    else
      var k := |idx| - 1;
      if idx[k] + 1 < dims[k] then idx[..k] + [idx[k] + 1]
      else Advance(idx[..k], dims[..k]) + [0]
  }

  /** The carry loop as the C writes it, walking `dim` down while `carry`. */
  method Increment(idx: seq<nat>, dims: seq<nat>) returns (next: seq<nat>)
    requires |idx| == |dims|
    ensures next == Advance(idx, dims)
  {
    next := idx;
    var carry := true;
    var dim := |idx| - 1;
    assert idx[..dim + 1] == idx && dims[..dim + 1] == dims && next[dim + 1..] == [];
    while dim >= 0 && carry
      invariant -1 <= dim < |idx|
      invariant CarryState(idx, dims, next, dim, carry)
      decreases dim + 1
    {
      CarryStep(idx, dims, next, dim);
      next := next[dim := next[dim] + 1];
      if next[dim] < dims[dim] {
        carry := false;
      } else {
        next := next[dim := 0];
      }
      dim := dim - 1;
    }
    CarryDone(idx, dims, next, dim, carry);
  }

  /** The carry loop's state: indices up to `dim` untouched; while carrying,
      what is left to do is advancing that front. */
  predicate CarryState(idx: seq<nat>, dims: seq<nat>, next: seq<nat>, dim: int, carry: bool)
    requires |idx| == |dims| && -1 <= dim < |idx|
  {
    |next| == |idx| && next[..dim + 1] == idx[..dim + 1] &&
    (carry ==> Advance(idx, dims) == Advance(idx[..dim + 1], dims[..dim + 1]) + next[dim + 1..]) &&
    (!carry ==> next == Advance(idx, dims))
  }

  /** One step of the carry loop keeps its state. */
  lemma CarryStep(idx: seq<nat>, dims: seq<nat>, next: seq<nat>, dim: nat)
    requires |idx| == |dims| && dim < |idx| && CarryState(idx, dims, next, dim, true)
    ensures var bumped := next[dim := next[dim] + 1];
            if bumped[dim] < dims[dim] then CarryState(idx, dims, bumped, dim - 1, false)
            else CarryState(idx, dims, bumped[dim := 0], dim - 1, true)
  {
    assert next[dim] == idx[..dim + 1][dim];
    var front, fdims := idx[..dim + 1], dims[..dim + 1];
    assert front[..dim] == idx[..dim] && fdims[..dim] == dims[..dim];
    var bumped := next[dim := next[dim] + 1];
    if bumped[dim] < dims[dim] {
      assert Advance(front, fdims) == idx[..dim] + [idx[dim] + 1];
      assert bumped == bumped[..dim] + [bumped[dim]] + bumped[dim + 1..];
    } else {
      var reset := bumped[dim := 0];
      assert Advance(front, fdims) == Advance(idx[..dim], dims[..dim]) + [0];
      assert reset[dim..] == [0] + reset[dim + 1..];
    }
  }

  /** When the loop stops, the odometer has advanced. */
  lemma CarryDone(idx: seq<nat>, dims: seq<nat>, next: seq<nat>, dim: int, carry: bool)
    requires |idx| == |dims| && -1 <= dim < |idx| && CarryState(idx, dims, next, dim, carry)
    requires !(dim >= 0 && carry)
    ensures next == Advance(idx, dims)
  {
    if carry {
      assert next[0..] == next;
    }
  }

  /** Every index below its dimension. */
  predicate InRange(idx: seq<nat>, dims: seq<nat>) {
    |idx| == |dims| && forall j :: 0 <= j < |idx| ==> idx[j] < dims[j]
  }

  /** The row-major number of an index tuple (last index fastest). */
  function Rank(idx: seq<nat>, dims: seq<nat>): nat
    requires |idx| == |dims|
    decreases |idx|
  {
    if |idx| == 0 then 0
    else
      var k := |idx| - 1;
      Rank(idx[..k], dims[..k]) * dims[k] + idx[k]
  }

  lemma {:induction false} RankBound(idx: seq<nat>, dims: seq<nat>)
    requires InRange(idx, dims)
    ensures Rank(idx, dims) < Product(dims)
    decreases |idx|
  {
    if |idx| > 0 {
      var k := |idx| - 1;
      var r, p, d := Rank(idx[..k], dims[..k]), Product(dims[..k]), dims[k];
      RankBound(idx[..k], dims[..k]);
      MixedRadixBound(r, idx[k], p, d);
    }
  }

  /** r * d + x < p * d when r < p and x < d. */
  lemma MixedRadixBound(r: nat, x: nat, p: nat, d: nat)
    requires r < p && x < d
    ensures r * d + x < p * d
  {
    assert (r + 1) * d <= p * d;
  }

  /** The odometer counts: advancing adds one to the rank, wrapping to zero
      after the last tuple. */
  lemma {:induction false} AdvanceRank(idx: seq<nat>, dims: seq<nat>)
    requires InRange(idx, dims)
    ensures InRange(Advance(idx, dims), dims)
    ensures Rank(Advance(idx, dims), dims) ==
            if Rank(idx, dims) + 1 < Product(dims) then Rank(idx, dims) + 1 else 0
    decreases |idx|, 1
  {
    if |idx| == 0 {
      assert Product(dims) == 1;
    } else if idx[|idx| - 1] + 1 < dims[|idx| - 1] {
      AdvanceNoCarry(idx, dims);
    } else {
      AdvanceCarry(idx, dims);
    }
  }

  /** The last index has room: it alone goes up by one. */
  lemma AdvanceNoCarry(idx: seq<nat>, dims: seq<nat>)
    requires InRange(idx, dims) && |idx| > 0
    requires idx[|idx| - 1] + 1 < dims[|idx| - 1]
    ensures InRange(Advance(idx, dims), dims)
    ensures Rank(Advance(idx, dims), dims) == Rank(idx, dims) + 1 < Product(dims)
  {
    var k := |idx| - 1;
    var front, fdims := idx[..k], dims[..k];
    var a := Advance(idx, dims);
    assert a[..k] == front && a[k] == idx[k] + 1;
    RankBound(front, fdims);
    MixedRadixBound(Rank(front, fdims), idx[k] + 1, Product(fdims), dims[k]);
  }

  /** The last index is at its end: it restarts and the rest advance. */
  lemma {:induction false} AdvanceCarry(idx: seq<nat>, dims: seq<nat>)
    requires InRange(idx, dims) && |idx| > 0
    requires idx[|idx| - 1] + 1 >= dims[|idx| - 1]
    ensures InRange(Advance(idx, dims), dims)
    ensures Rank(Advance(idx, dims), dims) ==
            if Rank(idx, dims) + 1 < Product(dims) then Rank(idx, dims) + 1 else 0
    decreases |idx|, 0
  {
    var k := |idx| - 1;
    var front, fdims := idx[..k], dims[..k];
    AdvanceRank(front, fdims);
    RankBound(front, fdims);
    var fa := Advance(front, fdims);
    var a := Advance(idx, dims);
    assert a[..k] == fa && a[k] == 0;
    CarryArith(Rank(front, fdims), idx[k], Product(fdims), dims[k], Rank(fa, fdims));
  }

  /** The carry in numbers: r * d + x is the last rank of its block, so one
      more is the first rank of block r + 1, or wraps. */
  lemma CarryArith(r: nat, x: nat, p: nat, d: nat, ra: nat)
    requires r < p && x + 1 == d && ra == (if r + 1 < p then r + 1 else 0)
    ensures ra * d == if r * d + x + 1 < p * d then r * d + x + 1 else 0
  {
    assert r * d + x + 1 == (r + 1) * d;
    if r + 1 < p {
      MixedRadixBound(r + 1, 0, p, d);
    }
  }

  /** Different tuples in range have different ranks. */
  lemma {:induction false} RankInjective(a: seq<nat>, b: seq<nat>, dims: seq<nat>)
    requires InRange(a, dims) && InRange(b, dims)
    requires Rank(a, dims) == Rank(b, dims)
    ensures a == b
    decreases |dims|
  {
    if |dims| > 0 {
      var k := |dims| - 1;
      DigitsUnique(Rank(a[..k], dims[..k]), a[k], Rank(b[..k], dims[..k]), b[k], dims[k]);
      RankInjective(a[..k], b[..k], dims[..k]);
      assert a == a[..k] + [a[k]] && b == b[..k] + [b[k]];
    }
  }

  lemma DigitsUnique(q1: nat, r1: nat, q2: nat, r2: nat, d: nat)
    requires r1 < d && r2 < d && q1 * d + r1 == q2 * d + r2
    ensures q1 == q2 && r1 == r2
  {
    if q1 < q2 {
      MixedRadixBound(q1, r1, q2, d);
    } else if q2 < q1 {
      MixedRadixBound(q2, r2, q1, d);
    }
  }

  function Zeros(n: nat): (z: seq<nat>)
    ensures |z| == n && forall j :: 0 <= j < n ==> z[j] == 0
  {
    seq(n, j => 0)
  }

  lemma {:induction false} ZerosRank(dims: seq<nat>)
    ensures Rank(Zeros(|dims|), dims) == 0
    decreases |dims|
  {
    if |dims| > 0 {
      var k := |dims| - 1;
      ZerosRank(dims[..k]);
      assert Zeros(|dims|)[..k] == Zeros(k);
    }
  }

  /** A positive product has no zero dimension. */
  lemma {:induction false} ProductPositive(dims: seq<nat>)
    requires Product(dims) > 0
    ensures forall j :: 0 <= j < |dims| ==> dims[j] > 0
    decreases |dims|
  {
    if |dims| > 0 {
      var k := |dims| - 1;
      assert Product(dims[..k]) > 0 && dims[k] > 0;
      ProductPositive(dims[..k]);
      forall j | 0 <= j < k
        ensures dims[j] > 0
      {
        assert dims[..k][j] == dims[j];
      }
    }
  }

  /** The slice loop of a 3D+ dataset over the leading dims `lead`:
      `total_slices` turns, each reading slice `slice_indices` (`readOk` says
      whether that read succeeded), analysing it if so, and advancing the
      indices either way. Returns the index tuple of every turn and those of
      the slices analysed. */
  method WalkSlices(lead: seq<nat>, readOk: seq<bool>) returns (visited: seq<seq<nat>>, analysed: seq<seq<nat>>)
    requires |readOk| == Product(lead)
    ensures |visited| == Product(lead)
    ensures forall s :: 0 <= s < |visited| ==> InRange(visited[s], lead) && Rank(visited[s], lead) == s
    ensures forall s :: 0 <= s < |visited| ==> (readOk[s] <==> visited[s] in analysed)
    ensures forall j :: 0 <= j < |analysed| ==>
              InRange(analysed[j], lead) && Rank(analysed[j], lead) < |readOk| && readOk[Rank(analysed[j], lead)]
    ensures Ascending(analysed, lead)
  {
    var total := Product(lead);
    var idx := Zeros(|lead|);
    visited, analysed := [], [];
    if total > 0 {
      ProductPositive(lead);
      ZerosRank(lead);
    }
    for s := 0 to total
      invariant |idx| == |lead|
      invariant s < total ==> InRange(idx, lead) && Rank(idx, lead) == s
      invariant VisitedInv(lead, s, visited) && AnalysedInv(lead, readOk, s, analysed)
      invariant CoverInv(readOk, s, visited, analysed) && Ascending(analysed, lead)
    {
      VisitedStep(lead, s, visited, idx);
      AnalysedStep(lead, readOk, s, analysed, idx);
      CoverStep(readOk, s, visited, analysed, idx);
      if readOk[s] {
        AscendingAppend(analysed, lead, idx);
      }
      visited := visited + [idx];
      if readOk[s] {
        analysed := analysed + [idx];
      }
      AdvanceRank(idx, lead);
      idx := Increment(idx, lead);
    }
    WalkEnd(lead, readOk, visited, analysed);
  }

  /** After s iterations, iteration t visited the tuple of rank t. */
  predicate VisitedInv(lead: seq<nat>, s: nat, visited: seq<seq<nat>>) {
    |visited| == s && forall t :: 0 <= t < s ==> InRange(visited[t], lead) && Rank(visited[t], lead) == t
  }

  /** Every analysed tuple was visited before iteration s and its read succeeded. */
  predicate AnalysedInv(lead: seq<nat>, readOk: seq<bool>, s: nat, analysed: seq<seq<nat>>) {
    s <= |readOk| &&
    forall j :: 0 <= j < |analysed| ==>
      InRange(analysed[j], lead) && Rank(analysed[j], lead) < s && readOk[Rank(analysed[j], lead)]
  }

  /** Every visited tuple whose read succeeded was analysed. */
  predicate CoverInv(readOk: seq<bool>, s: nat, visited: seq<seq<nat>>, analysed: seq<seq<nat>>) {
    s <= |readOk| && |visited| == s && forall t :: 0 <= t < s && readOk[t] ==> visited[t] in analysed
  }

  /** The tuples of `ts` are in range and their ranks strictly increase. */
  predicate Ascending(ts: seq<seq<nat>>, dims: seq<nat>) {
    forall i, j :: 0 <= i < j < |ts| ==>
      InRange(ts[i], dims) && InRange(ts[j], dims) && Rank(ts[i], dims) < Rank(ts[j], dims)
  }

  lemma VisitedStep(lead: seq<nat>, s: nat, visited: seq<seq<nat>>, idx: seq<nat>)
    requires VisitedInv(lead, s, visited)
    requires InRange(idx, lead) && Rank(idx, lead) == s
    ensures VisitedInv(lead, s + 1, visited + [idx])
  {
    var visited' := visited + [idx];
    forall t | 0 <= t < s + 1
      ensures InRange(visited'[t], lead) && Rank(visited'[t], lead) == t
    {
      if t < s {
        assert visited'[t] == visited[t];
      }
    }
  }

  lemma AnalysedStep(lead: seq<nat>, readOk: seq<bool>, s: nat, analysed: seq<seq<nat>>, idx: seq<nat>)
    requires AnalysedInv(lead, readOk, s, analysed) && s < |readOk|
    requires InRange(idx, lead) && Rank(idx, lead) == s
    ensures AnalysedInv(lead, readOk, s + 1, if readOk[s] then analysed + [idx] else analysed)
  {
    var analysed' := if readOk[s] then analysed + [idx] else analysed;
    forall j | 0 <= j < |analysed'|
      ensures InRange(analysed'[j], lead) && Rank(analysed'[j], lead) < s + 1 && readOk[Rank(analysed'[j], lead)]
    {
      if j < |analysed| {
        assert analysed'[j] == analysed[j];
      }
    }
  }

  lemma CoverStep(readOk: seq<bool>, s: nat, visited: seq<seq<nat>>, analysed: seq<seq<nat>>, idx: seq<nat>)
    requires CoverInv(readOk, s, visited, analysed) && s < |readOk|
    ensures CoverInv(readOk, s + 1, visited + [idx], if readOk[s] then analysed + [idx] else analysed)
  {
    var visited' := visited + [idx];
    var analysed' := if readOk[s] then analysed + [idx] else analysed;
    forall t | 0 <= t < s + 1 && readOk[t]
      ensures visited'[t] in analysed'
    {
      if t < s {
        assert visited[t] in analysed;
        assert visited'[t] == visited[t];
      } else {
        assert analysed'[|analysed'| - 1] == idx;
      }
    }
  }

  /** Appending a tuple ranked above all of `ts` keeps the order. */
  lemma AscendingAppend(ts: seq<seq<nat>>, dims: seq<nat>, idx: seq<nat>)
    requires Ascending(ts, dims) && InRange(idx, dims)
    requires forall j :: 0 <= j < |ts| ==> InRange(ts[j], dims) && Rank(ts[j], dims) < Rank(idx, dims)
    ensures Ascending(ts + [idx], dims)
  {
    var ts' := ts + [idx];
    forall i, j | 0 <= i < j < |ts'|
      ensures InRange(ts'[i], dims) && InRange(ts'[j], dims) && Rank(ts'[i], dims) < Rank(ts'[j], dims)
    {
      assert ts'[i] == ts[i];
      if j < |ts| {
        assert ts'[j] == ts[j];
      }
    }
  }

  lemma WalkEnd(lead: seq<nat>, readOk: seq<bool>, visited: seq<seq<nat>>, analysed: seq<seq<nat>>)
    requires |readOk| == Product(lead)
    requires VisitedInv(lead, |readOk|, visited) && AnalysedInv(lead, readOk, |readOk|, analysed)
    requires CoverInv(readOk, |readOk|, visited, analysed) && Ascending(analysed, lead)
    ensures |visited| == Product(lead)
    ensures forall s :: 0 <= s < |visited| ==> InRange(visited[s], lead) && Rank(visited[s], lead) == s
    ensures forall s :: 0 <= s < |visited| ==> (readOk[s] <==> visited[s] in analysed)
    ensures forall j :: 0 <= j < |analysed| ==>
              InRange(analysed[j], lead) && Rank(analysed[j], lead) < |readOk| && readOk[Rank(analysed[j], lead)]
    ensures Ascending(analysed, lead)
  {
  }

  /** The walk visits every leading index tuple exactly once. */
  lemma WalkCoversAll(lead: seq<nat>, visited: seq<seq<nat>>)
    requires |visited| == Product(lead)
    requires forall s :: 0 <= s < |visited| ==> InRange(visited[s], lead) && Rank(visited[s], lead) == s
    ensures forall s, t :: 0 <= s < t < |visited| ==> visited[s] != visited[t]
    ensures forall idx :: InRange(idx, lead) ==> exists s :: 0 <= s < |visited| && visited[s] == idx
  {
    forall idx | InRange(idx, lead)
      ensures exists s :: 0 <= s < |visited| && visited[s] == idx
    {
      var s := Rank(idx, lead);
      RankBound(idx, lead);
      RankInjective(visited[s], idx, lead);
    }
  }

  /** The row label of a slice: the leading indices, then ",:,:". */
  function SliceName(idx: seq<nat>): string {
    "[" + Join(Decimals(idx), ",") + ",:,:]"
  }

  /** Reading a slice label back. */
  function ParseSliceName(s: string): seq<int>
    requires |s| >= 6
  {
    ParseDecimalList(s[1..|s| - 5], ',')
  }

  /** A slice label names its indices. */
  lemma SliceNameRoundTrip(idx: seq<nat>)
    requires |idx| > 0
    ensures |SliceName(idx)| >= 6
    ensures ParseSliceName(SliceName(idx)) == idx
  {
    var s := SliceName(idx);
    assert s[1..|s| - 5] == Join(Decimals(idx), [',']);
    DecimalListRoundTrip(idx, ',');
  }
}
