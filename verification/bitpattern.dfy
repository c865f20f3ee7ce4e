/** The diagnostic bit-pattern classifier of src/bit_pattern.c: for every bit
    position of an element type, whether all considered elements have the bit
    clear (0), all have it set (1), or they disagree (2); the text layout that
    shows the classification MSB first; and the "x"-joined shape string. */
module BitPattern {
  import opened Wrappers
  import opened Text
  import Float32

  const MaxPatternLen: nat := 256

  /** `dtype_t` (src/bit_pattern.h). */
  datatype DType = DFloat32 | DFloat64 | DInt16 | DUInt16 | DInt32 | DUInt32 | DInt64 | DUInt64

  /** The enum value of each type. */
  function Code(d: DType): (c: nat)
    ensures c <= 7
  {
    match d
    case DFloat32 => 0
    case DFloat64 => 1
    case DInt16 => 2
    case DUInt16 => 3
    case DInt32 => 4
    case DUInt32 => 5
    case DInt64 => 6
    case DUInt64 => 7
  }

  /** The type an `int` names, if any: the `default:` branch of a switch on
      `dtype_t` is every other value. */
  function DTypeOfCode(c: int): (d: Option<DType>)
    ensures d.Some? <==> 0 <= c <= 7
    ensures d.Some? ==> Code(d.value) == c
  {
    if c == 0 then Some(DFloat32)
    else if c == 1 then Some(DFloat64)
    else if c == 2 then Some(DInt16)
    else if c == 3 then Some(DUInt16)
    else if c == 4 then Some(DInt32)
    else if c == 5 then Some(DUInt32)
    else if c == 6 then Some(DInt64)
    else if c == 7 then Some(DUInt64)
    else None
  }

  lemma CodeRoundTrip(d: DType)
    ensures DTypeOfCode(Code(d)) == Some(d)
  {
  }

  /** What the switch of `analyze_data_bits` sets up for a type. */
  datatype Layout = Layout(elementSize: nat, bitWidth: nat, checkFinite: bool)

  function LayoutOf(d: DType): (l: Layout)
    ensures l.bitWidth == 8 * l.elementSize
    ensures l.elementSize in {2, 4, 8}
    ensures l.checkFinite <==> d == DFloat32 || d == DFloat64
  {
    match d
    case DFloat32 => Layout(4, 32, true)
    case DFloat64 => Layout(8, 64, true)
    case DInt16 | DUInt16 => Layout(2, 16, false)
    case DInt32 | DUInt32 => Layout(4, 32, false)
    case DInt64 | DUInt64 => Layout(8, 64, false)
  }

  // ----- one element -----

  /** An element is its `element_size` bytes in memory order; the hosts the
      tool targets are little-endian, so byte k holds bits 8k..8k+7. */
  type Element = seq<bv8>

  /** `(element[pos / 8] & (1 << pos % 8)) != 0`, and clear for a position past
      the element's bytes. */
  predicate BitSet(e: Element, pos: nat) {
    pos / 8 < |e| && e[pos / 8] & (1 << (pos % 8) as bv8) != 0
  }

  /** `isfinite` of a float (bytes 2-3) or double (bytes 6-7): the exponent
      field is not all ones. */
  predicate FiniteFloat(e: Element)
    requires |e| == 4
  {
    !(e[3] & 0x7F == 0x7F && e[2] & 0x80 == 0x80)
  }

  predicate FiniteDouble(e: Element)
    requires |e| == 8
  {
    !(e[7] & 0x7F == 0x7F && e[6] & 0xF0 == 0xF0)
  }

  /** Whether the loop looks at an element: with `check_finite` set, an
      element of float or double size that is NaN or infinite is skipped. */
  predicate Considered(e: Element, checkFinite: bool) {
    !checkFinite ||
    (if |e| == 4 then FiniteFloat(e) else if |e| == 8 then FiniteDouble(e) else true)
  }

  /** The 32-bit word of a float's four bytes. */
  function WordOf(e: Element): bv32
    requires |e| == 4
  {
    (e[0] as bv32) | (e[1] as bv32 << 8) | (e[2] as bv32 << 16) | (e[3] as bv32 << 24)
  }

  /** On a float, the byte-level tests agree with the word-level ones used by
      the bit-rounding tool. */
  lemma FloatBytesMatchWord(e: Element)
    requires |e| == 4
    ensures FiniteFloat(e) <==> Float32.IsFinite(WordOf(e))
  {
  }

  // ----- the classification -----

  /** The class of bit `pos` over the considered elements, as the loop of
      `analyze_bits_generic` defines it: 0 when none of them has it set (also
      when there is none), else 1 when all of them have it set, else 2. */
  function Classify(elems: seq<Element>, checkFinite: bool, pos: nat): (k: nat)
    ensures k <= 2
  {
    if forall i :: 0 <= i < |elems| && Considered(elems[i], checkFinite) ==> !BitSet(elems[i], pos) then 0
    else if forall i :: 0 <= i < |elems| && Considered(elems[i], checkFinite) ==> BitSet(elems[i], pos) then 1
    else 2
  }

  /** The three classes in terms of witnesses: 1 needs a considered element
      with the bit set and none without; 2 needs one of each. */
  lemma ClassifyMeaning(elems: seq<Element>, checkFinite: bool, pos: nat)
    ensures var k := Classify(elems, checkFinite, pos);
            var hasSet := exists i :: 0 <= i < |elems| && Considered(elems[i], checkFinite) && BitSet(elems[i], pos);
            var hasClear := exists i :: 0 <= i < |elems| && Considered(elems[i], checkFinite) && !BitSet(elems[i], pos);
            (k == 0 <==> !hasSet) && (k == 1 <==> hasSet && !hasClear) && (k == 2 <==> hasSet && hasClear)
  {
  }

  /** With no element at all (or none considered) every position is 0. */
  lemma NothingConsideredIsZero(elems: seq<Element>, checkFinite: bool, pos: nat)
    requires forall i :: 0 <= i < |elems| ==> !Considered(elems[i], checkFinite)
    ensures Classify(elems, checkFinite, pos) == 0
  {
  }

  /** `analyze_bits_generic`: returns 0 and fills one entry per bit position;
      the inner loop stops at the first element that makes a position mixed. */
  method AnalyzeBitsGeneric(elems: seq<Element>, elementSize: nat, bitWidth: nat, checkFinite: bool)
      returns (status: int, pattern: seq<nat>)
    requires forall i :: 0 <= i < |elems| ==> |elems[i]| == elementSize
    ensures status == 0
    ensures |pattern| == bitWidth
    ensures forall p :: 0 <= p < bitWidth ==> pattern[p] == Classify(elems, checkFinite, p)
    ensures |elems| == 0 ==> forall p :: 0 <= p < bitWidth ==> pattern[p] == 0
  {
    pattern := seq(bitWidth, _ => 0);
    if |elems| == 0 {
      return 0, pattern;
    }
    var pos := 0;
    while pos < bitWidth
      invariant 0 <= pos <= bitWidth && |pattern| == bitWidth
      invariant forall p :: 0 <= p < pos ==> pattern[p] == Classify(elems, checkFinite, p)
    {
      var k := ClassifyPosition(elems, checkFinite, pos);
      pattern := pattern[pos := k];
      pos := pos + 1;
    }
    status := 0;
  }

  /** The inner loop for one position, with its early exit. */
  method ClassifyPosition(elems: seq<Element>, checkFinite: bool, pos: nat) returns (k: nat)
    ensures k == Classify(elems, checkFinite, pos)
  {
    var allZero, allOne := true, true;
    var i := 0;
    while i < |elems|
      invariant 0 <= i <= |elems|
      invariant allZero <==> forall j :: 0 <= j < i && Considered(elems[j], checkFinite) ==> !BitSet(elems[j], pos)
      invariant allOne <==> forall j :: 0 <= j < i && Considered(elems[j], checkFinite) ==> BitSet(elems[j], pos)
    {
      if Considered(elems[i], checkFinite) {
        var bitSet := BitSet(elems[i], pos);
        if bitSet { allZero := false; }
        if !bitSet { allOne := false; }
        if !allZero && !allOne {
          ClassifyMeaning(elems, checkFinite, pos);
          return 2;
        }
      }
      i := i + 1;
    }
    k := if allZero then 0 else if allOne then 1 else 2;
  }

  // ----- analyze_data_bits -----

  /** `bit_pattern_result_t`. */
  datatype PatternResult = PatternResult(pattern: string, bitWidth: nat, allZerosCount: nat, allOnesCount: nat, mixedCount: nat)

  /** How many entries of s equal v. */
  function CountOf(s: seq<nat>, v: nat): nat {
    if |s| == 0 then 0 else CountOf(s[..|s| - 1], v) + (if s[|s| - 1] == v then 1 else 0)
  }

  /** Entries 0, 1 and 2 together account for a whole pattern. */
  lemma {:induction false} CountsPartition(s: seq<nat>)
    requires forall i :: 0 <= i < |s| ==> s[i] <= 2
    ensures CountOf(s, 0) + CountOf(s, 1) + CountOf(s, 2) == |s|
  {
    if |s| > 0 {
      CountsPartition(s[..|s| - 1]);
    }
  }

  /** The classification of every position below w. */
  function ClassPattern(elems: seq<Element>, checkFinite: bool, w: nat): (r: seq<nat>)
    ensures |r| == w
    ensures forall p :: 0 <= p < w ==> r[p] == Classify(elems, checkFinite, p) && r[p] <= 2
  {
    seq(w, p requires 0 <= p < w => Classify(elems, checkFinite, p))
  }

  /** The counting loop of `analyze_data_bits`; an entry other than 0, 1 or 2
      would be counted nowhere. */
  method CountClasses(pattern: seq<nat>) returns (zeros: nat, ones: nat, mixed: nat)
    ensures zeros == CountOf(pattern, 0) && ones == CountOf(pattern, 1) && mixed == CountOf(pattern, 2)
    ensures (forall i :: 0 <= i < |pattern| ==> pattern[i] <= 2) ==> zeros + ones + mixed == |pattern|
  {
    zeros, ones, mixed := 0, 0, 0;
    var i := 0;
    while i < |pattern|
      invariant 0 <= i <= |pattern|
      invariant zeros == CountOf(pattern[..i], 0)
      invariant ones == CountOf(pattern[..i], 1)
      invariant mixed == CountOf(pattern[..i], 2)
    {
      assert pattern[..i + 1][..i] == pattern[..i];
      if pattern[i] == 0 {
        zeros := zeros + 1;
      } else if pattern[i] == 1 {
        ones := ones + 1;
      } else if pattern[i] == 2 {
        mixed := mixed + 1;
      }
      i := i + 1;
    }
    assert pattern[..i] == pattern;
    if forall i :: 0 <= i < |pattern| ==> pattern[i] <= 2 {
      CountsPartition(pattern);
    }
  }

  /** `analyze_data_bits`: -1 for a value outside `dtype_t`; otherwise the
      classification at the type's width, its three counts (which add up to
      the width), and its text. */
  method AnalyzeDataBits(elems: seq<Element>, dtype: int) returns (status: int, result: Option<PatternResult>)
    requires DTypeOfCode(dtype).Some? ==>
               forall i :: 0 <= i < |elems| ==> |elems[i]| == LayoutOf(DTypeOfCode(dtype).value).elementSize
    ensures status == -1 <==> DTypeOfCode(dtype).None?
    ensures status == 0 <==> result.Some?
    ensures status == -1 || status == 0
    ensures result.Some? ==>
              var d := DTypeOfCode(dtype).value;
              var l := LayoutOf(d);
              var pattern := ClassPattern(elems, l.checkFinite, l.bitWidth);
              result.value == PatternResult(FormatBitPattern(pattern, l.bitWidth, d), l.bitWidth,
                                            CountOf(pattern, 0), CountOf(pattern, 1), CountOf(pattern, 2))
    ensures result.Some? ==>
              result.value.allZerosCount + result.value.allOnesCount + result.value.mixedCount == result.value.bitWidth
  {
    var d := DTypeOfCode(dtype);
    if d.None? {
      return -1, None;
    }
    var l := LayoutOf(d.value);
    var st, pattern := AnalyzeBitsGeneric(elems, l.elementSize, l.bitWidth, l.checkFinite);
    assert pattern == ClassPattern(elems, l.checkFinite, l.bitWidth);
    var zeros, ones, mixed := CountClasses(pattern);
    var text := FormatBitPattern(pattern, l.bitWidth, d.value);
    return 0, Some(PatternResult(text, l.bitWidth, zeros, ones, mixed));
  }

  // ----- format_bit_pattern -----

  function Symbol(v: nat): (c: char)
    ensures c == '0' || c == '1' || c == '-'
  {
    if v == 0 then '0' else if v == 1 then '1' else '-'
  }

  /** A `'|'` follows the sign bit and the last exponent bit of a float or
      double printed at its own width. */
  predicate FieldEnd(i: nat, w: nat, d: DType) {
    (d == DFloat32 && w == 32 && (i == 31 || i == 23)) ||
    (d == DFloat64 && w == 64 && (i == 63 || i == 52))
  }

  /** What one iteration of the loop writes for position i: the symbol, the
      field separator if any, then a space after each completed group of 8
      unless the last character written is `'|'`. */
  function Piece(pattern: seq<nat>, w: nat, d: DType, i: nat): string
    requires i < |pattern| && i < w
  {
    var s := [Symbol(pattern[i])] + (if FieldEnd(i, w, d) then "|" else "");
    s + (if i > 0 && (w - i) % 8 == 0 && s[|s| - 1] != '|' then " " else "")
  }

  /** The pieces for positions hi-1 down to lo. */
  function Pieces(pattern: seq<nat>, w: nat, d: DType, hi: nat, lo: nat): string
    requires lo <= hi <= |pattern| && hi <= w
    decreases hi - lo
  {
    if hi == lo then "" else Piece(pattern, w, d, hi - 1) + Pieces(pattern, w, d, hi - 1, lo)
  }

  /** `format_bit_pattern`. */
  function FormatBitPattern(pattern: seq<nat>, w: nat, d: DType): string
    requires w <= |pattern|
  {
    "(MSB) " + Pieces(pattern, w, d, w, 0) + " (LSB)"
  }

  /** The symbols of positions hi-1 down to lo, nothing between them. */
  function Symbols(pattern: seq<nat>, hi: nat, lo: nat): (s: string)
    requires lo <= hi <= |pattern|
    ensures |s| == hi - lo
    ensures forall k :: 0 <= k < hi - lo ==> s[k] == Symbol(pattern[hi - 1 - k])
  {
    seq(hi - lo, k requires 0 <= k < hi - lo => Symbol(pattern[hi - 1 - k]))
  }

  predicate IsSeparator(c: char) {
    c == '|' || c == ' '
  }

  lemma SymbolsSplit(pattern: seq<nat>, hi: nat, mid: nat, lo: nat)
    requires lo <= mid <= hi <= |pattern|
    ensures Symbols(pattern, hi, lo) == Symbols(pattern, hi, mid) + Symbols(pattern, mid, lo)
    ensures mid == hi - 1 ==> Symbols(pattern, hi, mid) == [Symbol(pattern[mid])]
  {
    assert Symbols(pattern, hi, lo) == Symbols(pattern, hi, mid) + Symbols(pattern, mid, lo);
  }

  /** The characters of s other than the separators `'|'` and `' '`. */
  function Strip(s: string): (r: string)
    ensures |r| <= |s|
  {
    if |s| == 0 then ""
    else Strip(s[..|s| - 1]) + (if IsSeparator(s[|s| - 1]) then "" else [s[|s| - 1]])
  }

  lemma {:induction false} StripConcat(a: string, b: string)
    ensures Strip(a + b) == Strip(a) + Strip(b)
    decreases |b|
  {
    if |b| == 0 {
      assert a + b == a;
    } else {
      var b', x := b[..|b| - 1], b[|b| - 1];
      StripConcat(a, b');
      assert (a + b)[..|a + b| - 1] == a + b';
      assert (a + b)[|a + b| - 1] == x;
      var tail := if IsSeparator(x) then "" else [x];
      assert (Strip(a) + Strip(b')) + tail == Strip(a) + (Strip(b') + tail);
    }
  }

  lemma StripPiece(pattern: seq<nat>, w: nat, d: DType, i: nat)
    requires i < |pattern| && i < w
    ensures Strip(Piece(pattern, w, d, i)) == [Symbol(pattern[i])]
    ensures 1 <= |Piece(pattern, w, d, i)| <= 2
  {
    var c := Symbol(pattern[i]);
    var p := Piece(pattern, w, d, i);
    if |p| == 2 {
      assert p == [c] + [p[1]];
      assert IsSeparator(p[1]);
      StripConcat([c], [p[1]]);
      assert Strip([c]) == Strip([c][..0]) + [c];
    } else {
      assert p == [c];
      assert Strip(p) == Strip(p[..0]) + [c];
    }
  }

  /** Removing the separators leaves exactly the symbols, MSB first. */
  lemma {:induction false} StripPieces(pattern: seq<nat>, w: nat, d: DType, hi: nat, lo: nat)
    requires lo <= hi <= |pattern| && hi <= w
    ensures Strip(Pieces(pattern, w, d, hi, lo)) == Symbols(pattern, hi, lo)
    ensures |Pieces(pattern, w, d, hi, lo)| <= 2 * (hi - lo)
    decreases hi - lo
  {
    if hi > lo {
      var p := Piece(pattern, w, d, hi - 1);
      var rest := Pieces(pattern, w, d, hi - 1, lo);
      StripPieces(pattern, w, d, hi - 1, lo);
      StripPiece(pattern, w, d, hi - 1);
      StripConcat(p, rest);
      SymbolsSplit(pattern, hi, hi - 1, lo);
    }
  }

  /** The output is the two markers around the symbols of positions
      bit_width-1 down to 0, each followed by at most one separator, so it
      fits `MAX_PATTERN_LEN` for every width up to 64. */
  lemma FormatBitPatternLayout(pattern: seq<nat>, w: nat, d: DType)
    requires w <= |pattern|
    ensures var out := FormatBitPattern(pattern, w, d);
            var mid := out[6..|out| - 6];
            out[..6] == "(MSB) " && out[|out| - 6..] == " (LSB)" &&
            Strip(mid) == Symbols(pattern, w, 0) &&
            |out| <= 12 + 2 * w
    ensures w <= 64 ==> |FormatBitPattern(pattern, w, d)| < MaxPatternLen
  {
    var mid := Pieces(pattern, w, d, w, 0);
    StripPieces(pattern, w, d, w, 0);
    var out := FormatBitPattern(pattern, w, d);
    assert out[6..|out| - 6] == mid;
  }

  /** Pieces concatenate across any split point. */
  lemma {:induction false} PiecesSplit(pattern: seq<nat>, w: nat, d: DType, hi: nat, mid: nat, lo: nat)
    requires lo <= mid <= hi <= |pattern| && hi <= w
    ensures Pieces(pattern, w, d, hi, lo) == Pieces(pattern, w, d, hi, mid) + Pieces(pattern, w, d, mid, lo)
    decreases hi - mid
  {
    if hi > mid {
      PiecesSplit(pattern, w, d, hi - 1, mid, lo);
    }
  }

  /** No position in [lo, hi) is followed by a separator. */
  predicate NoSeparators(w: nat, d: DType, hi: nat, lo: nat)
    decreases hi - lo
  {
    hi <= lo ||
    (!FieldEnd(hi - 1, w, d) && (hi - 1 == 0 || (w - (hi - 1)) % 8 != 0) && NoSeparators(w, d, hi - 1, lo))
  }

  /** A run of positions with no separator after any of them prints as its
      bare symbols. */
  lemma {:induction false} PlainRun(pattern: seq<nat>, w: nat, d: DType, hi: nat, lo: nat)
    requires lo <= hi <= |pattern| && hi <= w
    requires NoSeparators(w, d, hi, lo)
    ensures Pieces(pattern, w, d, hi, lo) == Symbols(pattern, hi, lo)
    decreases hi - lo
  {
    if hi > lo {
      PlainRun(pattern, w, d, hi - 1, lo);
      SingleWithSeparator(pattern, w, d, hi - 1);
      SymbolsSplit(pattern, hi, hi - 1, lo);
    }
  }

  /** The separator the loop writes after position i, if any. */
  function SeparatorAfter(w: nat, d: DType, i: nat): string {
    if FieldEnd(i, w, d) then "|" else if i > 0 && (w - i) % 8 == 0 then " " else ""
  }

  /** A run of positions of which only the last one printed, lo, may be
      followed by a separator. */
  lemma Segment(pattern: seq<nat>, w: nat, d: DType, hi: nat, lo: nat)
    requires lo < hi <= |pattern| && hi <= w
    requires NoSeparators(w, d, hi, lo + 1)
    ensures Pieces(pattern, w, d, hi, lo) == Symbols(pattern, hi, lo) + SeparatorAfter(w, d, lo)
  {
    PiecesSplit(pattern, w, d, hi, lo + 1, lo);
    PlainRun(pattern, w, d, hi, lo + 1);
    SingleWithSeparator(pattern, w, d, lo);
    SymbolsSplit(pattern, hi, lo + 1, lo);
  }

  /** Two neighbouring segments. */
  lemma TwoSegments(pattern: seq<nat>, w: nat, d: DType, hi: nat, mid: nat, lo: nat)
    requires lo < mid < hi <= |pattern| && hi <= w
    requires NoSeparators(w, d, hi, mid + 1) && NoSeparators(w, d, mid, lo + 1)
    ensures Pieces(pattern, w, d, hi, lo) ==
            Symbols(pattern, hi, mid) + SeparatorAfter(w, d, mid) + Symbols(pattern, mid, lo) + SeparatorAfter(w, d, lo)
  {
    PiecesSplit(pattern, w, d, hi, mid, lo);
    Segment(pattern, w, d, hi, mid);
    Segment(pattern, w, d, mid, lo);
    ConcatFour(Pieces(pattern, w, d, hi, mid), Pieces(pattern, w, d, mid, lo),
               Symbols(pattern, hi, mid), SeparatorAfter(w, d, mid),
               Symbols(pattern, mid, lo), SeparatorAfter(w, d, lo));
  }

  lemma ConcatFour(p: string, q: string, x: string, y: string, z: string, u: string)
    requires p == x + y && q == z + u
    ensures p + q == x + y + z + u
  {
    assert (x + y) + (z + u) == x + y + z + u;
  }

  lemma Float32HighSeps(d: DType)
    requires d == DFloat32
    ensures SeparatorAfter(32, d, 31) == "|" && SeparatorAfter(32, d, 24) == " "
    ensures SeparatorAfter(32, d, 23) == "|" && SeparatorAfter(32, d, 16) == " "
    ensures NoSeparators(32, d, 32, 32) && NoSeparators(32, d, 31, 25)
    ensures NoSeparators(32, d, 24, 24) && NoSeparators(32, d, 23, 17)
  {
  }

  lemma Float32LowSeps(d: DType)
    requires d == DFloat32
    ensures SeparatorAfter(32, d, 8) == " " && SeparatorAfter(32, d, 0) == ""
    ensures NoSeparators(32, d, 16, 9) && NoSeparators(32, d, 8, 1)
  {
  }

  /** The float32 layout: sign, `'|'`, exponent bits 30-24, a space (the
      byte boundary), exponent bit 23, `'|'`, then the significand in the
      byte groups 22-16, 15-8 and 7-0. */
  lemma Float32Layout(pattern: seq<nat>)
    requires |pattern| >= 32
    ensures FormatBitPattern(pattern, 32, DFloat32) ==
            "(MSB) "
            + ((Symbols(pattern, 32, 31) + "|" + Symbols(pattern, 31, 24) + " ")
               + (Symbols(pattern, 24, 23) + "|" + Symbols(pattern, 23, 16) + " "))
            + (Symbols(pattern, 16, 8) + " " + Symbols(pattern, 8, 0))
            + " (LSB)"
  {
    Float32High(pattern, DFloat32);
    Float32Low(pattern, DFloat32);
    PiecesSplit(pattern, 32, DFloat32, 32, 16, 0);
  }

  /** Sign, exponent and the first significand group. */
  lemma Float32High(pattern: seq<nat>, d: DType)
    requires |pattern| >= 32 && d == DFloat32
    ensures Pieces(pattern, 32, d, 32, 16) ==
            (Symbols(pattern, 32, 31) + "|" + Symbols(pattern, 31, 24) + " ")
            + (Symbols(pattern, 24, 23) + "|" + Symbols(pattern, 23, 16) + " ")
  {
    PiecesSplit(pattern, 32, d, 32, 24, 16);
    Float32SignAndExponent(pattern, d);
    Float32ExponentEnd(pattern, d);
  }

  lemma Float32SignAndExponent(pattern: seq<nat>, d: DType)
    requires |pattern| >= 32 && d == DFloat32
    ensures Pieces(pattern, 32, d, 32, 24) == Symbols(pattern, 32, 31) + "|" + Symbols(pattern, 31, 24) + " "
  {
    Float32HighSeps(d);
    TwoSegments(pattern, 32, d, 32, 31, 24);
  }

  lemma Float32ExponentEnd(pattern: seq<nat>, d: DType)
    requires |pattern| >= 32 && d == DFloat32
    ensures Pieces(pattern, 32, d, 24, 16) == Symbols(pattern, 24, 23) + "|" + Symbols(pattern, 23, 16) + " "
  {
    Float32HighSeps(d);
    TwoSegments(pattern, 32, d, 24, 23, 16);
  }

  /** The last two significand groups. */
  lemma Float32Low(pattern: seq<nat>, d: DType)
    requires |pattern| >= 32 && d == DFloat32
    ensures Pieces(pattern, 32, d, 16, 0) == Symbols(pattern, 16, 8) + " " + Symbols(pattern, 8, 0)
  {
    Float32LowSeps(d);
    TwoSegments(pattern, 32, d, 16, 8, 0);
    var low := Symbols(pattern, 8, 0);
    assert low + "" == low;
  }

  /** The layout of a 16-bit integer type: two byte groups and one space. */
  lemma Int16Layout(pattern: seq<nat>, d: DType)
    requires |pattern| >= 16 && d != DFloat32 && d != DFloat64
    ensures FormatBitPattern(pattern, 16, d) ==
            "(MSB) " + (Symbols(pattern, 16, 8) + " " + Symbols(pattern, 8, 0)) + " (LSB)"
  {
    Int16Seps(d);
    TwoSegments(pattern, 16, d, 16, 8, 0);
    var low := Symbols(pattern, 8, 0);
    assert low + "" == low;
  }

  lemma Int16Seps(d: DType)
    requires d != DFloat32 && d != DFloat64
    ensures SeparatorAfter(16, d, 8) == " " && SeparatorAfter(16, d, 0) == ""
    ensures NoSeparators(16, d, 16, 9) && NoSeparators(16, d, 8, 1)
  {
  }

  /** The piece of one position, as a one-symbol run and its separator. */
  lemma SingleWithSeparator(pattern: seq<nat>, w: nat, d: DType, i: nat)
    requires i < |pattern| && i < w
    ensures Pieces(pattern, w, d, i + 1, i) == Symbols(pattern, i + 1, i) + SeparatorAfter(w, d, i)
  {
    var c := Symbol(pattern[i]);
    var p := Piece(pattern, w, d, i);
    assert Pieces(pattern, w, d, i + 1, i) == p + "";
    if FieldEnd(i, w, d) {
      assert p == [c] + "|";
    } else {
      assert p == [c] + (if i > 0 && (w - i) % 8 == 0 then " " else "");
    }
    assert Symbols(pattern, i + 1, i) == [c];
  }

  // ----- format_shape_string -----

  /** `format_shape_string`: the loop writes "x" before every dimension but
      the first, then the dimension in decimal. */
  function FormatShapeString(dims: seq<nat>): string {
    if |dims| == 0 then ""
    else FormatShapeString(dims[..|dims| - 1]) + (if |dims| > 1 then "x" else "") + Decimal(dims[|dims| - 1])
  }

  /** The shape string is the decimals joined by "x" (empty with no dims). */
  lemma {:induction false} ShapeStringIsJoin(dims: seq<nat>)
    ensures FormatShapeString(dims) == Join(Decimals(dims), "x")
  {
    if |dims| > 1 {
      var n := |dims|;
      ShapeStringIsJoin(dims[..n - 1]);
      assert Decimals(dims)[..n - 1] == Decimals(dims[..n - 1]);
    }
  }

  /** Reading a shape string back: split at 'x', read each part. */
  function ParseShape(s: string): seq<int> {
    ParseDecimalList(s, 'x')
  }

  lemma ShapeStringRoundTrip(dims: seq<nat>)
    requires |dims| > 0
    ensures ParseShape(FormatShapeString(dims)) == dims
  {
    ShapeStringIsJoin(dims);
    assert "x" == ['x'];
    DecimalListRoundTrip(dims, 'x');
  }
}
