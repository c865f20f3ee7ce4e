/** Decimal rendering of counts (`%zu`, `%llu`) and the joining of rendered
    parts with a separator, together with the parsers that undo them; the
    shape strings of src/bit_pattern.c and src/hdf_bit_analysis.c are built
    from these. */
module Text {

  predicate IsDigit(c: char) {
    '0' <= c <= '9'
  }

  function DigitChar(d: nat): (c: char)
    requires d < 10
    ensures IsDigit(c) && DigitValue(c) == d
  {
    ('0' as int + d) as char
  }

  function DigitValue(c: char): int {
    c as int - '0' as int
  }

  /** `%zu` / `%llu` of n: most significant digit first, no leading zero. */
  function Decimal(n: nat): (s: string)
    ensures |s| >= 1
    ensures forall i :: 0 <= i < |s| ==> IsDigit(s[i])
    ensures n > 0 ==> s[0] != '0'
    ensures s == "0" <==> n == 0
    decreases n
  {
    if n < 10 then [DigitChar(n)] else Decimal(n / 10) + [DigitChar(n % 10)]
  }

  /** Reads a string of digits back, most significant first. */
  function ParseDecimal(s: string): int {
    if |s| == 0 then 0 else ParseDecimal(s[..|s| - 1]) * 10 + DigitValue(s[|s| - 1])
  }

  lemma {:induction false} DecimalRoundTrip(n: nat)
    ensures ParseDecimal(Decimal(n)) == n
    decreases n
  {
    if n >= 10 {
      var s := Decimal(n);
      DecimalRoundTrip(n / 10);
      assert s[..|s| - 1] == Decimal(n / 10);
    }
  }

  /** Different numbers render differently. */
  lemma DecimalInjective(m: nat, n: nat)
    ensures Decimal(m) == Decimal(n) ==> m == n
  {
    DecimalRoundTrip(m);
    DecimalRoundTrip(n);
  }

  /** Each dimension rendered in decimal. */
  function Decimals(dims: seq<nat>): (r: seq<string>)
    ensures |r| == |dims|
    ensures forall i :: 0 <= i < |dims| ==> r[i] == Decimal(dims[i])
  {
    seq(|dims|, i requires 0 <= i < |dims| => Decimal(dims[i]))
  }

  /** A rendered dimension contains no character other than digits. */
  lemma DecimalsAvoid(dims: seq<nat>, c: char)
    requires !IsDigit(c)
    ensures forall i :: 0 <= i < |dims| ==> Avoids(Decimals(dims)[i], c)
  {
    forall i | 0 <= i < |dims|
      ensures Avoids(Decimals(dims)[i], c)
    {
      var s := Decimal(dims[i]);
      assert forall k :: 0 <= k < |s| ==> s[k] != c;
    }
  }

  /** Reading a list of decimals back: split at c, read each piece. */
  function ParseDecimalList(s: string, c: char): (r: seq<int>)
    ensures |r| == |Split(s, c)|
  {
    var parts := Split(s, c);
    seq(|parts|, i requires 0 <= i < |parts| => ParseDecimal(parts[i]))
  }

  /** Decimals joined by a non-digit read back as the numbers. */
  lemma DecimalListRoundTrip(dims: seq<nat>, c: char)
    requires |dims| > 0 && !IsDigit(c)
    ensures ParseDecimalList(Join(Decimals(dims), [c]), c) == dims
  {
    DecimalsAvoid(dims, c);
    SplitJoinChar(Decimals(dims), c);
    forall i | 0 <= i < |dims|
      ensures ParseDecimal(Decimal(dims[i])) == dims[i]
    {
      DecimalRoundTrip(dims[i]);
    }
  }

  /** No character of s is c. */
  predicate Avoids(s: string, c: char) {
    forall k :: 0 <= k < |s| ==> s[k] != c
  }

  /** The parts in order, `sep` between neighbours, nothing around them. */
  function Join(parts: seq<string>, sep: string): string {
    if |parts| == 0 then ""
    else if |parts| == 1 then parts[0]
    else Join(parts[..|parts| - 1], sep) + sep + parts[|parts| - 1]
  }

  /** The pieces of s between occurrences of c (one piece when c does not
      occur). */
  function Split(s: string, c: char): (r: seq<string>)
    ensures |r| >= 1
  {
    if |s| == 0 then [""]
    else
      var rest := Split(s[..|s| - 1], c);
      if s[|s| - 1] == c then rest + [""]
      else rest[..|rest| - 1] + [rest[|rest| - 1] + [s[|s| - 1]]]
  }

  /** Text without c only lengthens the last piece. */
  lemma {:induction false} SplitAppend(s: string, t: string, c: char)
    requires Avoids(t, c)
    ensures var r := Split(s, c);
            Split(s + t, c) == r[..|r| - 1] + [r[|r| - 1] + t]
    decreases |t|
  {
    if |t| == 0 {
      assert t == "";
      SplitAppendNothing(s, c);
    } else {
      var u, x := t[..|t| - 1], t[|t| - 1];
      SplitAppend(s, u, c);
      assert u + [x] == t;
      assert s + t == (s + u) + [x];
      SplitOther(s + u, x, c);
      SplitAppendStep(Split(s, c), Split(s + u, c), u, x);
    }
  }

  lemma SplitAppendNothing(s: string, c: char)
    ensures var r := Split(s, c);
            Split(s + "", c) == r[..|r| - 1] + [r[|r| - 1] + ""]
  {
    var r := Split(s, c);
    assert s + "" == s;
    assert r[|r| - 1] + "" == r[|r| - 1];
    assert r[..|r| - 1] + [r[|r| - 1]] == r;
  }

  /** One more character on the last piece, in terms of the pieces before u. */
  lemma SplitAppendStep(r: seq<string>, r': seq<string>, u: string, x: char)
    requires |r| >= 1 && r' == r[..|r| - 1] + [r[|r| - 1] + u]
    ensures r'[..|r'| - 1] + [r'[|r'| - 1] + [x]] == r[..|r| - 1] + [r[|r| - 1] + (u + [x])]
  {
    assert r'[..|r'| - 1] == r[..|r| - 1];
    assert (r[|r| - 1] + u) + [x] == r[|r| - 1] + (u + [x]);
  }

  /** Any other character extends the last piece. */
  lemma SplitOther(s: string, x: char, c: char)
    requires x != c
    ensures var r := Split(s, c);
            Split(s + [x], c) == r[..|r| - 1] + [r[|r| - 1] + [x]]
  {
    assert (s + [x])[..|s + [x]| - 1] == s;
  }

  /** A separator starts a new, empty piece. */
  lemma SplitAtSeparator(s: string, c: char)
    ensures Split(s + [c], c) == Split(s, c) + [""]
  {
    assert (s + [c])[..|s + [c]| - 1] == s;
  }

  lemma SplitOfPlain(s: string, c: char)
    requires Avoids(s, c)
    ensures Split(s, c) == [s]
  {
    SplitAppend("", s, c);
    assert "" + s == s;
  }

  /** Splitting joined parts at the separator's first character gives the
      parts back, each after the first still carrying the rest of the
      separator. */
  lemma {:induction false} SplitJoin(parts: seq<string>, c: char, pad: string)
    requires |parts| >= 1
    requires Avoids(pad, c)
    requires forall i :: 0 <= i < |parts| ==> Avoids(parts[i], c)
    ensures var r := Split(Join(parts, [c] + pad), c);
            |r| == |parts| && r[0] == parts[0] &&
            forall i :: 1 <= i < |parts| ==> r[i] == pad + parts[i]
    decreases |parts|
  {
    var n := |parts|;
    if n == 1 {
      SplitOfPlain(parts[0], c);
    } else {
      var front := parts[..n - 1];
      SplitJoin(front, c, pad);
      JoinLast(parts, c, pad);
      AvoidsConcat(pad, parts[n - 1], c);
      SplitLastPiece(Join(front, [c] + pad), pad + parts[n - 1], c);
      PadPieces(Split(Join(front, [c] + pad), c), parts, pad);
    }
  }

  /** The last part follows the separator's character and its pad. */
  lemma JoinLast(parts: seq<string>, c: char, pad: string)
    requires |parts| >= 2
    ensures Join(parts, [c] + pad) ==
            (Join(parts[..|parts| - 1], [c] + pad) + [c]) + (pad + parts[|parts| - 1])
  {
  }

  lemma AvoidsConcat(s: string, t: string, c: char)
    requires Avoids(s, c) && Avoids(t, c)
    ensures Avoids(s + t, c)
  {
  }

  /** c and then text without c add one piece. */
  lemma SplitLastPiece(j: string, last: string, c: char)
    requires Avoids(last, c)
    ensures Split((j + [c]) + last, c) == Split(j, c) + [last]
  {
    SplitAtSeparator(j, c);
    SplitAppend(j + [c], last, c);
    var r1 := Split(j + [c], c);
    assert r1[..|r1| - 1] == Split(j, c);
    assert r1[|r1| - 1] + last == last;
  }

  /** The pieces of the front parts, with the padded last part after them. */
  lemma PadPieces(r0: seq<string>, parts: seq<string>, pad: string)
    requires |parts| >= 2 && |r0| == |parts| - 1 && r0[0] == parts[0]
    requires forall i :: 1 <= i < |parts| - 1 ==> r0[i] == pad + parts[i]
    ensures var r := r0 + [pad + parts[|parts| - 1]];
            |r| == |parts| && r[0] == parts[0] &&
            forall i :: 1 <= i < |parts| ==> r[i] == pad + parts[i]
  {
  }

  /** With a one-character separator the parts come back exactly. */
  lemma SplitJoinChar(parts: seq<string>, c: char)
    requires |parts| >= 1
    requires forall i :: 0 <= i < |parts| ==> Avoids(parts[i], c)
    ensures Split(Join(parts, [c]), c) == parts
  {
    assert [c] + "" == [c];
    SplitJoin(parts, c, "");
    UnpaddedPieces(Split(Join(parts, [c]), c), parts);
  }

  lemma UnpaddedPieces(r: seq<string>, parts: seq<string>)
    requires |r| == |parts| >= 1 && r[0] == parts[0]
    requires forall i :: 1 <= i < |parts| ==> r[i] == "" + parts[i]
    ensures r == parts
  {
    forall i | 1 <= i < |parts|
      ensures r[i] == parts[i]
    {
      assert "" + parts[i] == parts[i];
    }
  }
}
