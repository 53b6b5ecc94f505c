/**
 * The C library's number parsers as the NMEA parser uses them: `atoi` and
 * `atof` read the longest numeric prefix of a C string, after leading white
 * space; what follows it (a NUL, a letter, a comma) is ignored. Values are
 * exact: `atof` yields the real number the text denotes, not its nearest
 * double.
 */
module CNumbers {
  import opened CStrings

  /** isspace in the C locale. */
  predicate IsSpace(c: CChar)
  {
    c == ' ' || c == '\t' || c == '\n' || c == '\r' || c as int == 11 || c as int == 12
  }

  predicate IsDigit(c: CChar)
  {
    '0' <= c <= '9'
  }

  predicate IsHexDigit(c: CChar)
  {
    IsDigit(c) || 'a' <= c <= 'f' || 'A' <= c <= 'F'
  }

  predicate AllDigits(ds: seq<CChar>)
  {
    forall k :: 0 <= k < |ds| ==> IsDigit(ds[k])
  }

  predicate AllHexDigits(ds: seq<CChar>)
  {
    forall k :: 0 <= k < |ds| ==> IsHexDigit(ds[k])
  }

  function DigitValue(c: CChar): (v: nat)
    requires IsHexDigit(c)
    ensures v < 16
    ensures IsDigit(c) ==> v < 10
  {
    if IsDigit(c) then c as int - '0' as int
    else if 'a' <= c <= 'f' then c as int - 'a' as int + 10
    else c as int - 'A' as int + 10
  }

  /**
   * The end of the run of characters satisfying p that starts at offset i:
   * the first offset from i on whose character fails p, else the end.
   */
  function Span(s: seq<CChar>, i: nat, p: CChar -> bool): (r: nat)
    requires i <= |s|
    ensures i <= r <= |s|
    ensures forall k :: i <= k < r ==> p(s[k])
    ensures r < |s| ==> !p(s[r])
    decreases |s| - i
  {
    if i < |s| && p(s[i]) then Span(s, i + 1, p) else i
  }

  /** Span is pinned down by its contract: a run of n matching characters followed by a non-matching one (or the end). */
  lemma {:induction false} SpanIs(s: seq<CChar>, i: nat, p: CChar -> bool, r: nat)
    requires i <= r <= |s|
    requires forall k :: i <= k < r ==> p(s[k])
    requires r < |s| ==> !p(s[r])
    ensures Span(s, i, p) == r
  {
  }

  /** The value of a string of digits in base b, most significant first. */
  function Value(ds: seq<CChar>, b: nat): nat
    requires AllHexDigits(ds)
  {
    if ds == [] then 0 else Value(ds[..|ds| - 1], b) * b + DigitValue(ds[|ds| - 1])
  }

  function Pow(b: nat, n: nat): (r: nat)
    ensures b > 0 ==> r > 0
  {
    if n == 0 then 1 else b * Pow(b, n - 1)
  }

  /** The value of the digits of a fraction, 0.d1d2d3... in base b. */
  function FracValue(ds: seq<CChar>, b: nat): real
    requires AllHexDigits(ds) && b > 0
  {
    if ds == [] then 0.0 else (DigitValue(ds[0]) as real + FracValue(ds[1..], b)) / b as real
  }

  /** b raised to an integer power, as a real. */
  function RealPow(b: nat, z: int): (r: real)
    requires b > 0
    ensures r > 0.0
  {
    if z >= 0 then Pow(b, z) as real else 1.0 / Pow(b, -z) as real
  }

  /** Digits written after others scale those by the base: the positional rule. */
  lemma {:induction false} ValueAppend(x: seq<CChar>, y: seq<CChar>, b: nat)
    requires AllHexDigits(x) && AllHexDigits(y)
    ensures AllHexDigits(x + y)
    ensures Value(x + y, b) == Value(x, b) * Pow(b, |y|) + Value(y, b)
    decreases |y|
  {
    if y == [] {
      assert x + y == x;
    } else {
      var y' := y[..|y| - 1];
      assert (x + y)[..|x + y| - 1] == x + y';
      ValueAppend(x, y', b);
      var d := DigitValue(y[|y| - 1]);
      assert Value(x + y, b) == Value(x + y', b) * b + d;
      assert Value(y, b) == Value(y', b) * b + d;
      assert Pow(b, |y|) == b * Pow(b, |y'|);
      Regroup(Value(x, b), Pow(b, |y'|), Value(y', b), b, d);
    }
  }

  lemma Regroup(v: int, p: int, w: int, b: int, d: int)
    ensures (v * p + w) * b + d == v * (b * p) + (w * b + d)
  {
  }

  /** n decimal digits denote less than 10^n. */
  lemma {:induction false} ValueBound(ds: seq<CChar>)
    requires AllDigits(ds)
    ensures Value(ds, 10) < Pow(10, |ds|)
  {
    if ds != [] {
      var init := ds[..|ds| - 1];
      assert AllDigits(init) by {
        assert forall k :: 0 <= k < |init| ==> init[k] == ds[k];
      }
      ValueBound(init);
      assert Pow(10, |ds|) == 10 * Pow(10, |init|);
    }
  }

  /** After spaces and an optional sign: the offset of the first digit-or-prefix character. */
  function SignEnd(s: seq<CChar>, i: nat): (j: nat)
    requires i <= |s|
    ensures i <= j <= |s|
  {
    if At(s, i) == '-' || At(s, i) == '+' then i + 1 else i
  }

  /** atoi: white space, an optional sign, then the decimal digits that follow; 0 when there are none. */
  function Atoi(s: seq<CChar>): int
  {
    var i := Span(s, 0, IsSpace);
    var j := SignEnd(s, i);
    var e := Span(s, j, IsDigit);
    var v := Value(s[j..e], 10) as int;
    if At(s, i) == '-' then -v else v
  }

  /**
   * The exponent part starting at offset k: a marker (e/E for decimal, p/P for
   * hexadecimal), an optional sign and at least one decimal digit; 0 when the
   * text there is not a complete exponent.
   */
  function Exponent(s: seq<CChar>, k: nat, lower: CChar, upper: CChar): int
    requires k <= |s|
  {
    if k == |s| || (s[k] != lower && s[k] != upper) then 0
    else
      var j := SignEnd(s, k + 1);
      var e := Span(s, j, IsDigit);
      if e == j then 0
      else
        var v := Value(s[j..e], 10) as int;
        if At(s, k + 1) == '-' then -v else v
  }

  /** A mantissa: the digits (per p) before an optional point, and those after it. */
  datatype Mantissa = Mantissa(intEnd: nat, fracStart: nat, fracEnd: nat)

  function ScanMantissa(s: seq<CChar>, j: nat, p: CChar -> bool): (m: Mantissa)
    requires j <= |s|
    ensures j <= m.intEnd <= m.fracStart <= m.fracEnd <= |s|
    ensures m.fracStart <= m.intEnd + 1
    ensures forall k :: j <= k < m.intEnd ==> p(s[k])
    ensures forall k :: m.fracStart <= k < m.fracEnd ==> p(s[k])
  {
    var e1 := Span(s, j, p);
    if At(s, e1) == '.' then Mantissa(e1, e1 + 1, Span(s, e1 + 1, p)) else Mantissa(e1, e1, e1)
  }

  /** The magnitude of a decimal floating constant starting at j; 0 when it has no digit. */
  function DecimalMagnitude(s: seq<CChar>, j: nat): real
    requires j <= |s|
  {
    var m := ScanMantissa(s, j, IsDigit);
    if m.intEnd == j && m.fracEnd == m.fracStart then 0.0
    else
      var x := Exponent(s, m.fracEnd, 'e', 'E');
      (Value(s[j..m.intEnd], 10) as real + FracValue(s[m.fracStart..m.fracEnd], 10)) * RealPow(10, x)
  }

  /** The magnitude of a hexadecimal floating constant whose digits start at j (after "0x"). */
  function HexMagnitude(s: seq<CChar>, j: nat): real
    requires j <= |s|
  {
    var m := ScanMantissa(s, j, IsHexDigit);
    var x := Exponent(s, m.fracEnd, 'p', 'P');
    (Value(s[j..m.intEnd], 16) as real + FracValue(s[m.fracStart..m.fracEnd], 16)) * RealPow(2, x)
  }

  /** "0x" or "0X" at offset j, followed by a hexadecimal mantissa with at least one digit. */
  predicate HexPrefix(s: seq<CChar>, j: nat)
    requires j <= |s|
  {
    At(s, j) == '0' && (At(s, j + 1) == 'x' || At(s, j + 1) == 'X') && j + 2 <= |s| &&
    var m := ScanMantissa(s, j + 2, IsHexDigit);
    m.intEnd > j + 2 || m.fracEnd > m.fracStart
  }

  /** atof: white space, an optional sign, then a hexadecimal or decimal floating constant; 0 when there is none. */
  function Atof(s: seq<CChar>): real
  {
    var i := Span(s, 0, IsSpace);
    var j := SignEnd(s, i);
    var v := if HexPrefix(s, j) then HexMagnitude(s, j + 2) else DecimalMagnitude(s, j);
    if At(s, i) == '-' then -v else v
  }

  /** A string that is a decimal field then a terminator: a NUL or the end of the buffer. */
  predicate Terminated(rest: seq<CChar>)
  {
    rest == [] || rest[0] == NUL
  }

  /** atoi of plain digits gives their decimal value. */
  lemma {:induction false} AtoiDigits(ds: seq<CChar>, rest: seq<CChar>)
    requires |ds| > 0 && AllDigits(ds) && Terminated(rest)
    ensures AllHexDigits(ds)
    ensures Atoi(ds + rest) == Value(ds, 10)
  {
    var s := ds + rest;
    SpanIs(s, 0, IsSpace, 0);
    assert SignEnd(s, 0) == 0;
    SpanIs(s, 0, IsDigit, |ds|);
    assert s[0..|ds|] == ds;
  }

  /** A buffer that starts with a digit and no hexadecimal prefix is read as an unsigned decimal constant. */
  lemma {:induction false} AtofUnsigned(s: seq<CChar>)
    requires |s| > 0 && IsDigit(s[0]) && At(s, 1) != 'x' && At(s, 1) != 'X'
    ensures Atof(s) == DecimalMagnitude(s, 0)
  {
    SpanIs(s, 0, IsSpace, 0);
    assert SignEnd(s, 0) == 0;
    assert !HexPrefix(s, 0);
  }

  /** The decimal constant "ddd.fff" followed by a terminator. */
  lemma {:induction false} MagnitudeFixedPoint(s: seq<CChar>, n: nat, f: nat)
    requires 0 < n < f <= |s| && s[n] == '.' && (f == |s| || s[f] == NUL)
    requires AllDigits(s[..n]) && AllDigits(s[n + 1..f])
    ensures AllHexDigits(s[..n]) && AllHexDigits(s[n + 1..f])
    ensures DecimalMagnitude(s, 0) == Value(s[..n], 10) as real + FracValue(s[n + 1..f], 10)
  {
    var a, b := s[..n], s[n + 1..f];
    assert forall k :: 0 <= k < n ==> s[k] == a[k];
    SpanIs(s, 0, IsDigit, n);
    assert forall k :: n + 1 <= k < f ==> s[k] == b[k - n - 1];
    SpanIs(s, n + 1, IsDigit, f);
    assert ScanMantissa(s, 0, IsDigit) == Mantissa(n, n + 1, f);
    assert Exponent(s, f, 'e', 'E') == 0;
    assert s[0..n] == a;
  }

  /** The decimal constant "ddd" followed by a terminator. */
  lemma {:induction false} MagnitudeInteger(s: seq<CChar>, n: nat)
    requires 0 < n <= |s| && (n == |s| || s[n] == NUL) && AllDigits(s[..n])
    ensures AllHexDigits(s[..n])
    ensures DecimalMagnitude(s, 0) == Value(s[..n], 10) as real
  {
    var a := s[..n];
    assert forall k :: 0 <= k < n ==> s[k] == a[k];
    SpanIs(s, 0, IsDigit, n);
    assert ScanMantissa(s, 0, IsDigit) == Mantissa(n, n, n);
    assert Exponent(s, n, 'e', 'E') == 0;
    assert s[0..n] == a && s[n..n] == [];
  }

  /** atof of "digits.digits" gives the integer part plus the fraction. */
  lemma {:induction false} AtofFixedPoint(a: seq<CChar>, b: seq<CChar>, rest: seq<CChar>)
    requires |a| > 0 && AllDigits(a) && AllDigits(b) && Terminated(rest)
    ensures AllHexDigits(a) && AllHexDigits(b)
    ensures Atof(a + ['.'] + b + rest) == Value(a, 10) as real + FracValue(b, 10)
  {
    var s := a + ['.'] + b + rest;
    var n, f := |a|, |a| + 1 + |b|;
    assert s[..n] == a && s[n + 1..f] == b;
    assert s[0] == a[0];
    assert At(s, 1) == if n == 1 then '.' else a[1];
    assert s[n] == '.';
    assert f == |s| || s[f] == NUL;
    AtofFixedPointAt(s, n, f);
  }

  lemma {:induction false} AtofFixedPointAt(s: seq<CChar>, n: nat, f: nat)
    requires 0 < n < f <= |s| && s[n] == '.' && (f == |s| || s[f] == NUL)
    requires AllDigits(s[..n]) && AllDigits(s[n + 1..f])
    requires IsDigit(s[0]) && At(s, 1) != 'x' && At(s, 1) != 'X'
    ensures AllHexDigits(s[..n]) && AllHexDigits(s[n + 1..f])
    ensures Atof(s) == Value(s[..n], 10) as real + FracValue(s[n + 1..f], 10)
  {
    AtofUnsigned(s);
    MagnitudeFixedPoint(s, n, f);
  }

  /** atof of plain digits gives their decimal value. */
  lemma {:induction false} AtofDigits(a: seq<CChar>, rest: seq<CChar>)
    requires |a| > 0 && AllDigits(a) && Terminated(rest)
    ensures AllHexDigits(a)
    ensures Atof(a + rest) == Value(a, 10) as real
  {
    var s := a + rest;
    var n := |a|;
    assert s[0] == a[0];
    assert At(s, 1) == if n == 1 then At(rest, 0) else a[1];
    AtofUnsigned(s);
    assert s[..n] == a;
    MagnitudeInteger(s, n);
  }

  /** atoi stops at the terminating NUL. */
  lemma AtoiTerminated()
    ensures Atoi("12\0") == 12
  {
    var s: seq<CChar> := "12\0";
    AtoiDigits("12", "\0");
    assert s == "12" + "\0";
  }

  /** Leading blanks are skipped and a minus sign negates what atoi reads. */
  lemma AtoiNegative()
    ensures Atoi(" -7") == -7
  {
    var t: seq<CChar> := " -7";
    SpanIs(t, 0, IsSpace, 1);
    SpanIs(t, 2, IsDigit, 3);
    assert t[2..3] == "7";
    var seven: seq<CChar> := "7";
    assert seven[..0] == [];
  }

  /** A plus sign is accepted, and reading stops at the first non-digit. */
  lemma AtoiPlus()
    ensures Atoi("+5x") == 5
  {
    var u: seq<CChar> := "+5x";
    SpanIs(u, 0, IsSpace, 0);
    SpanIs(u, 1, IsDigit, 2);
    assert u[1..2] == "5";
    var five: seq<CChar> := "5";
    assert five[..0] == [];
  }

  /** Without leading digits atoi yields 0. */
  lemma AtoiNoDigits()
    ensures Atoi("x5") == 0
  {
    var w: seq<CChar> := "x5";
    SpanIs(w, 0, IsSpace, 0);
    SpanIs(w, 0, IsDigit, 0);
  }

  const ExponentSample: seq<CChar> := "1.5e2"

  /** An exponent scales the constant by a power of ten. */
  lemma AtofExponentExample()
    ensures Atof(ExponentSample) == 150.0
  {
    var s := ExponentSample;
    ExponentSampleScan();
    assert s[0..1] == "1" && Value("1", 10) == 1;
    assert s[2..3] == "5" && FracValue("5", 10) == 0.5;
    assert RealPow(10, 2) == 100.0;
  }

  /** How "1.5e2" splits: no blank, no sign, a decimal mantissa "1.5", then the exponent 2. */
  lemma ExponentSampleScan()
    ensures Span(ExponentSample, 0, IsSpace) == 0 && SignEnd(ExponentSample, 0) == 0
    ensures !HexPrefix(ExponentSample, 0)
    ensures ScanMantissa(ExponentSample, 0, IsDigit) == Mantissa(1, 2, 3)
    ensures Exponent(ExponentSample, 3, 'e', 'E') == 2
  {
    var s := ExponentSample;
    SpanIs(s, 0, IsSpace, 0);
    SpanIs(s, 0, IsDigit, 1);
    SpanIs(s, 2, IsDigit, 3);
    SpanIs(s, 4, IsDigit, 5);
    assert s[4..5] == "2" && Value("2", 10) == 2;
  }

  const HexSample: seq<CChar> := "0x1p3"

  /** A hexadecimal constant is read in base 16, with a binary exponent. */
  lemma AtofHexExample()
    ensures Atof(HexSample) == 8.0
  {
    var h := HexSample;
    HexSampleScan();
    assert h[2..3] == "1" && Value("1", 16) == 1;
    assert h[3..3] == [];
    assert RealPow(2, 3) == 8.0;
    assert HexMagnitude(h, 2) == 8.0;
  }

  /** How "0x1p3" splits: no blank, no sign, the prefix "0x", the mantissa "1", then the exponent 3. */
  lemma HexSampleScan()
    ensures Span(HexSample, 0, IsSpace) == 0 && SignEnd(HexSample, 0) == 0
    ensures HexPrefix(HexSample, 0)
    ensures ScanMantissa(HexSample, 2, IsHexDigit) == Mantissa(3, 3, 3)
    ensures Exponent(HexSample, 3, 'p', 'P') == 3
  {
    var h := HexSample;
    SpanIs(h, 0, IsSpace, 0);
    SpanIs(h, 2, IsHexDigit, 3);
    SpanIs(h, 4, IsDigit, 5);
    assert h[4..5] == "3" && Value("3", 10) == 3;
  }

  /** "0x" with no hexadecimal digit after it is the constant 0 followed by other text. */
  lemma AtofBareHexPrefix()
    ensures Atof("0x") == 0.0
  {
    var z: seq<CChar> := "0x";
    SpanIs(z, 0, IsSpace, 0);
    SpanIs(z, 2, IsHexDigit, 2);
    assert !HexPrefix(z, 0);
    SpanIs(z, 0, IsDigit, 1);
    assert ScanMantissa(z, 0, IsDigit) == Mantissa(1, 1, 1);
    assert z[0..1] == "0" && Value("0", 10) == 0;
  }
}
