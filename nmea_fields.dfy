/**
 * What each RMC field means when it is well formed: the C-shaped field
 * readers of module Nmea (fixed buffers, strncpy, atoi, atof) give the values
 * the digits denote, and reject exactly the tokens whose length or decimal
 * point is wrong.
 */
module NmeaFields {
  import opened CInts
  import opened CStrings
  import opened CNumbers
  import opened Nmea

  /** A time field "hhmmss" or "hhmmss.s..." whose first ten bytes are digits where digits belong. */
  predicate ValidTime(t: seq<CChar>)
  {
    |t| >= 6 && AllDigits(t[..2]) && AllDigits(t[2..4]) && AllDigits(t[4..6]) &&
    (|t| > 6 ==> t[6] == '.') && AllDigits(t[Min(7, |t|)..Min(10, |t|)])
  }

  /** A latitude field "ddmm.m..." with at least four decimals, digits where digits belong in its first eleven bytes. */
  predicate ValidLatitude(t: seq<CChar>)
  {
    |t| >= 9 && t[4] == '.' && AllDigits(t[..2]) && AllDigits(t[2..4]) && AllDigits(t[5..Min(11, |t|)])
  }

  /** A longitude field "dddmm.m..." with at least four decimals, digits where digits belong in its first twelve bytes. */
  predicate ValidLongitude(t: seq<CChar>)
  {
    |t| >= 10 && t[5] == '.' && AllDigits(t[..3]) && AllDigits(t[3..5]) && AllDigits(t[6..Min(12, |t|)])
  }

  /** Degrees, whole minutes and decimal minute digits as decimal degrees: the reference conversion. */
  function DegreesMinutes(degrees: seq<CChar>, minutes: seq<CChar>, decimals: seq<CChar>): real
    requires AllDigits(degrees) && AllDigits(minutes) && AllDigits(decimals)
  {
    assert AllHexDigits(degrees) && AllHexDigits(minutes) && AllHexDigits(decimals);
    Value(degrees, 10) as real + (Value(minutes, 10) as real + FracValue(decimals, 10)) / 60.0
  }

  /** The decimal degrees a valid latitude field denotes. */
  function LatitudeOf(t: seq<CChar>): real
    requires ValidLatitude(t)
  {
    DegreesMinutes(t[..2], t[2..4], t[5..Min(11, |t|)])
  }

  /** The decimal degrees a valid longitude field denotes. */
  function LongitudeOf(t: seq<CChar>): real
    requires ValidLongitude(t)
  {
    DegreesMinutes(t[..3], t[3..5], t[6..Min(12, |t|)])
  }

  /** The seconds a valid time field denotes. */
  function SecondsOf(t: seq<CChar>): real
    requires ValidTime(t)
  {
    assert AllHexDigits(t[4..6]) && AllHexDigits(t[Min(7, |t|)..Min(10, |t|)]);
    Value(t[4..6], 10) as real + FracValue(t[Min(7, |t|)..Min(10, |t|)], 10)
  }

  /** atoi over a default buffer into which n digits were copied gives their value. */
  lemma AtoiOfCopy(dst: seq<CChar>, src: seq<CChar>, n: nat)
    requires 0 < n < |dst| && dst[n] == NUL && n <= |src| && AllDigits(src[..n])
    ensures AllHexDigits(src[..n])
    ensures Atoi(Strncpy(dst, src, n)) == Value(src[..n], 10)
  {
    StrncpyNulFree(dst, src, n);
    assert Strncpy(dst, src, n) == src[..n] + dst[n..];
    AtoiDigits(src[..n], dst[n..]);
  }

  /** Two digits copied then read by atoi and stored in a uint8_t: their value, unchanged. */
  lemma TwoDigitsOfCopy(dst: seq<CChar>, src: seq<CChar>)
    requires 2 < |dst| && dst[2] == NUL && 2 <= |src| && AllDigits(src[..2])
    ensures AllHexDigits(src[..2])
    ensures ToUint8(Atoi(Strncpy(dst, src, 2))) == Value(src[..2], 10) < 100
  {
    AtoiOfCopy(dst, src, 2);
    ValueBound(src[..2]);
    assert Pow(10, 2) == 100;
  }

  /**
   * atof over a default buffer into which "ddd.fff" was copied (the copy
   * stopping after m bytes of src) gives the integer part plus the fraction.
   */
  lemma AtofOfCopy(dst: seq<CChar>, src: seq<CChar>, n: nat, p: nat, m: nat)
    requires n < |dst| && dst[n] == NUL && m == Min(n, |src|)
    requires 0 < p < m && src[p] == '.' && AllDigits(src[..p]) && AllDigits(src[p + 1..m])
    ensures AllHexDigits(src[..p]) && AllHexDigits(src[p + 1..m])
    ensures Atof(Strncpy(dst, src, n)) == Value(src[..p], 10) as real + FracValue(src[p + 1..m], 10)
  {
    assert forall i :: 0 <= i < p ==> src[i] == src[..p][i];
    assert forall i :: p < i < m ==> src[i] == src[p + 1..m][i - p - 1];
    StrncpyNulFree(dst, src, n);
    var rest := seq(n - m, _ => NUL) + dst[n..];
    assert src[..m] == src[..p] + ['.'] + src[p + 1..m];
    assert Strncpy(dst, src, n) == src[..p] + ['.'] + src[p + 1..m] + rest;
    assert rest[0] == NUL;
    AtofFixedPoint(src[..p], src[p + 1..m], rest);
  }

  /** atof over a default buffer into which only digits were copied gives their value. */
  lemma AtofOfDigitsCopy(dst: seq<CChar>, src: seq<CChar>, n: nat, m: nat)
    requires n < |dst| && dst[n] == NUL && m == Min(n, |src|) && 0 < m && AllDigits(src[..m])
    ensures AllHexDigits(src[..m])
    ensures Atof(Strncpy(dst, src, n)) == Value(src[..m], 10) as real
  {
    assert forall i :: 0 <= i < m ==> src[i] == src[..m][i];
    StrncpyNulFree(dst, src, n);
    var rest := seq(n - m, _ => NUL) + dst[n..];
    assert Strncpy(dst, src, n) == src[..m] + rest;
    assert rest[0] == NUL;
    AtofDigits(src[..m], rest);
  }

  /**
   * A well-formed time "hhmmss" or "hhmmss.sss" (more bytes are ignored) sets
   * hours, minutes and seconds to the values its digits denote.
   */
  lemma TimeDigits(t: seq<CChar>, g: Gps)
    requires ValidTime(t)
    ensures AllHexDigits(t[..2]) && AllHexDigits(t[2..4])
    ensures TimeField(t, g) == Next(g.(hours := Value(t[..2], 10), minutes := Value(t[2..4], 10), seconds := SecondsOf(t)))
  {
    TimeAccepted(t);
    var hours := ToUint8(Atoi(Strncpy("00\0", t, 2)));
    var minutes := ToUint8(Atoi(Strncpy("00\0", Skip(t, 2), 2)));
    assert hours == Value(t[..2], 10) by {
      TwoDigitsOfCopy("00\0", t);
    }
    assert minutes == Value(t[2..4], 10) by {
      assert Skip(t, 2)[..2] == t[2..4];
      TwoDigitsOfCopy("00\0", Skip(t, 2));
    }
    TimeSeconds(t);
  }

  lemma TimeAccepted(t: seq<CChar>)
    requires ValidTime(t)
    ensures StrnLen(t, 6) == 6 && (StrnLen(t, 10) > 6 <==> |t| > 6)
  {
    var e := Min(10, |t|);
    assert forall i :: 0 <= i < 2 ==> t[i] == t[..2][i] && t[i + 2] == t[2..4][i] && t[i + 4] == t[4..6][i];
    assert forall i :: 7 <= i < e ==> t[i] == t[Min(7, |t|)..e][i - 7];
    StrndupNulFree(t, 6);
    StrndupNulFree(t, 10);
  }

  lemma TimeSeconds(t: seq<CChar>)
    requires ValidTime(t)
    ensures Atof(Strncpy("00.000\0", Skip(t, 4), 6)) == SecondsOf(t)
  {
    var e := Min(10, |t|);
    var src := Skip(t, 4);
    var m := Min(6, |src|);
    if |t| == 6 {
      assert src[..m] == t[4..6];
      AtofOfDigitsCopy("00.000\0", src, 6, m);
      assert t[Min(7, |t|)..e] == [];
    } else {
      assert src[..2] == t[4..6] && src[3..m] == t[7..e];
      AtofOfCopy("00.000\0", src, 6, 2, m);
    }
  }

  /** The shape shared by both coordinates: w degree digits, two minute digits, '.', then decimals. */
  predicate Coordinate(t: seq<CChar>, w: nat)
  {
    |t| >= w + 7 && t[w + 2] == '.' &&
    AllDigits(t[..w]) && AllDigits(t[w..w + 2]) && AllDigits(t[w + 3..Min(w + 9, |t|)])
  }

  /** The first w + 7 bytes of a coordinate hold no NUL, so the length check passes. */
  lemma CoordinateLength(t: seq<CChar>, w: nat)
    requires Coordinate(t, w)
    ensures StrnLen(t, w + 7) == w + 7
  {
    var e := Min(w + 9, |t|);
    assert forall i :: 0 <= i < w ==> t[i] == t[..w][i];
    assert forall i :: w <= i < w + 2 ==> t[i] == t[w..w + 2][i - w];
    assert forall i :: w + 3 <= i < e ==> t[i] == t[w + 3..e][i - w - 3];
    StrndupNulFree(t, w + 7);
  }

  /** The minutes of a coordinate, copied into "00.000000" and read by atof. */
  lemma CoordinateMinutes(t: seq<CChar>, w: nat)
    requires Coordinate(t, w)
    ensures AllHexDigits(t[w..w + 2]) && AllHexDigits(t[w + 3..Min(w + 9, |t|)])
    ensures Atof(Strncpy("00.000000\0", Skip(t, w), 9)) ==
      Value(t[w..w + 2], 10) as real + FracValue(t[w + 3..Min(w + 9, |t|)], 10)
  {
    var src := Skip(t, w);
    var m := Min(9, |src|);
    assert src[..2] == t[w..w + 2] && src[3..m] == t[w + 3..Min(w + 9, |t|)];
    AtofOfCopy("00.000000\0", src, 9, 2, m);
  }

  /**
   * A well-formed latitude "ddmm.mmmmmm" gives dd + mm.mmmmmm / 60 degrees;
   * minute digits past the sixth decimal are ignored.
   */
  lemma LatitudeDigits(t: seq<CChar>, g: Gps)
    requires ValidLatitude(t)
    ensures LatitudeField(t, g) == Next(g.(latitude := LatitudeOf(t)))
  {
    assert Coordinate(t, 2);
    CoordinateLength(t, 2);
    var degrees := Strncpy("00\0", t, 2);
    var minutes := Strncpy("00.000000\0", Skip(t, 2), 9);
    assert LatitudeField(t, g) == Next(g.(latitude := DecimalDegrees(degrees, minutes)));
    AtoiOfCopy("00\0", t, 2);
    CoordinateMinutes(t, 2);
    DecimalDegreesOf(degrees, minutes, t[..2], t[2..4], t[5..Min(11, |t|)]);
  }

  /** Degree and minute buffers that atoi and atof read as the given digits convert as the reference does. */
  lemma DecimalDegreesOf(degrees: seq<CChar>, minutes: seq<CChar>, d: seq<CChar>, mm: seq<CChar>, f: seq<CChar>)
    requires AllDigits(d) && AllDigits(mm) && AllDigits(f)
    requires AllHexDigits(d) && AllHexDigits(mm) && AllHexDigits(f)
    requires Atoi(degrees) == Value(d, 10) && Atof(minutes) == Value(mm, 10) as real + FracValue(f, 10)
    ensures DecimalDegrees(degrees, minutes) == DegreesMinutes(d, mm, f)
  {
  }

  /**
   * A well-formed longitude "dddmm.mmmmmm" gives ddd + mm.mmmmmm / 60 degrees;
   * minute digits past the sixth decimal are ignored.
   */
  lemma LongitudeDigits(t: seq<CChar>, g: Gps)
    requires ValidLongitude(t)
    ensures LongitudeField(t, g) == Next(g.(longitude := LongitudeOf(t)))
  {
    assert Coordinate(t, 3);
    CoordinateLength(t, 3);
    var degrees := Strncpy("000\0", t, 3);
    var minutes := Strncpy("00.000000\0", Skip(t, 3), 9);
    assert LongitudeField(t, g) == Next(g.(longitude := DecimalDegrees(degrees, minutes)));
    AtoiOfCopy("000\0", t, 3);
    CoordinateMinutes(t, 3);
    DecimalDegreesOf(degrees, minutes, t[..3], t[3..5], t[6..Min(12, |t|)]);
  }

  /** The time, latitude and longitude fields of the RMC sentence quoted in the parser's documentation. */
  const FixTime: seq<CChar> := "080608.000"
  const FixLatitude: seq<CChar> := "3029.461489"
  const FixLongitude: seq<CChar> := "11430.072002"

  /** The documented latitude "3029.461489" is 30 degrees 29.461489 minutes. */
  lemma LatitudeExample(g: Gps)
    ensures ValidLatitude(FixLatitude)
    ensures LatitudeOf(FixLatitude) == 30.0 + 29.461489 / 60.0
    ensures LatitudeField(FixLatitude, g) == Next(g.(latitude := 30.0 + 29.461489 / 60.0))
  {
    var t := FixLatitude;
    assert t[..2] == "30";
    assert t[2..4] == "29";
    assert t[5..Min(11, |t|)] == "461489";
    ExampleDigits();
    DigitPairs();
    Fraction461489();
    LatitudeDigits(t, g);
  }

  /** The documented longitude "11430.072002" is 114 degrees 30.072002 minutes. */
  lemma LongitudeExample(g: Gps)
    ensures ValidLongitude(FixLongitude)
    ensures LongitudeOf(FixLongitude) == 114.0 + 30.072002 / 60.0
    ensures LongitudeField(FixLongitude, g) == Next(g.(longitude := 114.0 + 30.072002 / 60.0))
  {
    var t := FixLongitude;
    assert t[..3] == "114";
    assert t[3..5] == "30";
    assert t[6..Min(12, |t|)] == "072002";
    ExampleDigits();
    DigitPairs();
    Fraction072002();
    LongitudeDigits(t, g);
  }

  /** The documented time "080608.000" is 08:06:08.000. */
  lemma TimeExample()
    ensures ValidTime(FixTime)
    ensures AllHexDigits(FixTime[..2]) && AllHexDigits(FixTime[2..4])
    ensures Value(FixTime[..2], 10) == 8 && Value(FixTime[2..4], 10) == 6 && SecondsOf(FixTime) == 8.0
  {
    var t := FixTime;
    assert t[..2] == "08";
    assert t[2..4] == "06";
    assert t[4..6] == "08";
    assert t[Min(7, |t|)..Min(10, |t|)] == "000";
    ExampleDigits();
    DigitPairs();
    assert FracValue("000", 10) == 0.0 by {
      var z: seq<CChar> := "000";
      assert z[1..] == "00" && z[2..] == "0" && z[3..] == [];
    }
  }

  lemma ExampleDigits()
    ensures AllDigits("30") && AllDigits("29") && AllDigits("461489")
    ensures AllDigits("114") && AllDigits("072002")
    ensures AllDigits("08") && AllDigits("06") && AllDigits("000")
  {
    var a: seq<CChar>, b: seq<CChar>, c: seq<CChar>, d: seq<CChar>, e: seq<CChar> := "30", "29", "461489", "114", "072002";
    var f: seq<CChar>, h: seq<CChar>, i: seq<CChar> := "08", "06", "000";
    assert forall k :: 0 <= k < |f| ==> IsDigit(f[k]);
    assert forall k :: 0 <= k < |h| ==> IsDigit(h[k]);
    assert forall k :: 0 <= k < |i| ==> IsDigit(i[k]);
    assert forall k :: 0 <= k < |a| ==> IsDigit(a[k]);
    assert forall k :: 0 <= k < |b| ==> IsDigit(b[k]);
    assert forall k :: 0 <= k < |c| ==> IsDigit(c[k]);
    assert forall k :: 0 <= k < |d| ==> IsDigit(d[k]);
    assert forall k :: 0 <= k < |e| ==> IsDigit(e[k]);
  }

  lemma DigitPairs()
    ensures Value("30", 10) == 30 && Value("29", 10) == 29 && Value("08", 10) == 8 && Value("06", 10) == 6
    ensures Value("114", 10) == 114
  {
    var a: seq<CChar>, b: seq<CChar>, c: seq<CChar>, d: seq<CChar>, e: seq<CChar> := "30", "29", "08", "06", "114";
    assert a[..1] == "3" && b[..1] == "2" && c[..1] == "0" && d[..1] == "0";
    assert e[..2] == "11" && e[..2][..1] == "1";
  }

  lemma Fraction461489()
    ensures FracValue("461489", 10) == 0.461489
  {
    var x: seq<CChar> := "461489";
    assert x[1..] == "61489" && x[2..] == "1489" && x[3..] == "489" && x[4..] == "89" && x[5..] == "9" && x[6..] == [];
  }

  lemma Fraction072002()
    ensures FracValue("072002", 10) == 0.072002
  {
    var x: seq<CChar> := "072002";
    assert x[1..] == "72002" && x[2..] == "2002" && x[3..] == "002" && x[4..] == "02" && x[5..] == "2" && x[6..] == [];
  }
}
