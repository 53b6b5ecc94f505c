/**
 * Properties of the whole RMC parse: which sentences it rejects, which part
 * of a sentence it reads, what it leaves in the fix and position fields, and
 * that the integer fields keep to their C types.
 */
module NmeaParse {
  import opened CInts
  import opened CStrings
  import opened CNumbers
  import opened Nmea
  import opened NmeaFields

  /** Tokens as strtok hands them out over a strndup copy: none holds a NUL. */
  predicate WellFormed(toks: seq<seq<CChar>>)
  {
    forall k :: 0 <= k < |toks| ==> NUL !in toks[k]
  }

  /** How many tokens the parser can examine at most. */
  function Examined(toks: seq<seq<CChar>>): nat
  {
    Min(MaxTokensToRead, |toks|)
  }

  /** Token t cannot be field idx: a time, latitude or longitude of the wrong shape, or a bad indicator letter. */
  predicate Rejects(idx: nat, t: seq<CChar>)
  {
    if idx == 1 then |t| < 6 || (|t| > 6 && t[6] != '.')
    else if idx == 2 then At(t, 0) != 'A' && At(t, 0) != 'V'
    else if idx == 3 then |t| < 9 || t[4] != '.'
    else if idx == 4 then At(t, 0) != 'N' && At(t, 0) != 'S'
    else if idx == 5 then |t| < 10 || t[5] != '.'
    else if idx == 6 then At(t, 0) != 'E' && At(t, 0) != 'W'
    else false
  }

  /** Token t, read as field idx, ends the parse successfully: a 'V' (no fix) status. */
  predicate Ends(idx: nat, t: seq<CChar>)
  {
    idx == 2 && At(t, 0) == 'V'
  }

  /**
   * One field: it stops the parse exactly when the token is rejected (code
   * -1, record untouched) or reports no fix (code 0, fix and position zero).
   */
  lemma FieldOutcome(idx: nat, t: seq<CChar>, g: Gps)
    requires NUL !in t
    ensures Field(idx, t, g).Stop? <==> Rejects(idx, t) || Ends(idx, t)
    ensures Rejects(idx, t) ==> Field(idx, t, g) == Stop(-1, g)
    ensures Ends(idx, t) ==> Field(idx, t, g) == Stop(0, g.(fix := 0, latitude := 0.0, longitude := 0.0))
  {
    StrndupNulFree(t, 6);
    StrndupNulFree(t, 9);
    StrndupNulFree(t, 10);
  }

  /** Among the examined tokens from idx on, some token is rejected as its field and no 'V' status comes before it. */
  predicate RejectedBeforeEnd(toks: seq<seq<CChar>>, idx: nat)
  {
    exists k :: idx <= k < Examined(toks) && Rejects(k, toks[k]) && forall j :: idx <= j < k ==> !Ends(j, toks[j])
  }

  /** The parse fails (-1) exactly when a token is rejected before any 'V' status ended the parse. */
  lemma {:induction false} ParseFails(toks: seq<seq<CChar>>, idx: nat, g: Gps)
    requires WellFormed(toks)
    ensures ParseFrom(toks, idx, g).0 == -1 <==> RejectedBeforeEnd(toks, idx)
    decreases |toks| - idx
  {
    if idx < Examined(toks) {
      var t := toks[idx];
      FieldOutcome(idx, t, g);
      if Rejects(idx, t) {
        ParseStop(toks, idx, g, -1, g);
      } else if Ends(idx, t) {
        ParseStop(toks, idx, g, 0, Field(idx, t, g).g);
        NothingRejectedAfterEnd(toks, idx);
      } else {
        var g' := Field(idx, t, g).g;
        ParseNext(toks, idx, g, g');
        ParseFails(toks, idx + 1, g');
        RejectedPastField(toks, idx);
      }
    } else {
      assert ParseFrom(toks, idx, g) == (0, g);
    }
  }

  /** A 'V' status that is not itself rejected shields every later token. */
  lemma NothingRejectedAfterEnd(toks: seq<seq<CChar>>, idx: nat)
    requires idx < Examined(toks) && Ends(idx, toks[idx]) && !Rejects(idx, toks[idx])
    ensures !RejectedBeforeEnd(toks, idx)
  {
    forall k | idx <= k < Examined(toks) && Rejects(k, toks[k])
      ensures exists j :: idx <= j < k && Ends(j, toks[j])
    {
      assert k != idx && Ends(idx, toks[idx]);
    }
  }

  /** A token that neither is rejected nor ends the parse leaves the question to the tokens after it. */
  lemma RejectedPastField(toks: seq<seq<CChar>>, idx: nat)
    requires idx < Examined(toks) && !Ends(idx, toks[idx]) && !Rejects(idx, toks[idx])
    ensures RejectedBeforeEnd(toks, idx) <==> RejectedBeforeEnd(toks, idx + 1)
  {
    if RejectedBeforeEnd(toks, idx) {
      var k :| idx <= k < Examined(toks) && Rejects(k, toks[k]) && forall j :: idx <= j < k ==> !Ends(j, toks[j]);
      assert k != idx;
      assert forall j :: idx + 1 <= j < k ==> !Ends(j, toks[j]);
    }
    if RejectedBeforeEnd(toks, idx + 1) {
      var k :| idx + 1 <= k < Examined(toks) && Rejects(k, toks[k]) && forall j :: idx + 1 <= j < k ==> !Ends(j, toks[j]);
      assert forall j :: idx <= j < k ==> !Ends(j, toks[j]);
    }
  }

  /** Only the examined tokens matter: two token lists that agree on them parse alike. */
  lemma {:induction false} ParseFromAgree(a: seq<seq<CChar>>, b: seq<seq<CChar>>, idx: nat, g: Gps)
    requires Examined(a) == Examined(b)
    requires forall k :: idx <= k < Examined(a) ==> a[k] == b[k]
    ensures ParseFrom(a, idx, g) == ParseFrom(b, idx, g)
    decreases |a| - idx
  {
    if idx < Examined(a) {
      match Field(idx, a[idx], g)
      case Next(g') => ParseFromAgree(a, b, idx + 1, g');
      case Stop(_, _) =>
    }
  }

  /** Tokens after the seventh are never read. */
  lemma OnlySevenTokens(toks: seq<seq<CChar>>, g: Gps)
    ensures ParseFrom(toks, 0, g) == ParseFrom(toks[..Examined(toks)], 0, g)
  {
    ParseFromAgree(toks, toks[..Examined(toks)], 0, g);
  }

  /** The sentence identifier (token 0) is not looked at by the parse. */
  lemma TokenZeroIgnored(a: seq<seq<CChar>>, b: seq<seq<CChar>>, g: Gps)
    requires |a| > 0 && |b| > 0 && a[1..] == b[1..]
    ensures ParseFrom(a, 0, g) == ParseFrom(b, 0, g)
  {
    assert forall k :: 1 <= k < |a| ==> a[k] == a[1..][k - 1];
    assert forall k :: 1 <= k < |b| ==> b[k] == b[1..][k - 1];
    ParseNext(a, 0, g, g);
    ParseNext(b, 0, g, g);
    ParseFromAgree(a, b, 1, g);
  }

  /** The tokens of any sentence buffer are non-empty, comma-free and NUL-free. */
  lemma RmcTokensWellFormed(s: seq<CChar>)
    ensures WellFormed(RmcTokens(s))
    ensures forall t :: t in RmcTokens(s) ==> t != [] && ',' !in t
  {
    var copy := Strndup(s, MaxRmcLength);
    StrndupHasNoNul(s, MaxRmcLength);
    TokensHaveNoNul(copy, ',', 0);
    TokensAreFields(copy, ',', 0);
  }

  /** Bytes past the first MaxRmcLength of the sentence buffer do not affect the parse. */
  lemma OnlyFirstBytes(s: seq<CChar>, s': seq<CChar>, g: Gps)
    requires |s| >= MaxRmcLength && |s'| >= MaxRmcLength && s[..MaxRmcLength] == s'[..MaxRmcLength]
    ensures ParseRMCSpec(s, g) == ParseRMCSpec(s', g)
  {
    StrndupPrefix(s, s', MaxRmcLength);
  }

  /** Fields 3 to 6 never write the fix flag. */
  lemma {:induction false} LaterFieldsKeepFix(toks: seq<seq<CChar>>, idx: nat, g: Gps)
    requires idx >= 3
    ensures ParseFrom(toks, idx, g).1.fix == g.fix
    decreases |toks| - idx
  {
    if idx < Examined(toks) {
      match Field(idx, toks[idx], g)
      case Next(g') => LaterFieldsKeepFix(toks, idx + 1, g');
      case Stop(_, _) =>
    }
  }

  /**
   * After a successful parse of a sentence with a status field, the fix flag
   * is 1 for an 'A' status and 0 for a 'V' status, and with no fix the
   * position is zero.
   */
  lemma FixFollowsStatus(toks: seq<seq<CChar>>, g: Gps)
    requires WellFormed(toks) && |toks| >= 3 && ParseFrom(toks, 0, g).0 == 0
    ensures var r := ParseFrom(toks, 0, g).1;
      (r.fix == 1 <==> At(toks[2], 0) == 'A') && (r.fix == 0 <==> At(toks[2], 0) == 'V') &&
      (r.fix == 0 ==> r.latitude == 0.0 && r.longitude == 0.0)
  {
    ParseNext(toks, 0, g, g);
    FieldOutcome(1, toks[1], g);
    assert !Rejects(1, toks[1]);
    var g1 := Field(1, toks[1], g).g;
    ParseNext(toks, 1, g, g1);
    FieldOutcome(2, toks[2], g1);
    assert !Rejects(2, toks[2]);
    var step := Field(2, toks[2], g1);
    if step.Next? {
      ParseNext(toks, 2, g1, step.g);
      LaterFieldsKeepFix(toks, 3, step.g);
    } else {
      ParseStop(toks, 2, g1, 0, step.g);
    }
  }

  /**
   * A sentence that ends before its status field leaves the fix flag and the
   * position as they were: a successful parse then reports the previous
   * sentence's values.
   */
  lemma ShortSentenceKeepsPosition(toks: seq<seq<CChar>>, g: Gps)
    requires |toks| < 3
    ensures var r := ParseFrom(toks, 0, g).1;
      r.fix == g.fix && r.latitude == g.latitude && r.longitude == g.longitude
  {
    if |toks| > 0 {
      ParseNext(toks, 0, g, g);
      if |toks| == 1 {
        assert ParseFrom(toks, 1, g) == (0, g);
      } else {
        var step := Field(1, toks[1], g);
        TimeKeepsPosition(toks[1], g);
        if step.Next? {
          ParseNext(toks, 1, g, step.g);
          assert ParseFrom(toks, 2, step.g) == (0, step.g);
        } else {
          ParseStop(toks, 1, g, step.rc, step.g);
        }
      }
    }
  }

  /** The time field writes only the time: fix flag and position are left as they were. */
  lemma TimeKeepsPosition(t: seq<CChar>, g: Gps)
    ensures var g' := Field(1, t, g).g;
      g'.fix == g.fix && g'.latitude == g.latitude && g'.longitude == g.longitude
  {
  }

  /** Every integer field stays within its C type through the parse. */
  lemma {:induction false} ParseKeepsRanges(toks: seq<seq<CChar>>, idx: nat, g: Gps)
    requires g.InRange()
    ensures ParseFrom(toks, idx, g).1.InRange()
    decreases |toks| - idx
  {
    if idx < Examined(toks) {
      var step := Field(idx, toks[idx], g);
      FieldKeepsRanges(idx, toks[idx], g);
      if step.Next? {
        ParseNext(toks, idx, g, step.g);
        ParseKeepsRanges(toks, idx + 1, step.g);
      } else {
        ParseStop(toks, idx, g, step.rc, step.g);
      }
    } else {
      assert ParseFrom(toks, idx, g) == (0, g);
    }
  }

  /** One field keeps the integer fields within their C types: ToUint8 for the time, 0 or 1 for the fix. */
  lemma FieldKeepsRanges(idx: nat, t: seq<CChar>, g: Gps)
    requires g.InRange()
    ensures Field(idx, t, g).g.InRange()
  {
  }

  /** The sign a hemisphere letter gives: negative for the south or west letter. */
  function HemisphereSign(t: seq<CChar>, negative: CChar): real
  {
    if At(t, 0) == negative then -1.0 else 1.0
  }

  /**
   * A well-formed sentence with an 'A' status parses successfully to its
   * time, fix 1 and the signed decimal degrees its position fields denote.
   */
  lemma ParseValidFix(toks: seq<seq<CChar>>, g: Gps)
    requires |toks| >= 7 && ValidTime(toks[1]) && At(toks[2], 0) == 'A'
    requires ValidLatitude(toks[3]) && (At(toks[4], 0) == 'N' || At(toks[4], 0) == 'S')
    requires ValidLongitude(toks[5]) && (At(toks[6], 0) == 'E' || At(toks[6], 0) == 'W')
    ensures AllHexDigits(toks[1][..2]) && AllHexDigits(toks[1][2..4])
    ensures ParseFrom(toks, 0, g) == (0, Gps(Value(toks[1][..2], 10), Value(toks[1][2..4], 10), SecondsOf(toks[1]), 1,
      HemisphereSign(toks[4], 'S') * LatitudeOf(toks[3]), HemisphereSign(toks[6], 'W') * LongitudeOf(toks[5])))
  {
    var g1 := g.(hours := Value(toks[1][..2], 10), minutes := Value(toks[1][2..4], 10), seconds := SecondsOf(toks[1]));
    assert Field(1, toks[1], g) == Next(g1) by { TimeDigits(toks[1], g); }
    ParseNext(toks, 0, g, g);
    ParseNext(toks, 1, g, g1);
    ParseNext(toks, 2, g1, g1.(fix := 1));
    ParsePosition(toks, g1.(fix := 1));
  }

  /** Fields 3 to 6 of a well-formed sentence: the signed latitude and longitude, then success. */
  lemma ParsePosition(toks: seq<seq<CChar>>, g: Gps)
    requires |toks| >= 7
    requires ValidLatitude(toks[3]) && (At(toks[4], 0) == 'N' || At(toks[4], 0) == 'S')
    requires ValidLongitude(toks[5]) && (At(toks[6], 0) == 'E' || At(toks[6], 0) == 'W')
    ensures ParseFrom(toks, 3, g) ==
      (0, g.(latitude := HemisphereSign(toks[4], 'S') * LatitudeOf(toks[3]), longitude := HemisphereSign(toks[6], 'W') * LongitudeOf(toks[5])))
  {
    var g4 := g.(latitude := HemisphereSign(toks[4], 'S') * LatitudeOf(toks[3]));
    ParseLatitude(toks, g);
    ParseLongitude(toks, g4);
  }

  lemma ParseLatitude(toks: seq<seq<CChar>>, g: Gps)
    requires |toks| >= 7 && ValidLatitude(toks[3]) && (At(toks[4], 0) == 'N' || At(toks[4], 0) == 'S')
    ensures ParseFrom(toks, 3, g) == ParseFrom(toks, 5, g.(latitude := HemisphereSign(toks[4], 'S') * LatitudeOf(toks[3])))
  {
    var g3 := g.(latitude := LatitudeOf(toks[3]));
    LatitudeStep(toks[3], g);
    var g4 := g.(latitude := HemisphereSign(toks[4], 'S') * LatitudeOf(toks[3]));
    assert Field(4, toks[4], g3) == Next(g4) by { HemisphereSteps(toks[4], g3); }
    ParseNext(toks, 3, g, g3);
    ParseNext(toks, 4, g3, g4);
  }

  lemma ParseLongitude(toks: seq<seq<CChar>>, g: Gps)
    requires |toks| >= 7 && ValidLongitude(toks[5]) && (At(toks[6], 0) == 'E' || At(toks[6], 0) == 'W')
    ensures ParseFrom(toks, 5, g) == (0, g.(longitude := HemisphereSign(toks[6], 'W') * LongitudeOf(toks[5])))
  {
    var g5 := g.(longitude := LongitudeOf(toks[5]));
    var g6 := g.(longitude := HemisphereSign(toks[6], 'W') * LongitudeOf(toks[5]));
    LongitudeStep(toks[5], g);
    HemisphereSteps(toks[6], g5);
    ParseNext(toks, 5, g, g5);
    LastField(toks, g5, g6);
  }

  lemma LatitudeStep(t: seq<CChar>, g: Gps)
    requires ValidLatitude(t)
    ensures Field(3, t, g) == Next(g.(latitude := LatitudeOf(t)))
  {
    assert Field(3, t, g) == LatitudeField(t, g);
    LatitudeDigits(t, g);
  }

  lemma LongitudeStep(t: seq<CChar>, g: Gps)
    requires ValidLongitude(t)
    ensures Field(5, t, g) == Next(g.(longitude := LongitudeOf(t)))
  {
    assert Field(5, t, g) == LongitudeField(t, g);
    LongitudeDigits(t, g);
  }

  /** The seventh token is the last one read. */
  lemma LastField(toks: seq<seq<CChar>>, g: Gps, g': Gps)
    requires |toks| >= 7 && Field(6, toks[6], g) == Next(g')
    ensures ParseFrom(toks, 6, g) == (0, g')
  {
    ParseNext(toks, 6, g, g');
  }

  /**
   * A 'V' status after a well-formed time ends the parse successfully with no
   * fix and a zero position, whatever the later fields hold.
   */
  lemma ParseNoFix(toks: seq<seq<CChar>>, g: Gps)
    requires |toks| >= 3 && ValidTime(toks[1]) && At(toks[2], 0) == 'V'
    ensures AllHexDigits(toks[1][..2]) && AllHexDigits(toks[1][2..4])
    ensures ParseFrom(toks, 0, g) == (0, Gps(Value(toks[1][..2], 10), Value(toks[1][2..4], 10), SecondsOf(toks[1]), 0, 0.0, 0.0))
  {
    TimeDigits(toks[1], g);
    var g1 := g.(hours := Value(toks[1][..2], 10), minutes := Value(toks[1][2..4], 10), seconds := SecondsOf(toks[1]));
    ParseNext(toks, 0, g, g);
    ParseNext(toks, 1, g, g1);
    ParseStop(toks, 2, g1, 0, g1.(fix := 0, latitude := 0.0, longitude := 0.0));
  }

  /** An indicator field multiplies the coordinate read before it by the hemisphere's sign. */
  lemma HemisphereSteps(t: seq<CChar>, g: Gps)
    ensures At(t, 0) == 'N' || At(t, 0) == 'S' ==> Field(4, t, g) == Next(g.(latitude := HemisphereSign(t, 'S') * g.latitude))
    ensures At(t, 0) == 'E' || At(t, 0) == 'W' ==> Field(6, t, g) == Next(g.(longitude := HemisphereSign(t, 'W') * g.longitude))
  {
  }
}
