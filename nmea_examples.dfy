/**
 * Whole sentences through the parser: the RMC sentence quoted in the
 * parser's documentation, the same sentence without a fix, and a sentence
 * sent before the receiver knows the time. Each sentence is written as its
 * leading comma-separated fields followed by any further bytes.
 */
module NmeaExamples {
  import opened CStrings
  import opened CNumbers
  import opened Nmea
  import opened NmeaFields
  import opened NmeaParse

  /** A sentence: the given fields, a comma, then any bytes up to the copy bound. */
  function Sentence(fs: seq<seq<CChar>>, rest: seq<CChar>): seq<CChar>
    requires |fs| > 0
  {
    Join(fs, ',') + [','] + rest
  }

  /** The tokens the parser sees in such a sentence: the non-empty fields, then the tokens of the rest. */
  lemma SentenceTokens(fs: seq<seq<CChar>>, rest: seq<CChar>)
    requires |fs| > 0 && forall k :: 0 <= k < |fs| ==> ',' !in fs[k] && NUL !in fs[k]
    requires NUL !in rest && |Sentence(fs, rest)| <= MaxRmcLength
    ensures RmcTokens(Sentence(fs, rest)) == NonEmpty(fs) + Strtok(rest, ',')
  {
    var s := Sentence(fs, rest);
    JoinAvoids(fs, ',', NUL);
    StrndupNulFree(s, MaxRmcLength);
    assert s[..|s|] == s;
    StrtokJoinThen(fs, ',', rest);
  }

  const FixFields: seq<seq<CChar>> := ["$GNRMC", FixTime, "A", FixLatitude, "N", FixLongitude, "E"]

  /** The seven example fields joined by commas take 48 bytes. */
  lemma FixFieldsLength()
    ensures |Join(FixFields, ',')| == 48
  {
    var fs := FixFields;
    assert fs[6..] == ["E"] && |Join(fs[6..], ',')| == 1;
    assert fs[5..][1..] == fs[6..] && |Join(fs[5..], ',')| == 14;
    assert fs[4..][1..] == fs[5..] && |Join(fs[4..], ',')| == 16;
    assert fs[3..][1..] == fs[4..] && |Join(fs[3..], ',')| == 28;
    assert fs[2..][1..] == fs[3..] && |Join(fs[2..], ',')| == 30;
    assert fs[1..][1..] == fs[2..] && |Join(fs[1..], ',')| == 41;
  }

  /** No example field holds a comma, a NUL or a line feed, and none is empty. */
  lemma FixFieldsPlain()
    ensures forall k :: 0 <= k < |FixFields| ==>
      ',' !in FixFields[k] && NUL !in FixFields[k] && '\n' !in FixFields[k] && FixFields[k] != []
  {
  }

  /** The tokens of a sentence that starts with the seven example fields. */
  lemma FixSentenceTokens(rest: seq<CChar>)
    requires NUL !in rest && |rest| <= 41
    ensures RmcTokens(Sentence(FixFields, rest)) == FixFields + Strtok(rest, ',')
  {
    FixFieldsLength();
    FixFieldsPlain();
    SentenceTokens(FixFields, rest);
    NonEmptyKeeps(FixFields);
  }

  /** Any token list that starts with the seven example fields parses to the documented position. */
  lemma FixFieldsParse(toks: seq<seq<CChar>>, g: Gps)
    requires |toks| >= 7 && toks[..7] == FixFields
    ensures ParseFrom(toks, 0, g) == (0, Gps(8, 6, 8.0, 1, 30.0 + 29.461489 / 60.0, 114.0 + 30.072002 / 60.0))
  {
    assert toks[1] == FixTime && toks[2] == "A" && toks[3] == FixLatitude;
    assert toks[4] == "N" && toks[5] == FixLongitude && toks[6] == "E";
    TimeExample();
    LatitudeExample(g);
    LongitudeExample(g);
    ParseValidFix(toks, g);
    assert HemisphereSign(toks[4], 'S') == 1.0 && HemisphereSign(toks[6], 'W') == 1.0;
  }

  /**
   * The documented sentence "$GNRMC,080608.000,A,3029.461489,N,11430.072002,E,..."
   * with anything after its seventh field: time 08:06:08.000, a fix,
   * 30 degrees 29.461489 minutes north and 114 degrees 30.072002 minutes east.
   */
  lemma FixSentenceParses(rest: seq<CChar>, g: Gps)
    requires NUL !in rest && |rest| <= 41
    ensures ParseRMCSpec(Sentence(FixFields, rest), g) ==
      (0, Gps(8, 6, 8.0, 1, 30.0 + 29.461489 / 60.0, 114.0 + 30.072002 / 60.0))
  {
    var toks := FixFields + Strtok(rest, ',');
    FixSentenceTokens(rest);
    assert toks[..7] == FixFields;
    FixFieldsParse(toks, g);
  }

  const NoFixFields: seq<seq<CChar>> := ["$GNRMC", FixTime, "V"]

  /**
   * The same sentence with status 'V': the time is kept, the fix and both
   * coordinates become zero and the parse succeeds, whatever follows.
   */
  lemma NoFixSentenceParses(rest: seq<CChar>, g: Gps)
    requires NUL !in rest && |rest| <= 70
    ensures ParseRMCSpec(Sentence(NoFixFields, rest), g) == (0, Gps(8, 6, 8.0, 0, 0.0, 0.0))
  {
    var fs := NoFixFields;
    assert fs[1..][1..] == ["V"] && |Join(fs[1..], ',')| == 12;
    assert |Join(fs, ',')| == 19;
    assert forall k :: 0 <= k < |fs| ==> ',' !in fs[k] && NUL !in fs[k] && fs[k] != [];
    SentenceTokens(fs, rest);
    NonEmptyKeeps(fs);
    var toks := fs + Strtok(rest, ',');
    assert toks[1] == FixTime && toks[2] == "V";
    TimeExample();
    ParseNoFix(toks, g);
  }

  const NoTimeFields: seq<seq<CChar>> := ["$GNRMC", "", "V"]

  /**
   * A sentence whose time field is empty: tokenising skips the empty field,
   * so the status "V" is read as the time, found too short, and the parse
   * fails with the record untouched.
   */
  lemma NoTimeSentenceFails(rest: seq<CChar>, g: Gps)
    requires NUL !in rest && |rest| <= 80
    ensures |RmcTokens(Sentence(NoTimeFields, rest))| >= 2 && RmcTokens(Sentence(NoTimeFields, rest))[..2] == ["$GNRMC", "V"]
    ensures ParseRMCSpec(Sentence(NoTimeFields, rest), g) == (-1, g)
  {
    var fs := NoTimeFields;
    assert fs[1..][1..] == ["V"] && |Join(fs[1..], ',')| == 2;
    assert |Join(fs, ',')| == 9;
    assert forall k :: 0 <= k < |fs| ==> ',' !in fs[k] && NUL !in fs[k];
    SentenceTokens(fs, rest);
    var first: seq<seq<CChar>> := ["$GNRMC", "V"];
    var tail: seq<seq<CChar>> := fs[1..][1..][1..];
    assert tail == [];
    assert NonEmpty(fs) == first;
    var toks := first + Strtok(rest, ',');
    assert toks[..2] == first;
    ParseNext(toks, 0, g, g);
    ParseStop(toks, 1, g, -1, g);
  }

  /** The example time followed by anything is still read as 08:06:08: only its first ten bytes matter. */
  lemma TimeThenAnything(tail: seq<CChar>)
    ensures ValidTime(FixTime + tail)
    ensures AllHexDigits((FixTime + tail)[..2]) && AllHexDigits((FixTime + tail)[2..4])
    ensures Value((FixTime + tail)[..2], 10) == 8 && Value((FixTime + tail)[2..4], 10) == 6 && SecondsOf(FixTime + tail) == 8.0
  {
    var t := FixTime + tail;
    TimeExample();
    assert t[..2] == FixTime[..2] && t[2..4] == FixTime[2..4] && t[4..6] == FixTime[4..6];
    assert t[6] == FixTime[6];
    assert t[Min(7, |t|)..Min(10, |t|)] == FixTime[Min(7, |FixTime|)..Min(10, |FixTime|)];
  }

  /**
   * A sentence that ends right after its time field: the time is read, the
   * parse succeeds, and fix and position keep whatever they held before.
   */
  lemma TimeOnlySentenceParses(g: Gps)
    ensures ParseRMCSpec(Sentence(["$GNRMC"], FixTime + ['\n']), g) == (0, g.(hours := 8, minutes := 6, seconds := 8.0))
  {
    var t := FixTime + ['\n'];
    TimeOnlyTokens();
    var toks: seq<seq<CChar>> := ["$GNRMC", t];
    TimeThenAnything(['\n']);
    TimeDigits(t, g);
    ParseNext(toks, 0, g, g);
    ParseNext(toks, 1, g, g.(hours := 8, minutes := 6, seconds := 8.0));
    assert ParseFrom(toks, 2, g.(hours := 8, minutes := 6, seconds := 8.0)) == (0, g.(hours := 8, minutes := 6, seconds := 8.0));
  }

  /** That sentence gives two tokens: the identifier, and the time with the line feed still attached. */
  lemma TimeOnlyTokens()
    ensures RmcTokens(Sentence(["$GNRMC"], FixTime + ['\n'])) == ["$GNRMC", FixTime + ['\n']]
  {
    var t := FixTime + ['\n'];
    var fs: seq<seq<CChar>> := ["$GNRMC"];
    assert |t| == 11 && ',' !in t && NUL !in t;
    SentenceTokens(fs, t);
    assert NonEmpty(fs) == fs;
    StrtokJoin([t], ',');
    assert Join([t], ',') == t && NonEmpty([t]) == [t];
  }
}
