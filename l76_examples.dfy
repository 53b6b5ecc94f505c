/**
 * Whole polling reads: a FIFO holding some noise, one sentence and anything
 * after it, framed, identified and parsed into the caller's record.
 */
module L76Examples {
  import opened CStrings
  import opened Nmea
  import opened NmeaFields
  import opened NmeaExamples
  import opened L76
  import opened L76Framing

  /** Once framed, the identifier check and the parser see exactly the line: the NULs after it end the string. */
  lemma FramedLineParses(q: seq<CChar>, d: seq<CChar>, body: seq<CChar>, rest: seq<CChar>, g: Gps)
    requires Splits(q, d, body, rest) && NUL !in body
    ensures Frame(q).rc == 0
    ensures ValidateRMC(Frame(q).sentence) == ValidateRMC(['$'] + body + ['\n'])
    ensures ParseRMCSpec(Frame(q).sentence, g) == ParseRMCSpec(['$'] + body + ['\n'], g)
  {
    FrameAccepts(q, d, body, rest);
    var line: seq<CChar> := ['$'] + body + ['\n'];
    var z := Zeros(BufferSize - 2 - |body|);
    var s := Frame(q).sentence;
    assert s == line + z;
    StrndupStopsAtNul(line, z, MaxRmcLength);
    assert RmcTokens(s) == RmcTokens(line);
    assert At(s, 3) == At(line, 3) && At(s, 4) == At(line, 4) && At(s, 5) == At(line, 5);
  }

  /** A line the framer accepts and whose bytes hold no NUL: the outcome of a read is that of the line itself. */
  lemma ReadOfLine(d: seq<CChar>, line: seq<CChar>, more: seq<CChar>, g: Gps, st: Status)
    requires '$' !in d && |d| < StartSearchLimit
    requires 2 <= |line| <= BufferSize && line[0] == '$' && line[|line| - 1] == '\n'
    requires '\n' !in line[1..|line| - 1] && NUL !in line
    ensures var f := Frame(d + line + more);
      f.rc == 0 && f.rest == more &&
      ReadOutcome(f, g, st) ==
        if ValidateRMC(line) != 0 then (-1, g, st.(status := 0))
        else
          var (prc, g') := ParseRMCSpec(line, g);
          if prc != 0 then (-1, g', st.(status := 0)) else (0, g', Status(1, g'.fix, g'.latitude, g'.longitude))
  {
    var body := line[1..|line| - 1];
    assert line == ['$'] + body + ['\n'];
    var q := d + line + more;
    assert q == d + ['$'] + body + ['\n'] + more;
    assert Splits(q, d, body, more);
    FrameAccepts(q, d, body, more);
    FramedLineParses(q, d, body, more, g);
  }

  /** The bytes of the documented sentence ending in a line feed, and what the framer needs of them. */
  lemma FixLine(rest: seq<CChar>)
    requires NUL !in rest && '\n' !in rest && |rest| <= 40
    ensures var line := Sentence(FixFields, rest + ['\n']);
      2 <= |line| <= BufferSize && line[0] == '$' && line[|line| - 1] == '\n' &&
      '\n' !in line[1..|line| - 1] && NUL !in line && ValidateRMC(line) == 0
  {
    var j := Join(FixFields, ',');
    FixFieldsLength();
    FixFieldsPlain();
    JoinAvoids(FixFields, ',', '\n');
    JoinAvoids(FixFields, ',', NUL);
    assert j == FixFields[0] + [','] + Join(FixFields[1..], ',');
    assert j[..6] == "$GNRMC";
    var line := Sentence(FixFields, rest + ['\n']);
    assert line == j + [','] + rest + ['\n'];
    assert line[1..|line| - 1] == j[1..] + [','] + rest;
  }

  /**
   * The documented sentence after up to 99 bytes of noise: the read succeeds,
   * reports status 1 with the fix and the position, and leaves the bytes
   * after the sentence in the FIFO.
   */
  lemma ReadFixSentence(d: seq<CChar>, rest: seq<CChar>, more: seq<CChar>, g: Gps, st: Status)
    requires '$' !in d && |d| < StartSearchLimit
    requires NUL !in rest && '\n' !in rest && |rest| <= 40
    ensures var f := Frame(d + Sentence(FixFields, rest + ['\n']) + more);
      f.rest == more &&
      ReadOutcome(f, g, st) == (0, Gps(8, 6, 8.0, 1, 30.0 + 29.461489 / 60.0, 114.0 + 30.072002 / 60.0),
        Status(1, 1, 30.0 + 29.461489 / 60.0, 114.0 + 30.072002 / 60.0))
  {
    FixLine(rest);
    ReadOfLine(d, Sentence(FixFields, rest + ['\n']), more, g, st);
    FixSentenceParses(rest + ['\n'], g);
  }

  /**
   * A GGA sentence is framed but refused by the identifier check: the read
   * fails with status 0, and neither the parsed record nor the caller's fix
   * and position change.
   */
  lemma ReadGgaSentence(d: seq<CChar>, tail: seq<CChar>, more: seq<CChar>, g: Gps, st: Status)
    requires '$' !in d && |d| < StartSearchLimit
    requires NUL !in tail && '\n' !in tail && |tail| <= BufferSize - 7
    ensures ReadOutcome(Frame(d + "$GPGGA" + tail + ['\n'] + more), g, st) == (-1, g, st.(status := 0))
  {
    var line: seq<CChar> := "$GPGGA" + tail + ['\n'];
    assert line[1..|line| - 1] == "GPGGA" + tail;
    assert line[3] == 'G';
    assert d + "$GPGGA" + tail + ['\n'] + more == d + line + more;
    ReadOfLine(d, line, more, g, st);
  }

  /**
   * A sentence with an empty time field: tokenising drops the empty field, the
   * status letter is taken for the time and refused, and the read fails with
   * status 0 and the records otherwise unchanged.
   */
  lemma ReadNoTimeSentence(d: seq<CChar>, rest: seq<CChar>, more: seq<CChar>, g: Gps, st: Status)
    requires '$' !in d && |d| < StartSearchLimit
    requires NUL !in rest && '\n' !in rest && |rest| <= 79
    ensures ReadOutcome(Frame(d + Sentence(NoTimeFields, rest + ['\n']) + more), g, st) == (-1, g, st.(status := 0))
  {
    var line := Sentence(NoTimeFields, rest + ['\n']);
    var j := Join(NoTimeFields, ',');
    assert j == "$GNRMC" + [','] + Join(NoTimeFields[1..], ',');
    assert NoTimeFields[1..][1..] == ["V"];
    assert Join(NoTimeFields[1..], ',') == "" + [','] + "V";
    assert line == "$GNRMC,,V," + rest + ['\n'];
    assert line[1..|line| - 1] == "GNRMC,,V," + rest;
    assert line[3] == 'R' && line[4] == 'M' && line[5] == 'C';
    ReadOfLine(d, line, more, g, st);
    NoTimeSentenceFails(rest + ['\n'], g);
  }

  /**
   * A sentence that ends after its time field still gives a successful read
   * with status 1, reporting the fix and position the module held before.
   */
  lemma ReadTimeOnlySentence(d: seq<CChar>, more: seq<CChar>, g: Gps, st: Status)
    requires '$' !in d && |d| < StartSearchLimit
    ensures ReadOutcome(Frame(d + Sentence(["$GNRMC"], FixTime + ['\n']) + more), g, st) ==
      (0, g.(hours := 8, minutes := 6, seconds := 8.0), Status(1, g.fix, g.latitude, g.longitude))
  {
    var line := Sentence(["$GNRMC"], FixTime + ['\n']);
    assert line == "$GNRMC," + FixTime + ['\n'];
    assert line[1..|line| - 1] == "GNRMC," + FixTime;
    assert line[3] == 'R' && line[4] == 'M' && line[5] == 'C';
    ReadOfLine(d, line, more, g, st);
    TimeOnlySentenceParses(g);
  }
}
