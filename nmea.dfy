/**
 * The NMEA 0183 RMC parser: recognise an RMC sentence and read its time, fix
 * status, latitude and longitude into a GPS record.
 *
 * The parser works on a copy of at most MaxRmcLength bytes of the sentence,
 * cut into comma-separated tokens with strtok; the k-th token is read as
 * field k, so an empty field shifts the fields after it. Only the first
 * MaxTokensToRead tokens are examined.
 */
module Nmea {
  import opened Wrappers
  import opened CInts
  import opened CStrings
  import opened CNumbers

  const MaxTokensToRead: nat := 7
  const MaxRmcLength: nat := 90

  /** The parsed fields of an RMC sentence: time of fix, fix flag and position in decimal degrees. */
  datatype Gps = Gps(hours: int, minutes: int, seconds: real, fix: int, latitude: real, longitude: real)
  {
    /** Each integer field fits its C type (uint8_t hours and minutes, int8_t fix). */
    predicate InRange()
    {
      0 <= hours < 256 && 0 <= minutes < 256 && -128 <= fix < 128
    }
  }

  /** The caller's GPS record, which the parser fills in place. */
  class GpsData {
    var hours: int
    var minutes: int
    var seconds: real
    var fix: int
    var latitude: real
    var longitude: real

    function Value(): Gps
      reads this
    {
      Gps(hours, minutes, seconds, fix, latitude, longitude)
    }

    /** A zero-initialised record, as a static C struct starts. */
    constructor ()
      ensures Value() == Gps(0, 0, 0.0, 0, 0.0, 0.0)
    {
      hours, minutes, seconds := 0, 0, 0.0;
      fix, latitude, longitude := 0, 0.0, 0.0;
    }
  }

  /** The sentence identifier check: 0 when the three bytes after the talker prefix are "RMC", else -1. */
  function ValidateRMC(s: seq<CChar>): (r: int)
    ensures r == 0 || r == -1
    ensures r == 0 <==> At(s, 3) == 'R' && At(s, 4) == 'M' && At(s, 5) == 'C'
  {
    var rest := Skip(s, 3);
    StrncmpZero(rest, "RMC", 3);
    StrndupRMC(rest);
    if Strncmp(rest, "RMC", 3) == 0 then 0 else -1
  }

  lemma StrndupRMC(rest: seq<CChar>)
    ensures Strndup("RMC", 3) == "RMC"
    ensures Strndup(rest, 3) == "RMC" <==> At(rest, 0) == 'R' && At(rest, 1) == 'M' && At(rest, 2) == 'C'
  {
    var k := StrnLen(rest, 3);
    if At(rest, 0) == 'R' && At(rest, 1) == 'M' && At(rest, 2) == 'C' {
      assert k == 3;
      assert Strndup(rest, 3) == rest[..3];
    }
  }

  /** What reading one token does: go on with the next token, or stop with a return code. */
  datatype Step = Next(g: Gps) | Stop(rc: int, g: Gps)

  /** Field 1, hhmmss[.sss]: at least six bytes, a '.' at offset 6 if longer, then hours, minutes, seconds. */
  function TimeField(t: seq<CChar>, g: Gps): Step
  {
    if StrnLen(t, 6) < 6 then Stop(-1, g)
    else if StrnLen(t, 10) > 6 && t[6] != '.' then Stop(-1, g)
    else
      var hours := Strncpy("00\0", t, 2);
      var minutes := Strncpy("00\0", Skip(t, 2), 2);
      var seconds := Strncpy("00.000\0", Skip(t, 4), 6);
      Next(g.(hours := ToUint8(Atoi(hours)), minutes := ToUint8(Atoi(minutes)), seconds := Atof(seconds)))
  }

  /** Field 2: 'A' sets the fix; 'V' clears it, zeroes the position and ends the parse with success. */
  function FixField(t: seq<CChar>, g: Gps): Step
  {
    if At(t, 0) == 'A' then Next(g.(fix := 1))
    else if At(t, 0) == 'V' then Stop(0, g.(fix := 0, latitude := 0.0, longitude := 0.0))
    else Stop(-1, g)
  }

  /** Degrees and decimal minutes to decimal degrees. */
  function DecimalDegrees(degrees: seq<CChar>, minutes: seq<CChar>): real
  {
    Atoi(degrees) as real + Atof(minutes) / 60.0
  }

  /** Field 3, ddmm.mmmmmm: at least nine bytes with '.' at offset 4. */
  function LatitudeField(t: seq<CChar>, g: Gps): Step
  {
    if StrnLen(t, 9) < 9 || t[4] != '.' then Stop(-1, g)
    else
      var degrees := Strncpy("00\0", t, 2);
      var minutes := Strncpy("00.000000\0", Skip(t, 2), 9);
      Next(g.(latitude := DecimalDegrees(degrees, minutes)))
  }

  /** Field 5, dddmm.mmmmmm: at least ten bytes with '.' at offset 5. */
  function LongitudeField(t: seq<CChar>, g: Gps): Step
  {
    if StrnLen(t, 10) < 10 || t[5] != '.' then Stop(-1, g)
    else
      var degrees := Strncpy("000\0", t, 3);
      var minutes := Strncpy("00.000000\0", Skip(t, 3), 9);
      Next(g.(longitude := DecimalDegrees(degrees, minutes)))
  }

  /** A hemisphere indicator: +1 for the positive letter, -1 for the negative one, nothing for any other byte. */
  function Sign(t: seq<CChar>, positive: CChar, negative: CChar): (r: Option<int>)
    ensures r.Some? <==> At(t, 0) == positive || At(t, 0) == negative
  {
    if At(t, 0) == positive then Some(1)
    else if At(t, 0) == negative then Some(-1)
    else None
  }

  /** Token idx of the sentence applied to the record read so far. */
  function Field(idx: nat, t: seq<CChar>, g: Gps): Step
  {
    if idx == 1 then TimeField(t, g)
    else if idx == 2 then FixField(t, g)
    else if idx == 3 then LatitudeField(t, g)
    else if idx == 4 then
      match Sign(t, 'N', 'S')
      case None => Stop(-1, g)
      case Some(sign) => Next(g.(latitude := g.latitude * sign as real))
    else if idx == 5 then LongitudeField(t, g)
    else if idx == 6 then
      match Sign(t, 'E', 'W')
      case None => Stop(-1, g)
      case Some(sign) => Next(g.(longitude := g.longitude * sign as real))
    else Next(g)
  }

  /** The tokens from idx on, read in order until a field stops the parse or MaxTokensToRead tokens are read. */
  function ParseFrom(toks: seq<seq<CChar>>, idx: nat, g: Gps): (r: (int, Gps))
    ensures r.0 == 0 || r.0 == -1
    decreases |toks| - idx
  {
    if idx >= |toks| || idx >= MaxTokensToRead then (0, g)
    else
      match Field(idx, toks[idx], g)
      case Next(g') => ParseFrom(toks, idx + 1, g')
      case Stop(rc, g') => assert rc == 0 || rc == -1; (rc, g')
  }

  /** The tokens the parser examines: strtok over the first MaxRmcLength bytes of the sentence. */
  function RmcTokens(s: seq<CChar>): seq<seq<CChar>>
  {
    Strtok(Strndup(s, MaxRmcLength), ',')
  }

  /** The return code and the record NMEA_ParseRMC leaves, for a sentence buffer s and a record that held g. */
  function ParseRMCSpec(s: seq<CChar>, g: Gps): (int, Gps)
  {
    ParseFrom(RmcTokens(s), 0, g)
  }

  /**
   * NMEA_ParseRMC: -1 for a missing sentence or record; otherwise the strtok
   * loop over a bounded copy of the sentence, writing each field into the
   * record as it is read. A bad field returns -1 with the fields read before
   * it already written.
   */
  method ParseRMC(sentence: array?<CChar>, gps: GpsData?) returns (rc: int)
    modifies gps
    ensures sentence == null || gps == null ==> rc == -1 && (gps != null ==> gps.Value() == old(gps.Value()))
    ensures sentence != null && gps != null ==> (rc, gps.Value()) == ParseRMCSpec(sentence[..], old(gps.Value()))
  {
    if sentence == null || gps == null {
      return -1;
    }
    var copy := Strndup(sentence[..], MaxRmcLength);
    ghost var toks := Strtok(copy, ',');
    ghost var g0 := gps.Value();
    var tokIdx: nat := 0;
    var pos: nat := 0;  // where strtok resumes
    var token := NextToken(copy, ',', pos);
    while token.Some? && tokIdx < MaxTokensToRead
      invariant pos <= |copy| && token == NextToken(copy, ',', pos)
      invariant tokIdx <= |toks| && TokensFrom(copy, ',', pos) == toks[tokIdx..]
      invariant ParseFrom(toks, tokIdx, gps.Value()) == ParseFrom(toks, 0, g0)
      decreases |copy| - pos
    {
      var t := token.value.0;
      TokensNext(copy, ',', pos);
      assert toks[tokIdx..] == [t] + TokensFrom(copy, ',', token.value.1);
      assert t == toks[tokIdx];
      ghost var g := gps.Value();
      var stop := ReadToken(tokIdx, t, gps);
      if stop.Some? {
        ParseStop(toks, tokIdx, g, stop.value, gps.Value());
        return stop.value;
      }
      ParseNext(toks, tokIdx, g, gps.Value());
      pos := token.value.1;
      token := NextToken(copy, ',', pos);
      tokIdx := tokIdx + 1;
    }
    return 0;
  }

  /**
   * The body of the parser's loop for token idx: writes the field into the
   * record, and says whether the parse stops here and with which code.
   */
  method ReadToken(idx: nat, t: seq<CChar>, gps: GpsData) returns (stop: Option<int>)
    requires t != []
    modifies gps
    ensures Field(idx, t, old(gps.Value())) == if stop.None? then Next(gps.Value()) else Stop(stop.value, gps.Value())
  {
    if idx == 1 {
      if StrnLen(t, 6) < 6 {
        return Some(-1);
      }
      if StrnLen(t, 10) > 6 && t[6] != '.' {
        return Some(-1);
      }
      var hours := Strncpy("00\0", t, 2);
      gps.hours := ToUint8(Atoi(hours));
      var minutes := Strncpy("00\0", Skip(t, 2), 2);
      gps.minutes := ToUint8(Atoi(minutes));
      var seconds := Strncpy("00.000\0", Skip(t, 4), 6);
      gps.seconds := Atof(seconds);
    } else if idx == 2 {
      if t[0] == 'A' {
        gps.fix := 1;
      } else if t[0] == 'V' {
        gps.fix := 0;
      } else {
        return Some(-1);
      }
      if gps.fix == 0 {
        gps.latitude := 0.0;
        gps.longitude := 0.0;
        return Some(0);  // no fix: the position fields are not read (the loop's break)
      }
    } else if idx == 3 {
      if StrnLen(t, 9) < 9 || t[4] != '.' {
        return Some(-1);
      }
      var degrees := Strncpy("00\0", t, 2);
      var minutes := Strncpy("00.000000\0", Skip(t, 2), 9);
      gps.latitude := Atoi(degrees) as real + Atof(minutes) / 60.0;
    } else if idx == 4 {
      var sign;
      if t[0] == 'N' {
        sign := 1;
      } else if t[0] == 'S' {
        sign := -1;
      } else {
        return Some(-1);
      }
      gps.latitude := gps.latitude * sign as real;
    } else if idx == 5 {
      if StrnLen(t, 10) < 10 || t[5] != '.' {
        return Some(-1);
      }
      var degrees := Strncpy("000\0", t, 3);
      var minutes := Strncpy("00.000000\0", Skip(t, 3), 9);
      gps.longitude := Atoi(degrees) as real + Atof(minutes) / 60.0;
    } else if idx == 6 {
      var sign;
      if t[0] == 'E' {
        sign := 1;
      } else if t[0] == 'W' {
        sign := -1;
      } else {
        return Some(-1);
      }
      gps.longitude := gps.longitude * sign as real;
    }
    return None;
  }

  lemma TokensNext(s: seq<CChar>, d: CChar, from: nat)
    requires from <= |s| && NextToken(s, d, from).Some?
    ensures TokensFrom(s, d, from) == [NextToken(s, d, from).value.0] + TokensFrom(s, d, NextToken(s, d, from).value.1)
  {
  }

  lemma ParseNext(toks: seq<seq<CChar>>, idx: nat, g: Gps, g': Gps)
    requires idx < |toks| && idx < MaxTokensToRead && Field(idx, toks[idx], g) == Next(g')
    ensures ParseFrom(toks, idx, g) == ParseFrom(toks, idx + 1, g')
  {
  }

  lemma ParseStop(toks: seq<seq<CChar>>, idx: nat, g: Gps, rc: int, g': Gps)
    requires idx < |toks| && idx < MaxTokensToRead && Field(idx, toks[idx], g) == Stop(rc, g')
    ensures ParseFrom(toks, idx, g) == (rc, g')
  {
  }
}
