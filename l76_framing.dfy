/**
 * What the L76LM33 framer and the polling read promise: which FIFO contents
 * give a sentence, a framing error or an empty-buffer result, what the
 * sentence buffer then holds, and how the caller's record may change.
 */
module L76Framing {
  import opened CStrings
  import opened Nmea
  import opened NmeaParse
  import opened L76

  /**
   * The shape of a FIFO that frames: up to 99 bytes without '$', then '$',
   * at most 254 bytes without '\n', then '\n', then the rest.
   */
  predicate Splits(q: seq<CChar>, d: seq<char>, body: seq<char>, rest: seq<CChar>)
  {
    '$' !in d && |d| < StartSearchLimit && '\n' !in body && |body| < BufferSize - 1 &&
    q == d + [Start] + body + ['\n'] + rest
  }

  /**
   * Success: a FIFO of that shape frames; the sentence buffer holds the line
   * and NULs after it, and the FIFO keeps whatever followed the line.
   */
  lemma FrameAccepts(q: seq<CChar>, d: seq<CChar>, body: seq<CChar>, rest: seq<CChar>)
    requires Splits(q, d, body, rest)
    ensures Frame(q) == Framing(0, rest, [Start] + body + ['\n'] + Zeros(BufferSize - 2 - |body|))
  {
    var r := body + ['\n'] + rest;
    assert q == d + [Start] + r;
    SplitAt(d, '$', r);
    StartFound(q, |d|);
    SplitAt(body, '\n', rest);
    CopyEnd(r, |body|);
    AppendAssoc(['$'], body, ['\n']);
  }

  lemma AppendAssoc(a: seq<CChar>, b: seq<CChar>, c: seq<CChar>)
    ensures a + (b + c) == a + b + c
  {
  }

  /** The pieces of a + [c] + b. */
  lemma SplitAt(a: seq<CChar>, c: CChar, b: seq<CChar>)
    ensures var s := a + [c] + b;
      s[..|a|] == a && s[|a|] == c && s[..|a| + 1] == a + [c] && s[|a| + 1..] == b
  {
  }

  /** And only then: every successful framing comes from a FIFO of that shape. */
  lemma FrameOnlyAccepts(q: seq<CChar>)
    requires Frame(q).rc == 0
    ensures exists d: seq<char>, body: seq<char> :: Splits(q, d, body, Frame(q).rest)
  {
    var k := Find(q, '$', StartSearchLimit).value;
    StartFound(q, k);
    var r := q[k + 1..];
    var j := Find(r, '\n', BufferSize - 1).value;
    CopyEnd(r, j);
    Reassemble(q, k, j);
    assert Splits(q, q[..k], r[..j], Frame(q).rest);
  }

  /** A FIFO cut at its '$' and at the '\n' after it is the concatenation of the pieces. */
  lemma Reassemble(q: seq<CChar>, k: nat, j: nat)
    requires k < |q| && j < |q[k + 1..]| && q[k] == '$' && q[k + 1..][j] == '\n'
    ensures q == q[..k] + [Start] + q[k + 1..][..j] + ['\n'] + q[k + 1..][j + 1..]
  {
    var r := q[k + 1..];
    assert q == q[..k] + [q[k]] + r;
    assert r == r[..j] + [r[j]] + r[j + 1..];
  }

  /** A successful framing leaves '$', then bytes without '\n', then one '\n', then only NULs. */
  lemma FramedLine(q: seq<CChar>)
    requires Frame(q).rc == 0
    ensures var s := Frame(q).sentence;
      s[0] == '$' &&
      exists n :: 1 <= n < BufferSize && s[n] == '\n' && '\n' !in s[1..n] && s[n + 1..] == Zeros(BufferSize - 1 - n)
  {
    var k := Find(q, '$', StartSearchLimit).value;
    StartFound(q, k);
    var r := q[k + 1..];
    var j := Find(r, '\n', BufferSize - 1).value;
    var s := Frame(q).sentence;
    assert s == [Start] + r[..j + 1] + Zeros(BufferSize - 2 - j);
    assert s[1..j + 1] == r[..j] && s[j + 1] == '\n';
  }

  /** A '$' not among the first 100 bytes of a long enough FIFO: those 100 bytes are discarded and the result is -1. */
  lemma FrameNoStart(q: seq<CChar>)
    requires |q| >= StartSearchLimit && '$' !in q[..StartSearchLimit]
    ensures Frame(q) == Framing(-1, q[StartSearchLimit..], Zeros(BufferSize))
  {
    StartMissing(q, StartSearchLimit);
  }

  /** A short FIFO without '$' is emptied and the result is -2. */
  lemma FrameNoStartYet(q: seq<CChar>)
    requires |q| < StartSearchLimit && '$' !in q
    ensures Frame(q) == Framing(-2, [], Zeros(BufferSize))
  {
    assert q[..|q|] == q;
    StartMissing(q, |q|);
  }

  /** 255 bytes after the '$' without '\n': the buffer is full and the result is -1. */
  lemma FrameTooLong(d: seq<CChar>, body: seq<CChar>, rest: seq<CChar>)
    requires '$' !in d && |d| < StartSearchLimit && '\n' !in body && |body| == BufferSize - 1
    ensures Frame(d + [Start] + body + rest) == Framing(-1, rest, [Start] + body)
  {
    var q := d + [Start] + body + rest;
    var r := body + rest;
    AppendAssoc(d + ['$'], body, rest);
    SplitAt(d, '$', r);
    StartFound(q, |d|);
    assert r[..BufferSize - 1] == body && r[BufferSize - 1..] == rest;
    CopyTooLong(r);
  }

  /** The FIFO runs dry after the '$' and before a '\n': the result is -2 and the FIFO is empty. */
  lemma FrameCut(d: seq<CChar>, body: seq<CChar>)
    requires '$' !in d && |d| < StartSearchLimit && '\n' !in body && |body| < BufferSize - 1
    ensures Frame(d + [Start] + body) == Framing(-2, [], [Start] + body + Zeros(BufferSize - 1 - |body|))
  {
    var q := d + [Start] + body;
    SplitAt(d, '$', body);
    StartFound(q, |d|);
    CopyCut(body);
  }

  /**
   * The caller's record changes only as the read's result says: untouched on
   * -2, only the status cleared on -1, and status, fix and position taken
   * from the parsed record on 0. The parsed record changes only once the
   * sentence is framed and identified as RMC.
   */
  lemma ReadTouches(f: Framing, g: Gps, d: Status)
    requires f.rc == 0 || f.rc == -1 || f.rc == -2
    ensures var (rc, g', d') := ReadOutcome(f, g, d);
      (rc == 0 || rc == -1 || rc == -2) &&
      (rc == -2 <==> f.rc == -2) &&
      (rc == -2 ==> g' == g && d' == d) &&
      (rc == -1 ==> d' == d.(status := 0)) &&
      (rc == 0 ==> d' == Status(1, g'.fix, g'.latitude, g'.longitude)) &&
      (rc == 0 <==> f.rc == 0 && ValidateRMC(f.sentence) == 0 && ParseRMCSpec(f.sentence, g).0 == 0) &&
      (f.rc != 0 || ValidateRMC(f.sentence) != 0 ==> g' == g)
  {
  }
}
