/**
 * The parts of the C string library the NMEA parser uses, over byte buffers.
 * A buffer is a sequence of C chars; the C string it holds ends at its first
 * NUL, and a sequence with no NUL stands for a string whose terminator follows
 * its last byte.
 */
module CStrings {
  import opened Wrappers

  /** A C `char`: one 8-bit code unit. */
  type CChar = c: char | c as int < 256

  const NUL: CChar := '\0'

  function Min(a: int, b: int): int { if a < b then a else b }

  /** The byte at offset i, reading NUL past the end of the buffer. */
  function At(s: seq<CChar>, i: nat): CChar
  {
    if i < |s| then s[i] else NUL
  }

  /** The buffer without its first i bytes (`s + i`), empty when i is past its end. */
  function Skip(s: seq<CChar>, i: nat): seq<CChar>
  {
    if i <= |s| then s[i..] else []
  }

  /** strnlen(s, n): the offset of the first NUL among the first n bytes, else n (never past the buffer). */
  function StrnLen(s: seq<CChar>, n: nat): (r: nat)
    ensures r <= n && r <= |s|
    ensures forall i :: 0 <= i < r ==> s[i] != NUL
    ensures r < n ==> r == |s| || s[r] == NUL
  {
    if n == 0 || s == [] || s[0] == NUL then 0 else 1 + StrnLen(s[1..], n - 1)
  }

  /** The C string a buffer holds. */
  function CString(s: seq<CChar>): seq<CChar>
  {
    s[..StrnLen(s, |s|)]
  }

  /** strndup(s, n): a copy of at most n bytes of s, stopping before its terminating NUL. */
  function Strndup(s: seq<CChar>, n: nat): seq<CChar>
  {
    s[..StrnLen(s, n)]
  }

  lemma {:induction false} StrndupCons(s: seq<CChar>, n: nat)
    ensures Strndup(s, n) == if n == 0 || At(s, 0) == NUL then [] else [s[0]] + Strndup(s[1..], n - 1)
  {
    if n > 0 && At(s, 0) != NUL {
      assert s == [s[0]] + s[1..];
    }
  }

  /**
   * strncpy(dst, src, n) on a buffer whose bytes are dst: the first n bytes
   * become the bytes of the string src, then NUL padding; the rest of dst stays.
   */
  function Strncpy(dst: seq<CChar>, src: seq<CChar>, n: nat): (r: seq<CChar>)
    requires n <= |dst|
    ensures |r| == |dst|
    ensures r[n..] == dst[n..]
  {
    var copied := Strndup(src, n);
    copied + seq(n - |copied|, _ => NUL) + dst[n..]
  }

  /** A buffer whose initial value is NUL-terminated right after the copied area holds exactly the copied string. */
  lemma StrncpyString(dst: seq<CChar>, src: seq<CChar>, n: nat)
    requires n < |dst| && dst[n] == NUL
    ensures CString(Strncpy(dst, src, n)) == Strndup(src, n)
  {
    var r := Strncpy(dst, src, n);
    var k := |Strndup(src, n)|;
    var e := StrnLen(r, |r|);
    assert r[k] == NUL;
    assert forall i :: 0 <= i < k ==> r[i] == src[i];
  }

  /** A strndup never holds a NUL. */
  lemma StrndupHasNoNul(s: seq<CChar>, n: nat)
    ensures NUL !in Strndup(s, n)
  {
    var r := Strndup(s, n);
    assert forall i :: 0 <= i < |r| ==> r[i] == s[i];
  }

  /** A NUL right after NUL-free bytes ends the string: what follows it is never copied. */
  lemma StrndupStopsAtNul(s: seq<CChar>, t: seq<CChar>, n: nat)
    requires NUL !in s && (t == [] || t[0] == NUL)
    ensures Strndup(s + t, n) == Strndup(s, n) == s[..Min(n, |s|)]
  {
    StrndupNulFree(s, n);
    var u := s + t;
    var m := StrnLen(u, n);
    assert forall i :: 0 <= i < Min(n, |s|) ==> u[i] != NUL by {
      forall i | 0 <= i < Min(n, |s|) ensures u[i] != NUL {
        assert u[i] == s[i];
      }
    }
    if t != [] {
      assert u[|s|] == NUL;
    }
    assert m == Min(n, |s|);
    assert u[..m] == s[..m];
  }

  /** On bytes with no NUL among the first n, strndup copies min(n, length) bytes. */
  lemma StrndupNulFree(s: seq<CChar>, n: nat)
    requires forall i :: 0 <= i < Min(n, |s|) ==> s[i] != NUL
    ensures StrnLen(s, n) == Min(n, |s|)
    ensures Strndup(s, n) == s[..Min(n, |s|)]
  {
  }

  /** strndup(s, n) reads no byte of s past the first n. */
  lemma StrndupPrefix(s: seq<CChar>, t: seq<CChar>, n: nat)
    requires n <= |s| && n <= |t| && s[..n] == t[..n]
    ensures Strndup(s, n) == Strndup(t, n)
  {
    var a, b := StrnLen(s, n), StrnLen(t, n);
    assert forall i :: 0 <= i < n ==> s[i] == t[i] by {
      forall i | 0 <= i < n ensures s[i] == t[i] {
        assert s[..n][i] == t[..n][i];
      }
    }
    assert a == b;
    assert s[..a] == t[..b];
  }

  /** strncpy of a source with no NUL among the bytes it copies: those bytes, NUL padding, then the rest of dst. */
  lemma StrncpyNulFree(dst: seq<CChar>, src: seq<CChar>, n: nat)
    requires n <= |dst|
    requires forall i :: 0 <= i < Min(n, |src|) ==> src[i] != NUL
    ensures Strncpy(dst, src, n) == src[..Min(n, |src|)] + seq(n - Min(n, |src|), _ => NUL) + dst[n..]
  {
    StrndupNulFree(src, n);
  }

  /** strncmp(a, b, n): compares at most n bytes as unsigned chars, stopping after a NUL; zero when equal. */
  function Strncmp(a: seq<CChar>, b: seq<CChar>, n: nat): int
    decreases n
  {
    if n == 0 then 0
    else if At(a, 0) != At(b, 0) then At(a, 0) as int - At(b, 0) as int
    else if At(a, 0) == NUL then 0
    else Strncmp(a[1..], b[1..], n - 1)
  }

  /** strncmp reports equality exactly when the first n bytes of the two strings agree. */
  lemma {:induction false} StrncmpZero(a: seq<CChar>, b: seq<CChar>, n: nat)
    ensures Strncmp(a, b, n) == 0 <==> Strndup(a, n) == Strndup(b, n)
    decreases n
  {
    StrndupCons(a, n);
    StrndupCons(b, n);
    if n > 0 && At(a, 0) == At(b, 0) && At(a, 0) != NUL {
      StrncmpZero(a[1..], b[1..], n - 1);
      var x, y := Strndup(a[1..], n - 1), Strndup(b[1..], n - 1);
      assert [a[0]] + x == [b[0]] + y ==> x == y by {
        if [a[0]] + x == [b[0]] + y {
          assert x == ([a[0]] + x)[1..];
        }
      }
    } else if n > 0 && At(a, 0) != At(b, 0) {
      if At(a, 0) != NUL && At(b, 0) != NUL {
        assert Strndup(a, n)[0] != Strndup(b, n)[0];
      }
    }
  }

  /** The first offset at or after `from` that is a delimiter d, else the end of the buffer. */
  function DelimAt(s: seq<CChar>, d: CChar, from: nat): (r: nat)
    requires from <= |s|
    ensures from <= r <= |s|
    ensures forall i :: from <= i < r ==> s[i] != d
    ensures r < |s| ==> s[r] == d
    decreases |s| - from
  {
    if from == |s| || s[from] == d then from else DelimAt(s, d, from + 1)
  }

  /** DelimAt is pinned down by its contract: a run free of d ended by a d (or the end). */
  lemma DelimAtIs(s: seq<CChar>, d: CChar, from: nat, r: nat)
    requires from <= r <= |s|
    requires forall i :: from <= i < r ==> s[i] != d
    requires r < |s| ==> s[r] == d
    ensures DelimAt(s, d, from) == r
  {
  }

  /** The first offset at or after `from` that is not the delimiter d, else the end of the buffer. */
  function SkipDelims(s: seq<CChar>, d: CChar, from: nat): (r: nat)
    requires from <= |s|
    ensures from <= r <= |s|
    ensures forall i :: from <= i < r ==> s[i] == d
    ensures r < |s| ==> s[r] != d
    decreases |s| - from
  {
    if from == |s| || s[from] != d then from else SkipDelims(s, d, from + 1)
  }

  /**
   * One call of strtok(·, d) whose saved position is `from`: the delimiters
   * there are skipped, and the next token and the position after it are
   * returned (strtok overwrites the delimiter ending the token with NUL and
   * resumes after it), or nothing when only delimiters remain.
   */
  function NextToken(s: seq<CChar>, d: CChar, from: nat): (r: Option<(seq<CChar>, nat)>)
    requires from <= |s|
    ensures r.Some? ==> from < r.value.1 <= |s| && r.value.0 != [] && d !in r.value.0
  {
    var start := SkipDelims(s, d, from);
    if start == |s| then None
    else
      var end := DelimAt(s, d, start);
      Some((s[start..end], if end < |s| then end + 1 else end))
  }

  /** The tokens strtok returns from saved position `from` on. */
  function TokensFrom(s: seq<CChar>, d: CChar, from: nat): seq<seq<CChar>>
    requires from <= |s|
    decreases |s| - from
  {
    match NextToken(s, d, from)
    case None => []
    case Some((t, next)) => [t] + TokensFrom(s, d, next)
  }

  /** Every token strtok(s, d) and then strtok(NULL, d) return, in order. */
  function Strtok(s: seq<CChar>, d: CChar): seq<seq<CChar>>
  {
    TokensFrom(s, d, 0)
  }

  /** The fields of s between delimiters, empty ones included: the reference reading of a delimited record. */
  function Split(s: seq<CChar>, d: CChar): (r: seq<seq<CChar>>)
    ensures |r| > 0
    decreases |s|
  {
    var end := DelimAt(s, d, 0);
    if end == |s| then [s] else [s[..end]] + Split(s[end + 1..], d)
  }

  /** The non-empty fields of fs, in order. */
  function NonEmpty(fs: seq<seq<CChar>>): seq<seq<CChar>>
  {
    if fs == [] then [] else (if fs[0] == [] then [] else [fs[0]]) + NonEmpty(fs[1..])
  }

  lemma {:induction false} NonEmptyAppend(a: seq<seq<CChar>>, b: seq<seq<CChar>>)
    ensures NonEmpty(a + b) == NonEmpty(a) + NonEmpty(b)
  {
    if a != [] {
      assert (a + b)[1..] == a[1..] + b;
      NonEmptyAppend(a[1..], b);
    } else {
      assert a + b == b;
    }
  }

  lemma DelimAtSuffix(s: seq<CChar>, d: CChar, from: nat)
    requires from <= |s|
    ensures DelimAt(s[from..], d, 0) == DelimAt(s, d, from) - from
  {
  }

  /**
   * strtok returns exactly the non-empty fields: a run of delimiters counts as
   * one, so an empty field yields no token and the later fields move up.
   */
  lemma {:induction false} StrtokIsNonEmptyFields(s: seq<CChar>, d: CChar)
    ensures Strtok(s, d) == NonEmpty(Split(s, d))
  {
    TokensFromSuffix(s, d, 0);
    assert s[0..] == s;
  }

  lemma {:induction false} TokensFromSuffix(s: seq<CChar>, d: CChar, from: nat)
    requires from <= |s|
    ensures TokensFrom(s, d, from) == NonEmpty(Split(s[from..], d))
    decreases |s| - from
  {
    if from == |s| {
      AtEnd(s, d);
    } else if s[from] == d {
      TokensFromSuffix(s, d, from + 1);
      SuffixAfterDelim(s, d, from);
    } else {
      var end := DelimAt(s, d, from);
      if end < |s| {
        TokensFromSuffix(s, d, end + 1);
        SuffixAfterToken(s, d, from, end);
      } else {
        LastToken(s, d, from, end);
        assert NonEmpty([s[from..end]]) == [s[from..end]];
      }
    }
  }

  /** The induction step at a delimiter: the empty field it closes adds no token. */
  lemma SuffixAfterDelim(s: seq<CChar>, d: CChar, from: nat)
    requires from < |s| && s[from] == d
    requires TokensFrom(s, d, from + 1) == NonEmpty(Split(s[from + 1..], d))
    ensures TokensFrom(s, d, from) == NonEmpty(Split(s[from..], d))
  {
    LeadingDelim(s, d, from);
    NonEmptyAppend([[]], Split(s[from + 1..], d));
    assert NonEmpty([[]]) == [];
  }

  /** The induction step at a field ended by a delimiter: the field is the next token. */
  lemma SuffixAfterToken(s: seq<CChar>, d: CChar, from: nat, end: nat)
    requires from < |s| && s[from] != d && end == DelimAt(s, d, from) && end < |s|
    requires TokensFrom(s, d, end + 1) == NonEmpty(Split(s[end + 1..], d))
    ensures TokensFrom(s, d, from) == NonEmpty(Split(s[from..], d))
  {
    var t := s[from..end];
    assert NonEmpty([t]) == [t];
    TokenThenDelim(s, d, from, end);
    NonEmptyAppend([t], Split(s[end + 1..], d));
  }

  lemma AtEnd(s: seq<CChar>, d: CChar)
    ensures TokensFrom(s, d, |s|) == NonEmpty(Split(s[|s|..], d)) == []
  {
    assert Split([], d) == [[]];
    assert NonEmpty([[]]) == [] + NonEmpty([]);
  }

  /** A delimiter at the saved position: strtok skips it, and it closes an empty field. */
  lemma LeadingDelim(s: seq<CChar>, d: CChar, from: nat)
    requires from < |s| && s[from] == d
    ensures TokensFrom(s, d, from) == TokensFrom(s, d, from + 1)
    ensures Split(s[from..], d) == [[]] + Split(s[from + 1..], d)
  {
    assert SkipDelims(s, d, from) == SkipDelims(s, d, from + 1);
    assert NextToken(s, d, from) == NextToken(s, d, from + 1);
    DelimAtSuffix(s, d, from);
    assert s[from..][1..] == s[from + 1..];
  }

  /** A field ended by a delimiter: strtok returns it whole and resumes after the delimiter. */
  lemma TokenThenDelim(s: seq<CChar>, d: CChar, from: nat, end: nat)
    requires from < |s| && s[from] != d && end == DelimAt(s, d, from) && end < |s|
    ensures TokensFrom(s, d, from) == [s[from..end]] + TokensFrom(s, d, end + 1)
    ensures Split(s[from..], d) == [s[from..end]] + Split(s[end + 1..], d)
  {
    assert SkipDelims(s, d, from) == from;
    assert NextToken(s, d, from) == Some((s[from..end], end + 1));
    FieldThenDelim(s, d, from, end);
  }

  lemma FieldThenDelim(s: seq<CChar>, d: CChar, from: nat, end: nat)
    requires from < |s| && end == DelimAt(s, d, from) && end < |s|
    ensures Split(s[from..], d) == [s[from..end]] + Split(s[end + 1..], d)
  {
    var rest := s[from..];
    DelimAtSuffix(s, d, from);
    var k := end - from;
    SplitUnfold(rest, d, k);
    assert rest[..k] == s[from..end];
    assert rest[k + 1..] == s[end + 1..];
  }

  lemma SplitUnfold(x: seq<CChar>, d: CChar, k: nat)
    requires k == DelimAt(x, d, 0) && k < |x|
    ensures Split(x, d) == [x[..k]] + Split(x[k + 1..], d)
  {
  }

  /** The last field, not followed by a delimiter. */
  lemma LastToken(s: seq<CChar>, d: CChar, from: nat, end: nat)
    requires from < |s| && s[from] != d && end == DelimAt(s, d, from) && end == |s|
    ensures TokensFrom(s, d, from) == [s[from..end]]
    ensures Split(s[from..], d) == [s[from..end]]
  {
    assert SkipDelims(s, d, from) == from;
    assert NextToken(s, d, from) == Some((s[from..end], end));
    assert NextToken(s, d, end) == None;
    DelimAtSuffix(s, d, from);
    assert s[from..end] == s[from..];
  }

  /** The fields joined with d between them: the inverse of Split. */
  function Join(fs: seq<seq<CChar>>, d: CChar): seq<CChar>
    requires |fs| > 0
  {
    if |fs| == 1 then fs[0] else fs[0] + [d] + Join(fs[1..], d)
  }

  /** Splitting fields that hold no delimiter, once joined, gives them back. */
  lemma {:induction false} SplitJoin(fs: seq<seq<CChar>>, d: CChar)
    requires |fs| > 0 && forall k :: 0 <= k < |fs| ==> d !in fs[k]
    ensures Split(Join(fs, d), d) == fs
  {
    var x := Join(fs, d);
    var f := fs[0];
    if |fs| == 1 {
      DelimAtIs(x, d, 0, |f|);
    } else {
      var rest := Join(fs[1..], d);
      assert x == f + [d] + rest;
      DelimAtIs(x, d, 0, |f|);
      SplitUnfold(x, d, |f|);
      assert x[..|f|] == f && x[|f| + 1..] == rest;
      SplitJoin(fs[1..], d);
      assert fs == [f] + fs[1..];
    }
  }

  /** Joined fields followed by a delimiter and more bytes split into those fields, then the fields of the rest. */
  lemma {:induction false} SplitJoinThen(fs: seq<seq<CChar>>, d: CChar, rest: seq<CChar>)
    requires |fs| > 0 && forall k :: 0 <= k < |fs| ==> d !in fs[k]
    ensures Split(Join(fs, d) + [d] + rest, d) == fs + Split(rest, d)
  {
    var f := fs[0];
    ConsAppend(fs, Split(rest, d));
    if |fs| == 1 {
      assert Join(fs, d) == f;
      SplitField(f, d, rest);
    } else {
      var j := Join(fs[1..], d);
      assert Join(fs, d) == f + [d] + j;
      Regroup(f, d, j, rest);
      SplitField(f, d, j + [d] + rest);
      SplitJoinThen(fs[1..], d, rest);
    }
  }

  lemma ConsAppend(fs: seq<seq<CChar>>, t: seq<seq<CChar>>)
    requires |fs| > 0
    ensures fs + t == [fs[0]] + (fs[1..] + t)
  {
  }

  lemma Regroup(f: seq<CChar>, d: CChar, j: seq<CChar>, rest: seq<CChar>)
    ensures f + [d] + j + [d] + rest == f + [d] + (j + [d] + rest)
  {
  }

  /** A field free of the delimiter, then the delimiter: Split takes the field and goes on after it. */
  lemma SplitField(f: seq<CChar>, d: CChar, tail: seq<CChar>)
    requires d !in f
    ensures Split(f + [d] + tail, d) == [f] + Split(tail, d)
  {
    var x := f + [d] + tail;
    DelimAtIs(x, d, 0, |f|);
    SplitUnfold(x, d, |f|);
    assert x[..|f|] == f && x[|f| + 1..] == tail;
  }

  /** strtok over joined fields followed by a delimiter and more bytes. */
  lemma StrtokJoinThen(fs: seq<seq<CChar>>, d: CChar, rest: seq<CChar>)
    requires |fs| > 0 && forall k :: 0 <= k < |fs| ==> d !in fs[k]
    ensures Strtok(Join(fs, d) + [d] + rest, d) == NonEmpty(fs) + Strtok(rest, d)
  {
    SplitJoinThen(fs, d, rest);
    StrtokIsNonEmptyFields(Join(fs, d) + [d] + rest, d);
    StrtokIsNonEmptyFields(rest, d);
    NonEmptyAppend(fs, Split(rest, d));
  }

  /** strtok over joined fields returns the non-empty ones. */
  lemma StrtokJoin(fs: seq<seq<CChar>>, d: CChar)
    requires |fs| > 0 && forall k :: 0 <= k < |fs| ==> d !in fs[k]
    ensures Strtok(Join(fs, d), d) == NonEmpty(fs)
  {
    SplitJoin(fs, d);
    StrtokIsNonEmptyFields(Join(fs, d), d);
  }

  /** A byte that is neither the delimiter nor in any field is not in their join. */
  lemma {:induction false} JoinAvoids(fs: seq<seq<CChar>>, d: CChar, c: CChar)
    requires |fs| > 0 && c != d && forall k :: 0 <= k < |fs| ==> c !in fs[k]
    ensures c !in Join(fs, d)
  {
    if |fs| > 1 {
      JoinAvoids(fs[1..], d, c);
    }
  }

  /** Fields that are all non-empty pass through NonEmpty unchanged. */
  lemma {:induction false} NonEmptyKeeps(fs: seq<seq<CChar>>)
    requires forall k :: 0 <= k < |fs| ==> fs[k] != []
    ensures NonEmpty(fs) == fs
  {
    if fs != [] {
      NonEmptyKeeps(fs[1..]);
      assert fs == [fs[0]] + fs[1..];
    }
  }

  /** Every token is non-empty and free of the delimiter. */
  lemma {:induction false} TokensAreFields(s: seq<CChar>, d: CChar, from: nat)
    requires from <= |s|
    ensures forall t :: t in TokensFrom(s, d, from) ==> t != [] && d !in t
    decreases |s| - from
  {
    match NextToken(s, d, from)
    case None =>
    case Some((t, next)) => TokensAreFields(s, d, next);
  }

  /** A buffer with no NUL yields tokens with no NUL. */
  lemma {:induction false} TokensHaveNoNul(s: seq<CChar>, d: CChar, from: nat)
    requires from <= |s| && NUL !in s
    ensures forall t :: t in TokensFrom(s, d, from) ==> NUL !in t
    decreases |s| - from
  {
    match NextToken(s, d, from)
    case None =>
    case Some((t, next)) =>
      assert forall i :: 0 <= i < |t| ==> t[i] in s;
      TokensHaveNoNul(s, d, next);
  }

  /** An example of the shift: an empty field between two others yields two tokens, not three. */
  lemma EmptyFieldShiftsTokens()
    ensures Split("A,,B", ',') == ["A", "", "B"]
    ensures Strtok("A,,B", ',') == ["A", "B"]
  {
    var s: seq<CChar> := "A,,B";
    assert DelimAt(s, ',', 0) == 1;
    assert s[..1] == "A" && s[2..] == ",B";
    assert Split(s, ',') == ["A"] + Split(s[2..], ',');
    assert DelimAt(s[2..], ',', 0) == 0;
    assert Split(s[2..], ',') == [""] + Split(s[3..], ',');
    StrtokIsNonEmptyFields(s, ',');
    assert NonEmpty(["A", "", "B"]) == ["A"] + NonEmpty(["", "B"]);
    assert NonEmpty(["", "B"]) == [] + NonEmpty(["B"]);
    assert NonEmpty(["B"]) == ["B"] + NonEmpty([]);
  }
}
