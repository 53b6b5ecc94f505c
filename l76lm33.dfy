/**
 * The L76LM33 GNSS receiver driver: bytes arrive one at a time from the UART
 * interrupt into a FIFO, a new-line flag records that a whole line may be
 * waiting, and a polling call frames one "$...\n" sentence into a 256-byte
 * buffer, checks that it is an RMC sentence, parses it and copies the fix and
 * the position into the caller's record.
 *
 * The FIFO is the ring buffer of the firmware seen from outside: a sequence,
 * oldest byte first, with a capacity and a policy for a byte that arrives when
 * it is full (the ring buffer's own code is not part of this model).
 */
module L76 {
  import opened Wrappers
  import opened CStrings
  import opened Nmea

  /** Size of the ring buffer's storage and of the sentence buffer. */
  const BufferSize: nat := 256
  /** The byte that opens a sentence, as a one-byte buffer prefix. */
  const Start: CChar := '$'
  /** How many bytes the framer pops at most while looking for '$'. */
  const StartSearchLimit: nat := 100

  /** What the ring buffer does with a byte that arrives while it is full. */
  datatype Overflow = DropNewest | OverwriteOldest

  /** `ring_buffer_queue`: the FIFO after one byte arrives. */
  function Enqueue(q: seq<CChar>, b: CChar, capacity: nat, overflow: Overflow): (r: seq<CChar>)
    requires 0 < capacity && |q| <= capacity
    ensures |r| <= capacity
    ensures |q| < capacity ==> r == q + [b]
  {
    if |q| < capacity then q + [b]
    else if overflow == DropNewest then q
    else q[1..] + [b]
  }

  /** The FIFO after the bytes `bs` arrive in order, one callback each. */
  function Enqueued(q: seq<CChar>, bs: seq<CChar>, capacity: nat, overflow: Overflow): (r: seq<CChar>)
    requires 0 < capacity && |q| <= capacity
    ensures |r| <= capacity
    decreases |bs|
  {
    if bs == [] then q else Enqueued(Enqueue(q, bs[0], capacity, overflow), bs[1..], capacity, overflow)
  }

  /** Below capacity nothing is lost and the bytes queue up in arrival order. */
  lemma {:induction false} EnqueuedAppends(q: seq<CChar>, bs: seq<CChar>, capacity: nat, overflow: Overflow)
    requires 0 < capacity && |q| + |bs| <= capacity
    ensures Enqueued(q, bs, capacity, overflow) == q + bs
    decreases |bs|
  {
    if bs != [] {
      EnqueuedAppends(q + [bs[0]], bs[1..], capacity, overflow);
      assert q + [bs[0]] + bs[1..] == q + bs;
    }
  }

  /** A ring that refuses bytes when full keeps the oldest `capacity` bytes of everything received. */
  lemma {:induction false} EnqueuedDropNewest(q: seq<CChar>, bs: seq<CChar>, capacity: nat)
    requires 0 < capacity && |q| <= capacity
    ensures Enqueued(q, bs, capacity, DropNewest) == (q + bs)[..Min(capacity, |q| + |bs|)]
    decreases |bs|
  {
    if bs != [] {
      var q' := Enqueue(q, bs[0], capacity, DropNewest);
      EnqueuedDropNewest(q', bs[1..], capacity);
      if |q| < capacity {
        assert q' + bs[1..] == q + bs;
      } else {
        assert q' == q;
        assert (q + bs[1..])[..capacity] == q == (q + bs)[..capacity];
      }
    }
  }

  /** A ring that overwrites when full keeps the newest `capacity` bytes of everything received. */
  lemma {:induction false} EnqueuedOverwriteOldest(q: seq<CChar>, bs: seq<CChar>, capacity: nat)
    requires 0 < capacity && |q| <= capacity
    ensures var all := q + bs; Enqueued(q, bs, capacity, OverwriteOldest) == all[|all| - Min(capacity, |all|)..]
    decreases |bs|
  {
    if bs != [] {
      var q' := Enqueue(q, bs[0], capacity, OverwriteOldest);
      assert Enqueued(q, bs, capacity, OverwriteOldest) == Enqueued(q', bs[1..], capacity, OverwriteOldest);
      EnqueuedOverwriteOldest(q', bs[1..], capacity);
      var all := q + bs;
      if |q| < capacity {
        assert q' + bs[1..] == all;
      } else {
        assert q' + bs[1..] == all[1..];
        NewestOfTail(all, capacity);
      }
    }
  }

  /** Dropping the oldest byte of more than `capacity` bytes keeps the newest `capacity`. */
  lemma NewestOfTail(all: seq<CChar>, capacity: nat)
    requires capacity < |all|
    ensures var t := all[1..]; t[|t| - Min(capacity, |t|)..] == all[|all| - Min(capacity, |all|)..]
  {
    assert Min(capacity, |all| - 1) == capacity == Min(capacity, |all|);
  }

  /** A buffer of n NUL bytes. */
  function Zeros(n: nat): (r: seq<CChar>)
    ensures |r| == n && forall i :: 0 <= i < n ==> r[i] == NUL
  {
    seq(n, _ => NUL)
  }

  /** The position of the first c among the first `limit` bytes of q, if any. */
  function Find(q: seq<CChar>, c: CChar, limit: nat): (r: Option<nat>)
    ensures r.Some? ==> r.value < limit && r.value < |q| && q[r.value] == c && c !in q[..r.value]
    ensures r.None? ==> c !in q[..Min(limit, |q|)]
  {
    if limit == 0 || q == [] then None
    else if q[0] == c then Some(0)
    else
      match Find(q[1..], c, limit - 1)
      case None => (assert q[..Min(limit, |q|)] == [q[0]] + q[1..][..Min(limit - 1, |q| - 1)]; None)
      case Some(k) => (assert q[..k + 1] == [q[0]] + q[1..][..k]; Some(k + 1))
  }

  /** And conversely: with no c among the first `limit` bytes, the search finds nothing. */
  lemma {:induction false} FindAbsent(q: seq<CChar>, c: CChar, limit: nat)
    requires c !in q[..Min(limit, |q|)]
    ensures Find(q, c, limit) == None
    decreases limit
  {
    if limit > 0 && q != [] {
      assert q[0] == q[..Min(limit, |q|)][0];
      assert q[1..][..Min(limit - 1, |q| - 1)] == q[..Min(limit, |q|)][1..];
      FindAbsent(q[1..], c, limit - 1);
    }
  }

  /** A c at position k with none before it, k within the limit: the search finds k. */
  lemma {:induction false} FindAt(q: seq<CChar>, c: CChar, limit: nat, k: nat)
    requires k < limit && k < |q| && q[k] == c && c !in q[..k]
    ensures Find(q, c, limit) == Some(k)
    decreases k
  {
    if k > 0 {
      assert q[0] == q[..k][0];
      assert q[1..][..k - 1] == q[..k][1..];
      FindAt(q[1..], c, limit - 1, k - 1);
    }
  }

  /** What framing one sentence does: the return code, the FIFO left behind and the 256-byte buffer. */
  datatype Framing = Framing(rc: int, rest: seq<CChar>, sentence: seq<CChar>)

  /**
   * `L76LM33_ReadSentence` once the new-line flag is set, on FIFO contents q:
   * pop up to 100 bytes looking for '$', then copy the line after it.
   */
  function Frame(q: seq<CChar>): (r: Framing)
    ensures r.rc == 0 || r.rc == -1 || r.rc == -2
    ensures |r.sentence| == BufferSize
    ensures |r.rest| <= |q| && r.rest == q[|q| - |r.rest|..]
  {
    match Find(q, '$', StartSearchLimit)
    case None =>
      if |q| < StartSearchLimit then Framing(-2, [], Zeros(BufferSize))
      else Framing(-1, q[StartSearchLimit..], Zeros(BufferSize))
    case Some(k) =>
      var f := FrameLine(q[k + 1..]);
      assert q[|q| - |f.rest|..] == q[k + 1..][|q[k + 1..]| - |f.rest|..];
      f
  }

  /**
   * The second half of framing, on the FIFO r after the '$': copy bytes into
   * positions 1..255 of the cleared buffer until a '\n' has been copied.
   */
  function FrameLine(r: seq<CChar>): (f: Framing)
    ensures f.rc == 0 || f.rc == -1 || f.rc == -2
    ensures |f.sentence| == BufferSize
    ensures |f.rest| <= |r| && f.rest == r[|r| - |f.rest|..]
  {
    match Find(r, '\n', BufferSize - 1)
    case Some(j) => Framing(0, r[j + 1..], [Start] + r[..j + 1] + Zeros(BufferSize - 2 - j))
    case None =>
      if |r| < BufferSize - 1 then Framing(-2, [], [Start] + r + Zeros(BufferSize - 1 - |r|))
      else Framing(-1, r[BufferSize - 1..], [Start] + r[..BufferSize - 1])
  }

  /** The caller's `L76LM33` record as a value. */
  datatype Status = Status(status: int, fix: int, latitude: real, longitude: real)

  /** The caller's `L76LM33` record, which `Read` updates in place. */
  class L76LM33 {
    var status: int
    var fix: int
    var latitude: real
    var longitude: real

    function Value(): Status
      reads this
    {
      Status(status, fix, latitude, longitude)
    }

    constructor (status: int, fix: int, latitude: real, longitude: real)
      ensures Value() == Status(status, fix, latitude, longitude)
    {
      this.status, this.fix, this.latitude, this.longitude := status, fix, latitude, longitude;
    }
  }

  /**
   * `L76LM33_Read` after framing: the return code, the module's parsed GPS
   * record and the caller's record, given the framing and both records before.
   */
  function ReadOutcome(f: Framing, g: Gps, d: Status): (int, Gps, Status)
  {
    if f.rc == -2 then (-2, g, d)
    else if f.rc != 0 || ValidateRMC(f.sentence) != 0 then (-1, g, d.(status := 0))
    else
      var (prc, g') := ParseRMCSpec(f.sentence, g);
      if prc != 0 then (-1, g', d.(status := 0))
      else (0, g', Status(1, g'.fix, g'.latitude, g'.longitude))
  }

  /** The module's state: the FIFO, the new-line flag, the sentence buffer and the parsed GPS record. */
  class Receiver {
    var uart: seq<CChar>
    var newLine: bool
    const capacity: nat
    const overflow: Overflow
    /** The UART peripheral the driver was bound to. */
    const instance: int
    const nmea: array<CChar>
    const gps: GpsData

    predicate Valid()
      reads this
    {
      nmea.Length == BufferSize && 0 < capacity && |uart| <= capacity
    }

    /** The state after start-up: an empty FIFO, a clear flag and zeroed buffers. */
    constructor (instance: int, capacity: nat, overflow: Overflow)
      requires 0 < capacity
      ensures Valid() && this.instance == instance && this.capacity == capacity && this.overflow == overflow
      ensures uart == [] && !newLine && nmea[..] == Zeros(BufferSize)
      ensures gps.Value() == Gps(0, 0, 0.0, 0, 0.0, 0.0)
      ensures fresh(nmea) && fresh(gps)
    {
      this.instance, this.capacity, this.overflow := instance, capacity, overflow;
      uart, newLine := [], false;
      nmea := new CChar[BufferSize](_ => NUL);
      gps := new GpsData();
    }

    /** `L76LM33_RxCallback`: a byte from the bound UART joins the FIFO, and a '\n' raises the flag. */
    method RxCallback(from: int, received: CChar)
      requires Valid()
      modifies this
      ensures Valid()
      ensures from == instance ==>
        uart == Enqueue(old(uart), received, capacity, overflow) && newLine == (old(newLine) || received == '\n')
      ensures from != instance ==> uart == old(uart) && newLine == old(newLine)
    {
      if from == instance {
        uart := Enqueue(uart, received, capacity, overflow);
        if received == '\n' {
          newLine := true;
        }
      }
    }

    /** `ring_buffer_dequeue`: the oldest byte, when there is one. */
    method Dequeue() returns (got: bool, c: CChar)
      requires Valid()
      modifies this
      ensures Valid() && newLine == old(newLine)
      ensures got == (old(uart) != [])
      ensures got ==> c == old(uart)[0] && uart == old(uart)[1..]
      ensures !got ==> uart == old(uart)
    {
      if uart == [] {
        return false, NUL;
      }
      got, c := true, uart[0];
      uart := uart[1..];
    }

    /** `L76LM33_ReadSentence`: -2 without touching anything when no line was signalled, otherwise `Frame`. */
    method ReadSentence() returns (rc: int)
      requires Valid()
      modifies this, nmea
      ensures Valid()
      ensures !old(newLine) ==> rc == -2 && uart == old(uart) && !newLine && nmea[..] == old(nmea[..])
      ensures old(newLine) ==> !newLine && Frame(old(uart)) == Framing(rc, uart, nmea[..])
    {
      if !newLine {
        return -2;
      }
      newLine := false;
      ClearSentence();
      rc := SeekStart();
      if rc != 0 {
        return rc;
      }
      rc := CopyLine();
    }

    /** The first step of `L76LM33_ReadSentence`: every byte of the sentence buffer becomes NUL. */
    method ClearSentence()
      requires Valid()
      modifies nmea
      ensures nmea[..] == Zeros(BufferSize)
    {
      for i := 0 to BufferSize
        invariant forall j :: 0 <= j < i ==> nmea[j] == NUL
      {
        nmea[i] := NUL;
      }
    }

    /**
     * The search for the start of a sentence: pop up to 100 bytes until a '$'.
     * 0 when one is found, and then the FIFO holds what followed it and the
     * buffer starts with it; otherwise the result and the state of framing.
     */
    method SeekStart() returns (rc: int)
      requires Valid() && !newLine && nmea[..] == Zeros(BufferSize)
      modifies this, nmea
      ensures Valid() && !newLine
      ensures rc == 0 <==> Find(old(uart), '$', StartSearchLimit).Some?
      ensures rc == 0 ==>
        uart == old(uart)[Find(old(uart), '$', StartSearchLimit).value + 1..] &&
        Frame(old(uart)) == FrameLine(uart) && nmea[..] == [Start] + Zeros(BufferSize - 1)
      ensures rc != 0 ==> Frame(old(uart)) == Framing(rc, uart, nmea[..])
    {
      ghost var q := uart;
      var found, k := PopUntilStart();
      if found {
        nmea[0] := '$';
        StartFound(q, k);
        ZerosWithHead(BufferSize, '$');
        return 0;
      }
      StartMissing(q, k);
      rc := if k < StartSearchLimit then -2 else -1;
    }

    /**
     * The search loop itself: pops bytes until a '$' has been popped, the FIFO
     * runs dry, or 100 bytes were popped; k counts the bytes before the '$'.
     */
    method PopUntilStart() returns (found: bool, k: nat)
      requires Valid()
      modifies this
      ensures Valid() && newLine == old(newLine)
      ensures k <= |old(uart)| && k <= StartSearchLimit && '$' !in old(uart)[..k]
      ensures found ==> k < |old(uart)| && k < StartSearchLimit && old(uart)[k] == '$' && uart == old(uart)[k + 1..]
      ensures !found ==> (k == |old(uart)| || k == StartSearchLimit) && uart == old(uart)[k..]
    {
      ghost var q := uart;
      k := 0;
      while k < StartSearchLimit
        invariant Valid() && newLine == old(newLine)
        invariant k <= StartSearchLimit && k <= |q| && uart == q[k..] && '$' !in q[..k]
      {
        var got, c := Dequeue();
        if !got {
          return false, k;
        }
        assert c == q[k] && uart == q[k + 1..];
        if c == '$' {
          return true, k;
        }
        assert q[..k + 1] == q[..k] + [c];
        k := k + 1;
      }
      found := false;
    }

    /**
     * The copy of `L76LM33_ReadSentence`: bytes after the '$' go to positions
     * 1..255 of the buffer until a '\n' has been copied.
     */
    method CopyLine() returns (rc: int)
      requires Valid() && !newLine && nmea[..] == [Start] + Zeros(BufferSize - 1)
      modifies this, nmea
      ensures Valid() && !newLine
      ensures FrameLine(old(uart)) == Framing(rc, uart, nmea[..])
    {
      ghost var r := uart;
      var c: CChar;
      var got: bool;
      var i := 1;
      while i < BufferSize
        invariant 1 <= i <= BufferSize && i - 1 <= |r| && uart == r[i - 1..] && !newLine
        invariant '\n' !in r[..i - 1]
        invariant nmea[..] == [Start] + r[..i - 1] + Zeros(BufferSize - i)
      {
        got, c := Dequeue();
        if !got {
          assert r[..i - 1] == r;
          CopyCut(r);
          return -2;
        }
        nmea[i] := c;
        assert r[..i] == r[..i - 1] + [c];
        assert nmea[..] == [Start] + r[..i] + Zeros(BufferSize - 1 - i);
        if c == '\n' {
          CopyEnd(r, i - 1);
          return 0;
        }
        i := i + 1;
      }
      CopyTooLong(r);
      return -1;
    }

    /**
     * `L76LM33_Read`: frame a sentence, check its identifier, parse it into
     * the module's GPS record and, on success, copy fix and position into
     * the caller's record.
     */
    method Read(data: L76LM33) returns (rc: int)
      requires Valid()
      modifies this, nmea, gps, data
      ensures Valid()
      ensures !old(newLine) ==>
        rc == -2 && uart == old(uart) && !newLine && nmea[..] == old(nmea[..]) &&
        gps.Value() == old(gps.Value()) && data.Value() == old(data.Value())
      ensures old(newLine) ==>
        !newLine && uart == Frame(old(uart)).rest && nmea[..] == Frame(old(uart)).sentence &&
        (rc, gps.Value(), data.Value()) == ReadOutcome(Frame(old(uart)), old(gps.Value()), old(data.Value()))
    {
      var valid := ReadSentence();
      if valid == -2 {
        return -2;
      } else if valid != 0 {
        data.status := 0;
        return -1;
      }
      if ValidateRMC(nmea[..]) != 0 {
        data.status := 0;
        return -1;
      }
      var parsed := ParseRMC(nmea, gps);
      if parsed != 0 {
        data.status := 0;
        return -1;
      }
      data.fix := gps.fix;
      data.longitude := gps.longitude;
      data.latitude := gps.latitude;
      data.status := 1;
      return 0;
    }
  }

  lemma StartMissing(q: seq<CChar>, k: nat)
    requires k <= |q| && '$' !in q[..k] && (k == |q| || k == StartSearchLimit) && k <= StartSearchLimit
    ensures Find(q, '$', StartSearchLimit) == None
    ensures Frame(q) == if k < StartSearchLimit then Framing(-2, [], Zeros(BufferSize)) else Framing(-1, q[k..], Zeros(BufferSize))
  {
    assert q[..Min(StartSearchLimit, |q|)] == q[..k];
    FindAbsent(q, '$', StartSearchLimit);
  }

  /** A buffer of NULs whose first byte is overwritten. */
  lemma ZerosWithHead(n: nat, c: CChar)
    requires n > 0
    ensures Zeros(n)[0 := c] == [c] + Zeros(n - 1)
  {
  }

  lemma StartFound(q: seq<CChar>, k: nat)
    requires k < |q| && k < StartSearchLimit && q[k] == '$' && '$' !in q[..k]
    ensures Find(q, '$', StartSearchLimit) == Some(k) && Frame(q) == FrameLine(q[k + 1..])
  {
    FindAt(q, '$', StartSearchLimit, k);
  }

  lemma CopyCut(r: seq<CChar>)
    requires |r| < BufferSize - 1 && '\n' !in r
    ensures FrameLine(r) == Framing(-2, [], [Start] + r + Zeros(BufferSize - 1 - |r|))
  {
    assert r[..Min(BufferSize - 1, |r|)] == r;
    FindAbsent(r, '\n', BufferSize - 1);
  }

  lemma CopyEnd(r: seq<CChar>, j: nat)
    requires j < |r| && j < BufferSize - 1 && r[j] == '\n' && '\n' !in r[..j]
    ensures FrameLine(r) == Framing(0, r[j + 1..], [Start] + r[..j + 1] + Zeros(BufferSize - 2 - j))
  {
    FindAt(r, '\n', BufferSize - 1, j);
  }

  lemma CopyTooLong(r: seq<CChar>)
    requires BufferSize - 1 <= |r| && '\n' !in r[..BufferSize - 1]
    ensures FrameLine(r) == Framing(-1, r[BufferSize - 1..], [Start] + r[..BufferSize - 1])
  {
    FindAbsent(r, '\n', BufferSize - 1);
  }
}
