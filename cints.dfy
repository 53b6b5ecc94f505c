/**
 * The C integer operations the drivers rely on, stated over Dafny's unbounded
 * integers: two's-complement reduction to a fixed width, the arithmetic right
 * shift of the target, left shifts, and C99 division, which truncates toward zero.
 */
module CInts {

  const Two16: int := 0x1_0000
  const Two32: int := 0x1_0000_0000
  const Two64: int := 0x1_0000_0000_0000_0000

  predicate InInt32(x: int) { -0x8000_0000 <= x < 0x8000_0000 }

  predicate InInt64(x: int) { -0x8000_0000_0000_0000 <= x < 0x8000_0000_0000_0000 }

  function Pow2(k: nat): (r: nat)
    ensures r >= 1
  {
    if k == 0 then 1 else 2 * Pow2(k - 1)
  }

  /** The value an int32_t holds after an operation whose exact result is x: x reduced modulo 2^32 into the signed range. */
  function Wrap32(x: int): (r: int)
    ensures InInt32(r)
    ensures (x - r) % Two32 == 0
    ensures InInt32(x) ==> r == x
  {
    (x + 0x8000_0000) % Two32 - 0x8000_0000
  }

  /** The same for int64_t. */
  function Wrap64(x: int): (r: int)
    ensures InInt64(r)
    ensures (x - r) % Two64 == 0
    ensures InInt64(x) ==> r == x
  {
    (x + 0x8000_0000_0000_0000) % Two64 - 0x8000_0000_0000_0000
  }

  /** The cast (uint32_t)x. */
  function ToUint32(x: int): (r: int)
    ensures 0 <= r < Two32
    ensures (x - r) % Two32 == 0
    ensures 0 <= x < Two32 ==> r == x
  {
    x % Two32
  }

  /** The cast (uint8_t)x. */
  function ToUint8(x: int): (r: int)
    ensures 0 <= r < 256
    ensures (x - r) % 256 == 0
    ensures 0 <= x < 256 ==> r == x
  {
    x % 256
  }

  /** Assigning an unsigned 16-bit word to an int16_t: the two's-complement reading of its bits. */
  function ToInt16(w: int): (v: int)
    requires 0 <= w < Two16
    ensures -0x8000 <= v < 0x8000
    ensures (w - v) % Two16 == 0
  {
    if w < 0x8000 then w else w - Two16
  }

  /** x >> k on a signed value: the target shifts arithmetically, which rounds toward minus infinity. */
  function Sar(x: int, k: nat): (r: int)
    ensures r * Pow2(k) <= x < r * Pow2(k) + Pow2(k)
  {
    x / Pow2(k)
  }

  /** x << k: multiplication by 2^k, before any reduction to the width of the type. */
  function Shl(x: int, k: nat): int
  {
    x * Pow2(k)
  }

  function Abs(x: int): nat { if x < 0 then -x else x }

  /** C99 a / b: the quotient rounded toward zero, so the remainder takes the sign of a. */
  function TruncDiv(a: int, b: int): (q: int)
    requires b != 0
    ensures Abs(a - q * b) < Abs(b)
    ensures a - q * b == 0 || (a - q * b > 0 <==> a > 0)
  {
    var n, d := Abs(a), Abs(b);
    var m := n / d;
    var q := if (a >= 0) == (b > 0) then m else -m;
    QuotientRemainder(n, d);
    SignedProduct(m, d);
    assert q * b == (if a >= 0 then m * d else -(m * d)) by {
      if a >= 0 && b > 0 {
        assert b == d && q == m;
      } else if a < 0 && b < 0 {
        assert b + d == 0 && q == m;
      } else if a >= 0 {
        assert b + d == 0 && q == -m;
      } else {
        assert b == d && q == -m;
      }
    }
    var r := n % d;
    assert n == m * d + r && 0 <= r < d;
    assert a - q * b == (if a >= 0 then r else -r);
    q
  }

  lemma SignedProduct(m: int, d: int)
    ensures (-m) * d == -(m * d) && m * (-d) == -(m * d) && (-m) * (-d) == m * d
  {
  }

  lemma QuotientRemainder(n: nat, d: nat)
    requires d > 0
    ensures n == (n / d) * d + n % d && 0 <= n % d < d
    ensures n == 0 ==> n % d == 0
  {
  }
}
