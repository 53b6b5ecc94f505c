/**
 * C's bitwise `|` and `&` on non-negative integers, defined bit by bit, with
 * the facts the drivers rely on: an OR of bit fields that do not overlap is
 * their sum, an AND with a low mask is a remainder, and OR-ing in one bit
 * sets that bit.
 */
module CBits {
  import opened CInts

  /** a | b */
  function BitOr(a: nat, b: nat): nat
    decreases a + b
  {
    if a == 0 then b
    else if b == 0 then a
    else 2 * BitOr(a / 2, b / 2) + (if a % 2 == 1 || b % 2 == 1 then 1 else 0)
  }

  /** a & b */
  function BitAnd(a: nat, b: nat): nat
    decreases a + b
  {
    if a == 0 || b == 0 then 0
    else 2 * BitAnd(a / 2, b / 2) + (if a % 2 == 1 && b % 2 == 1 then 1 else 0)
  }

  lemma Pow2Halves(k: nat)
    requires k > 0
    ensures Pow2(k) == 2 * Pow2(k - 1) && Pow2(k) % 2 == 0
  {
    var h := Pow2(k - 1);
    assert Pow2(k) == 2 * h;
    assert (2 * h) % 2 == 0;
  }

  /** Shifting a left by k and OR-ing in a value below 2^k adds them. */
  lemma {:induction false} OrDisjoint(a: nat, b: nat, k: nat)
    requires b < Pow2(k)
    ensures BitOr(a * Pow2(k), b) == a * Pow2(k) + b
    decreases k
  {
    if a == 0 || b == 0 || k == 0 {
      if k == 0 {
        assert b == 0;
      }
    } else {
      Pow2Halves(k);
      var h := Pow2(k - 1);
      assert a * Pow2(k) == 2 * (a * h);
      assert (a * Pow2(k)) / 2 == a * h && (a * Pow2(k)) % 2 == 0;
      OrDisjoint(a, b / 2, k - 1);
      assert BitOr(a * Pow2(k), b) == 2 * BitOr(a * h, b / 2) + b % 2;
    }
  }

  /** x & (2^k - 1) keeps the low k bits. */
  lemma {:induction false} AndLowMask(x: nat, k: nat)
    ensures BitAnd(x, Pow2(k) - 1) == x % Pow2(k)
    decreases k
  {
    if k == 0 {
      assert Pow2(k) - 1 == 0;
    } else if x > 0 {
      Pow2Halves(k);
      var h := Pow2(k - 1);
      var m := Pow2(k) - 1;
      assert m == 2 * h - 1 && m > 0;
      assert m / 2 == h - 1 && m % 2 == 1;
      AndLowMask(x / 2, k - 1);
      assert BitAnd(x, m) == 2 * BitAnd(x / 2, h - 1) + x % 2;
      DivMod2(x, h);
      assert BitAnd(x, m) == x % (2 * h);
    } else {
      assert BitAnd(x, Pow2(k) - 1) == 0;
      QuotientRemainder(x, Pow2(k));
    }
  }

  lemma DivMod2(x: nat, h: nat)
    requires h > 0
    ensures x % (2 * h) == 2 * ((x / 2) % h) + x % 2
  {
    var q, r := (x / 2) / h, (x / 2) % h;
    assert x / 2 == h * q + r;
    assert x == 2 * (x / 2) + x % 2;
    assert x == (2 * h) * q + (2 * r + x % 2);
    DivUnique(x, 2 * h, q, 2 * r + x % 2);
  }

  /** Quotient and remainder are the only such pair. */
  lemma DivUnique(x: int, d: int, q: int, r: int)
    requires d > 0 && x == d * q + r && 0 <= r < d
    ensures x / d == q && x % d == r
  {
    var q0, r0 := x / d, x % d;
    assert d * (q - q0) == r0 - r;
    if q > q0 {
      MulAtLeast(d, q - q0);
    }
    if q < q0 {
      MulAtLeast(d, q0 - q);
    }
  }

  lemma {:induction false} MulAtLeast(d: nat, t: nat)
    requires t >= 1
    ensures d * t >= d
    decreases t
  {
    if t > 1 {
      MulAtLeast(d, t - 1);
      assert d * t == d * (t - 1) + d;
    }
  }

  /** x | 2^k sets bit k of x and leaves the others. */
  lemma {:induction false} OrBit(x: nat, k: nat)
    ensures BitOr(x, Pow2(k)) == x + (if (x / Pow2(k)) % 2 == 0 then Pow2(k) else 0)
    decreases k
  {
    var p := Pow2(k);
    if x == 0 {
      DivUnique(0, p, 0, 0);
    } else if k == 0 {
      assert p == 1 && x / p == x;
      assert BitOr(x, 1) == 2 * BitOr(x / 2, 0) + 1;
      assert 2 * (x / 2) + 1 == x + (if x % 2 == 0 then 1 else 0);
    } else {
      Pow2Halves(k);
      var h := Pow2(k - 1);
      OrBit(x / 2, k - 1);
      var q := (x / 2) / h;
      assert q == x / p by {
        DivDiv(x, 2, h);
      }
      assert BitOr(x, p) == 2 * BitOr(x / 2, h) + x % 2;
      assert BitOr(x / 2, h) == x / 2 + (if q % 2 == 0 then h else 0);
      assert 2 * (x / 2) + x % 2 == x;
    }
  }

  lemma DivDiv(x: nat, a: nat, b: nat)
    requires a > 0 && b > 0
    ensures (x / a) / b == x / (a * b)
  {
    var q, r := (x / a) / b, (x / a) % b;
    assert x / a == b * q + r;
    assert x == a * (x / a) + x % a;
    assert x == (a * b) * q + (a * r + x % a);
    assert a * r + x % a < a * b by {
      assert a * r <= a * (b - 1);
    }
    DivUnique(x, a * b, q, a * r + x % a);
  }
}
