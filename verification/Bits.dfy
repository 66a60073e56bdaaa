/** Bitwise operations on unbounded two's complement integers. */
module Bits {

  function Pow2(n: nat): (p: nat)
    ensures p >= 1
  {
    if n == 0 then 1 else 2 * Pow2(n - 1)
  }

  function Magnitude(a: int): nat {
    if a < 0 then -a else a
  }

  function And(a: int, b: int): int
    decreases Magnitude(a) + Magnitude(b)
  {
    if a == 0 || b == 0 then 0
    else if a == -1 then b
    else if b == -1 then a
    else 2 * And(a / 2, b / 2) + if a % 2 == 1 && b % 2 == 1 then 1 else 0
  }

  function Or(a: int, b: int): int
    decreases Magnitude(a) + Magnitude(b)
  {
    if a == 0 then b
    else if b == 0 then a
    else if a == -1 || b == -1 then -1
    else 2 * Or(a / 2, b / 2) + if a % 2 == 1 || b % 2 == 1 then 1 else 0
  }

  function Shl(a: int, n: nat): int {
    a * Pow2(n)
  }

  /** The shift rounds toward negative infinity, as Dafny's division by a positive number does. */
  function Shr(a: int, n: nat): int {
    a / Pow2(n)
  }

  /** One bit at a time: masking with an odd mask keeps the last bit. */
  lemma AndOddMask(a: int, p: nat)
    requires p >= 1
    ensures And(a, 2 * p - 1) == 2 * And(a / 2, p - 1) + a % 2
  {
    assert (2 * p - 1) / 2 == p - 1 && (2 * p - 1) % 2 == 1;
  }

  /** Masking with n ones is the remainder modulo 2^n, for negative numbers too. */
  lemma {:induction false} MaskIsRemainder(a: int, n: nat)
    ensures And(a, Pow2(n) - 1) == a % Pow2(n)
    decreases n
  {
    if n == 0 {
      assert a % 1 == 0;
    } else {
      var p := Pow2(n - 1);
      MaskIsRemainder(a / 2, n - 1);
      AndOddMask(a, p);
      HalfRemainder(a, p);
    }
  }

  lemma HalfRemainder(a: int, p: nat)
    requires p >= 1
    ensures a % (2 * p) == 2 * ((a / 2) % p) + a % 2
  {
    var q, r := (a / 2) / p, (a / 2) % p;
    assert a == (2 * p) * q + (2 * r + a % 2) by {
      assert a / 2 == p * q + r;
      assert (2 * p) * q == 2 * (p * q);
    }
    RemainderUnique(a, 2 * p, q, 2 * r + a % 2);
  }

  lemma RemainderUnique(a: int, d: nat, q: int, r: nat)
    requires d >= 1 && a == d * q + r && r < d
    ensures a % d == r && a / d == q
  {
    QuotientAtMost(d, q, r, a / d, a % d);
    QuotientAtMost(d, a / d, a % d, q, r);
  }

  lemma QuotientAtMost(d: nat, q: int, r: nat, q': int, r': nat)
    requires r < d && r' < d && d * q + r == d * q' + r'
    ensures q <= q'
  {
    assert d * (q - q') == d * q - d * q';
    if q > q' {
      AtLeastOnce(d, q - q');
    }
  }

  lemma AtLeastOnce(d: nat, k: int)
    requires k >= 1
    ensures d * k >= d
  {
    assert d * k == d + d * (k - 1);
  }

  lemma OrEven(x: int, low: nat)
    ensures Or(2 * x, low) == 2 * Or(x, low / 2) + low % 2
  {
    assert (2 * x) / 2 == x && (2 * x) % 2 == 0;
  }

  /** Putting a number below 2^n under one shifted by n is adding them. */
  lemma {:induction false} OrOfDisjoint(high: int, low: nat, n: nat)
    requires low < Pow2(n)
    ensures Or(high * Pow2(n), low) == high * Pow2(n) + low
    decreases n
  {
    if n != 0 {
      OrOfDisjoint(high, low / 2, n - 1);
      assert high * Pow2(n) == 2 * (high * Pow2(n - 1));
      OrEven(high * Pow2(n - 1), low);
    }
  }
}
