/** Decimal numerals as sequences of digits, most significant digit first. */
module Decimals {

  newtype Digit = d: int | 0 <= d < 10

  function Pow10(n: nat): (p: nat)
    ensures p >= 1
  {
    if n == 0 then 1 else 10 * Pow10(n - 1)
  }

  /** The number a digit sequence denotes; leading zeros are allowed. */
  function Value(ds: seq<Digit>): nat {
    if ds == [] then 0 else 10 * Value(ds[..|ds| - 1]) + ds[|ds| - 1] as nat
  }

  /** The shortest numeral of n: no leading zero unless n is zero. */
  function Digits(n: nat): (ds: seq<Digit>)
    ensures ds != [] && Value(ds) == n
    ensures Canonical(ds)
  {
    if n < 10 then [n as Digit] else Digits(n / 10) + [(n % 10) as Digit]
  }

  predicate Canonical(ds: seq<Digit>) {
    ds != [] && (|ds| > 1 ==> ds[0] != 0)
  }

  /** Digits and Value are inverse on canonical numerals. */
  lemma {:induction false} DigitsOfValue(ds: seq<Digit>)
    requires Canonical(ds)
    ensures Digits(Value(ds)) == ds
  {
    if |ds| > 1 {
      var init := ds[..|ds| - 1];
      DigitsOfValue(init);
      PositiveLead(init);
      assert Value(ds) / 10 == Value(init) && Value(ds) % 10 == ds[|ds| - 1] as int;
      assert ds == init + [ds[|ds| - 1]];
    } else {
      assert ds[..0] == [];
    }
  }

  lemma {:induction false} PositiveLead(ds: seq<Digit>)
    requires ds != [] && ds[0] != 0
    ensures Value(ds) > 0
  {
    if |ds| > 1 {
      PositiveLead(ds[..|ds| - 1]);
    }
  }

  lemma DigitsInjective(a: nat, b: nat)
    requires Digits(a) == Digits(b)
    ensures a == b
  {
    assert Value(Digits(a)) == Value(Digits(b));
  }

  lemma {:induction false} ValueOfConcat(a: seq<Digit>, b: seq<Digit>)
    ensures Value(a + b) == Value(a) * Pow10(|b|) + Value(b)
  {
    if b == [] {
      assert a + b == a;
    } else {
      var init := b[..|b| - 1];
      ValueOfConcat(a, init);
      assert (a + b)[..|a + b| - 1] == a + init;
      assert Value(a) * Pow10(|b|) == 10 * (Value(a) * Pow10(|init|));
    }
  }

  lemma {:induction false} ValueBound(ds: seq<Digit>)
    ensures Value(ds) < Pow10(|ds|)
  {
    if ds != [] {
      ValueBound(ds[..|ds| - 1]);
    }
  }

  function Zeros(n: nat): (z: seq<Digit>)
    ensures |z| == n && Value(z) == 0
    ensures forall i | 0 <= i < n :: z[i] == 0
  {
    if n == 0 then [] else Zeros(n - 1) + [0]
  }

  lemma {:induction false} Pow10Split(a: nat, b: nat)
    ensures Pow10(a + b) == Pow10(a) * Pow10(b)
  {
    if a != 0 {
      Pow10Split(a - 1, b);
    }
  }

  /** Equal-length digit sequences with the same value are equal. */
  lemma {:induction false} ValueInjective(a: seq<Digit>, b: seq<Digit>)
    requires |a| == |b| && Value(a) == Value(b)
    ensures a == b
  {
    if a != [] {
      var n := |a| - 1;
      assert a[n] as int == Value(a) % 10 && b[n] as int == Value(b) % 10;
      ValueInjective(a[..n], b[..n]);
      assert a == a[..n] + [a[n]] && b == b[..n] + [b[n]];
    }
  }
}
