/** Decimal numerals as text. */
module DecimalText {
  import opened Decimals

  predicate IsDigit(c: char) {
    '0' <= c <= '9'
  }

  predicate AllDigits(s: string) {
    forall i | 0 <= i < |s| :: IsDigit(s[i])
  }

  function DigitsOf(s: string): (ds: seq<Digit>)
    requires AllDigits(s)
    ensures |ds| == |s| && forall i | 0 <= i < |s| :: ds[i] == (s[i] - '0') as Digit
  {
    seq(|s|, i requires 0 <= i < |s| => (s[i] - '0') as Digit)
  }

  function Text(ds: seq<Digit>): (s: string)
    ensures AllDigits(s) && DigitsOf(s) == ds
    ensures '.' !in s && '-' !in s
  {
    seq(|ds|, i requires 0 <= i < |ds| => '0' + ds[i] as char)
  }

  lemma TextOfDigits(s: string)
    requires AllDigits(s)
    ensures Text(DigitsOf(s)) == s
  {
    var t := Text(DigitsOf(s));
    assert forall i | 0 <= i < |s| :: t[i] == '0' + DigitsOf(s)[i] as char == s[i];
  }

  /** An integer's shortest decimal text. */
  function IntText(n: int): string {
    if n < 0 then "-" + Text(Digits(-n)) else Text(Digits(n))
  }

  lemma NatTextInjective(a: nat, b: nat)
    requires Text(Digits(a)) == Text(Digits(b))
    ensures a == b
  {
    assert DigitsOf(Text(Digits(a))) == Digits(a);
    assert DigitsOf(Text(Digits(b))) == Digits(b);
    DigitsInjective(a, b);
  }

  lemma IntTextInjective(a: int, b: int)
    requires IntText(a) == IntText(b)
    ensures a == b
  {
    var s, t := Text(Digits(if a < 0 then -a else a)), Text(Digits(if b < 0 then -b else b));
    assert s[0] in s && t[0] in t;
    assert (IntText(a)[0] == '-' <==> a < 0) && (IntText(b)[0] == '-' <==> b < 0);
    if a < 0 && b < 0 {
      assert IntText(a)[1..] == s && IntText(b)[1..] == t;
      NatTextInjective(-a, -b);
    } else if a >= 0 && b >= 0 {
      NatTextInjective(a, b);
    }
  }
}
