/** The few string operations that several components share. */
module Strings {

  function ToLowerCase(s: string): string {
    if s == "" then ""
    else [if 'A' <= s[0] <= 'Z' then s[0] + 32 as char else s[0]] + ToLowerCase(s[1..])
  }

  predicate StartsWith(s: string, prefix: string) {
    prefix <= s
  }

  lemma {:induction false} LowerCaseUnchanged(s: string)
    requires forall i | 0 <= i < |s| :: !('A' <= s[i] <= 'Z')
    ensures ToLowerCase(s) == s
  {
    if s != "" {
      LowerCaseUnchanged(s[1..]);
      assert s == [s[0]] + s[1..];
    }
  }

  /** The two characters are the same, or the same ASCII letter in different case. */
  predicate SameLetter(a: char, b: char) {
    || a == b
    || ('A' <= a <= 'Z' && b as int == a as int + 32)
    || ('A' <= b <= 'Z' && a as int == b as int + 32)
  }

  predicate SameLetters(a: string, b: string) {
    |a| == |b| && forall i | 0 <= i < |a| :: SameLetter(a[i], b[i])
  }

  /** Comparing in lower case is comparing letter by letter, whatever their case. */
  lemma {:induction false} LowerCaseDecides(a: string, b: string)
    ensures ToLowerCase(a) == ToLowerCase(b) <==> SameLetters(a, b)
  {
    if a != "" && b != "" {
      LowerCaseDecides(a[1..], b[1..]);
      var s, t := ToLowerCase(a), ToLowerCase(b);
      assert s[1..] == ToLowerCase(a[1..]) && t[1..] == ToLowerCase(b[1..]);
      assert s == [s[0]] + s[1..] && t == [t[0]] + t[1..];
      assert SameLetters(a, b) <==> SameLetter(a[0], b[0]) && SameLetters(a[1..], b[1..]) by {
        assert forall i | 1 <= i < |a| :: a[i] == a[1..][i - 1];
        assert forall i | 1 <= i < |b| :: b[i] == b[1..][i - 1];
      }
    }
  }
}
