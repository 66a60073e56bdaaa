/** Decimal amount strings and integers counting stroops, ten million to the unit. */
module Amount {
  import opened DecimalText
  import opened Decimals
  import opened Results
  import opened Strings

  const STROOPS: int := 10_000_000
  const PLACES: nat := 7

  datatype Malformed = InvalidAmount

  // ---------------------------------------------------------------- text

  /** The pieces of s between its dots. */
  function SplitAtDots(s: string): (parts: seq<string>)
    ensures parts != []
  {
    if s == "" then [""]
    else
      var rest := SplitAtDots(s[1..]);
      if s[0] == '.' then [""] + rest else [[s[0]] + rest[0]] + rest[1..]
  }

  function PadStart(s: string, width: nat): string
    decreases width - |s|
  {
    if |s| >= width then s else PadStart("0" + s, width)
  }

  // ---------------------------------------------------------------- the conversions

  function Unsigned(s: string): string {
    if StartsWith(s, "-") then s[1..] else s
  }

  function Signed(s: string, magnitude: int): int {
    if StartsWith(s, "-") then -magnitude else magnitude
  }

  /** The fraction digits padded with zeros to seven, or cut to seven. */
  function Padded(frac: string): string {
    (frac + "0000000")[..PLACES]
  }

  lemma PaddedDigits(frac: string)
    requires AllDigits(frac)
    ensures AllDigits(Padded(frac))
    ensures |frac| == PLACES ==> Padded(frac) == frac
  {
  }

  function Combine(whole: string, frac: string): nat
    requires AllDigits(whole) && AllDigits(frac)
  {
    PaddedDigits(frac);
    Value(DigitsOf(whole)) * STROOPS + Value(DigitsOf(Padded(frac)))
  }

  function ToBigInt(s: string): Result<int, Malformed> {
    var abs := Unsigned(s);
    if abs == "" then Err(InvalidAmount)
    else
      var parts := SplitAtDots(abs);
      if |parts| > 2 then Err(InvalidAmount)
      else
        var whole := if parts[0] == "" then "0" else parts[0];
        var frac := if |parts| == 2 then parts[1] else "";
        if !AllDigits(whole) || !AllDigits(frac) then Err(InvalidAmount)
        else
          var combined := Combine(whole, frac);
          Ok(Signed(s, combined))
  }

  function FromBigInt(amount: int): string {
    if amount < 0 then "-" + Magnitude(-amount) else Magnitude(amount)
  }

  function Magnitude(abs: nat): string {
    Text(Digits(abs / STROOPS)) + "." + PadStart(Text(Digits(abs % STROOPS)), PLACES)
  }

  // ---------------------------------------------------------------- splitting

  lemma {:induction false} SplitWithoutDot(s: string)
    requires '.' !in s
    ensures SplitAtDots(s) == [s]
  {
    if s != "" {
      SplitWithoutDot(s[1..]);
      assert s == [s[0]] + s[1..];
    }
  }

  lemma {:induction false} SplitAtFirstDot(a: string, b: string)
    requires '.' !in a
    ensures SplitAtDots(a + "." + b) == [a] + SplitAtDots(b)
  {
    var s := a + "." + b;
    if a == "" {
      assert s[1..] == b;
    } else {
      SplitAtFirstDot(a[1..], b);
      assert s[1..] == a[1..] + "." + b;
      assert a == [a[0]] + a[1..];
    }
  }

  /** Where the first dot is, if there is one. */
  lemma {:induction false} FirstDot(s: string) returns (a: string, b: string)
    requires '.' in s
    ensures s == a + "." + b && '.' !in a
  {
    if s[0] == '.' {
      a, b := "", s[1..];
    } else {
      a, b := FirstDot(s[1..]);
      a := [s[0]] + a;
    }
  }

  // ---------------------------------------------------------------- what is accepted

  /** Digits with at most one dot among them, and not nothing. */
  predicate WellFormed(abs: string) {
    && abs != ""
    && (forall i | 0 <= i < |abs| :: IsDigit(abs[i]) || abs[i] == '.')
    && (forall i, j | 0 <= i < j < |abs| :: !(abs[i] == '.' && abs[j] == '.'))
  }

  /** The unsigned text is digits, or digits around a single dot. */
  lemma Shape(abs: string) returns (whole: string, dot: string, frac: string)
    requires WellFormed(abs)
    ensures abs == whole + dot + frac && AllDigits(whole) && AllDigits(frac)
    ensures dot == "." || (dot == "" && frac == "")
  {
    if '.' in abs {
      whole, frac := FirstDot(abs);
      dot := ".";
      assert forall i | 0 <= i < |whole| :: abs[i] == whole[i];
      assert forall i | 0 <= i < |frac| :: abs[|whole| + 1 + i] == frac[i];
      assert abs[|whole|] == '.';
    } else {
      whole, dot, frac := abs, "", "";
    }
  }

  lemma EmptyWhole(frac: string)
    requires AllDigits(frac)
    ensures Combine("0", frac) == Combine("", frac)
  {
    assert DigitsOf("0") == [0] && DigitsOf("") == [];
    assert Value([0]) == 0;
  }

  /** What the conversion makes of a text of that shape. */
  lemma Parts(s: string, whole: string, dot: string, frac: string)
    requires Unsigned(s) == whole + dot + frac && AllDigits(whole) && AllDigits(frac)
    requires dot == "." || (dot == "" && frac == "" && whole != "")
    ensures var m := Combine(whole, frac);
            ToBigInt(s) == Ok(Signed(s, m))
  {
    assert '.' !in whole && '.' !in frac;
    if dot == "." {
      SplitAtFirstDot(whole, frac);
      SplitWithoutDot(frac);
    } else {
      assert whole + dot + frac == whole;
      SplitWithoutDot(whole);
    }
    EmptyWhole(frac);
  }

  lemma JoinWellFormed(a: string, b: string)
    requires '.' !in a && '.' !in b
    ensures WellFormed(a + "." + b) <==> AllDigits(a) && AllDigits(b)
  {
    var abs := a + "." + b;
    forall i | 0 <= i < |a| ensures abs[i] == a[i] {}
    forall i | 0 <= i < |b| ensures abs[|a| + 1 + i] == b[i] {}
    assert forall i | 0 <= i < |abs| :: abs[i] == if i < |a| then a[i] else if i == |a| then '.' else b[i - |a| - 1];
  }

  /** The conversion accepts exactly the well-formed texts. */
  lemma AcceptedExactly(s: string)
    ensures ToBigInt(s).Ok? <==> WellFormed(Unsigned(s))
  {
    var abs := Unsigned(s);
    if '.' in abs {
      var a, b := FirstDot(abs);
      SplitAtFirstDot(a, b);
      if '.' in b {
        var c, d := FirstDot(b);
        SplitAtFirstDot(c, d);
        assert abs[|a|] == '.' && abs[|a| + 1 + |c|] == '.';
      } else {
        SplitWithoutDot(b);
        JoinWellFormed(a, b);
        assert AllDigits("0");
      }
    } else {
      SplitWithoutDot(abs);
    }
  }

  /** A lone dot is accepted, and reads as nothing, with a sign or without. */
  lemma LoneDotIsZero()
    ensures ToBigInt(".") == Ok(0) && ToBigInt("-.") == Ok(0)
  {
    var none: string := "";
    assert none + "." + none == ".";
    assert "."[0] == '.' && "-."[..1] == "-" && "-."[1..] == ".";
    Parts(".", none, ".", none);
    Parts("-.", none, ".", none);
    PaddedShort("", Zeros(PLACES));
    assert Combine("", "") == 0 by {
      assert DigitsOf("") == [];
      assert DigitsOf(Padded("")) == Zeros(PLACES);
    }
  }

  // ---------------------------------------------------------------- round trips

  lemma Scale()
    ensures Pow10(PLACES) == STROOPS
  {
    assert Pow10(4) == 10_000;
    assert Pow10(7) == 1000 * Pow10(4);
  }

  lemma {:induction false} PadStartIsZeros(ds: seq<Digit>, width: nat)
    requires |ds| <= width
    ensures PadStart(Text(ds), width) == Text(Zeros(width - |ds|) + ds)
    decreases width - |ds|
  {
    if |ds| == width {
      assert Zeros(0) + ds == ds;
    } else {
      assert "0" + Text(ds) == Text([0] + ds);
      PadStartIsZeros([0] + ds, width);
      assert Zeros(width - |ds|) + ds == Zeros(width - |ds| - 1) + ([0] + ds);
    }
  }

  /** A remainder below ten million is written in at most seven digits. */
  lemma {:induction false} DigitsFit(n: nat, width: nat)
    requires n < Pow10(width) && width >= 1
    ensures |Digits(n)| <= width
  {
    if n >= 10 {
      DigitsFit(n / 10, width - 1);
    }
  }

  lemma {:induction false} LeadingZeros(zeros: nat, ds: seq<Digit>)
    ensures Value(Zeros(zeros) + ds) == Value(ds)
  {
    if ds == [] {
      assert Zeros(zeros) + ds == Zeros(zeros);
    } else {
      var n := |ds| - 1;
      LeadingZeros(zeros, ds[..n]);
      assert (Zeros(zeros) + ds)[..zeros + n] == Zeros(zeros) + ds[..n];
    }
  }

  lemma FixedWidth(n: nat, width: nat) returns (ds: seq<Digit>)
    requires n < Pow10(width) && width >= 1
    ensures |ds| == width && Value(ds) == n
    ensures PadStart(Text(Digits(n)), width) == Text(ds)
  {
    var shortest := Digits(n);
    DigitsFit(n, width);
    PadStartIsZeros(shortest, width);
    ds := Zeros(width - |shortest|) + shortest;
    LeadingZeros(width - |shortest|, shortest);
  }

  /** The fraction part written: exactly seven digits denoting the remainder. */
  lemma FractionText(n: nat) returns (ds: seq<Digit>)
    requires n < STROOPS
    ensures |ds| == PLACES && Value(ds) == n
    ensures PadStart(Text(Digits(n)), PLACES) == Text(ds)
  {
    Scale();
    ds := FixedWidth(n, PLACES);
  }

  /** The parts of a written magnitude m: a shortest whole part, and seven decimals. */
  predicate WrittenParts(whole: string, frac: string, m: nat) {
    && AllDigits(whole) && AllDigits(frac) && |frac| == PLACES && Canonical(DigitsOf(whole))
    && m == Value(DigitsOf(whole)) * STROOPS + Value(DigitsOf(frac))
  }

  lemma MagnitudeParts(abs: nat) returns (whole: string, frac: string)
    ensures Magnitude(abs) == whole + "." + frac && WrittenParts(whole, frac, abs)
  {
    whole := Text(Digits(abs / STROOPS));
    var ds := FractionText(abs % STROOPS);
    frac := Text(ds);
  }

  /** A text with seven decimals is read without padding or cutting. */
  lemma ReadsSevenPlaces(s: string, whole: string, frac: string, m: nat)
    requires Unsigned(s) == whole + "." + frac && WrittenParts(whole, frac, m)
    ensures ToBigInt(s) == Ok(Signed(s, m))
  {
    Parts(s, whole, ".", frac);
    CombineSevenPlaces(whole, frac);
  }

  lemma CombineSevenPlaces(whole: string, frac: string)
    requires AllDigits(whole) && AllDigits(frac) && |frac| == PLACES
    ensures Combine(whole, frac) == Value(DigitsOf(whole)) * STROOPS + Value(DigitsOf(frac))
  {
    PaddedDigits(frac);
  }

  lemma DigitFirst(whole: string, frac: string, m: nat)
    requires WrittenParts(whole, frac, m)
    ensures whole != "" && (whole + "." + frac)[0] == whole[0] && whole[0] != '-'
  {
  }

  lemma SignIsRead(amount: int)
    ensures var s := FromBigInt(amount);
            && Unsigned(s) == Magnitude(if amount < 0 then -amount else amount)
            && (StartsWith(s, "-") <==> amount < 0)
  {
    var abs := if amount < 0 then -amount else amount;
    var whole, frac := MagnitudeParts(abs);
    DigitFirst(whole, frac, abs);
  }

  /** Every integer survives being written and read back. */
  lemma StroopsRoundTrip(amount: int)
    ensures ToBigInt(FromBigInt(amount)) == Ok(amount)
  {
    var abs := if amount < 0 then -amount else amount;
    SignIsRead(amount);
    MagnitudeIsRead(FromBigInt(amount), abs);
  }

  lemma MagnitudeIsRead(s: string, abs: nat)
    requires Unsigned(s) == Magnitude(abs)
    ensures ToBigInt(s) == Ok(Signed(s, abs))
  {
    var whole, frac := MagnitudeParts(abs);
    ReadsSevenPlaces(s, whole, frac, abs);
  }

  /**
   The texts the other direction writes: a whole part without leading zeros, a dot, exactly
   seven decimals, and a sign only on a number that is not zero.
   */
  predicate CanonicalAmount(s: string) {
    var abs := Unsigned(s);
    && |abs| > PLACES + 1
    && abs[|abs| - PLACES - 1] == '.'
    && AllDigits(abs[..|abs| - PLACES - 1]) && AllDigits(abs[|abs| - PLACES..])
    && (|abs| > PLACES + 2 ==> abs[0] != '0')
    && (StartsWith(s, "-") ==> exists i | 0 <= i < |abs| :: '1' <= abs[i] <= '9')
  }

  lemma {:induction false} ZeroValue(s: string)
    requires AllDigits(s)
    ensures Value(DigitsOf(s)) == 0 <==> forall i | 0 <= i < |s| :: s[i] == '0'
  {
    if s != "" {
      var n := |s| - 1;
      ZeroValue(s[..n]);
      assert DigitsOf(s)[..n] == DigitsOf(s[..n]);
      assert s == s[..n] + [s[n]];
    }
  }

  /** The number w * STROOPS + f has whole part w and rest f. */
  lemma Divided(w: nat, f: nat)
    requires f < STROOPS
    ensures (w * STROOPS + f) / STROOPS == w && (w * STROOPS + f) % STROOPS == f
  {
  }

  /** A canonical pair of parts is what is written for the number they denote. */
  lemma MagnitudeOfParts(whole: string, frac: string, m: nat)
    requires WrittenParts(whole, frac, m)
    ensures Magnitude(m) == whole + "." + frac
  {
    Scale();
    ValueBound(DigitsOf(frac));
    Divided(Value(DigitsOf(whole)), Value(DigitsOf(frac)));
    DigitsOfValue(DigitsOf(whole));
    TextOfDigits(whole);
    SevenDigits(frac);
  }

  lemma SevenDigits(frac: string)
    requires AllDigits(frac) && |frac| == PLACES && Value(DigitsOf(frac)) < STROOPS
    ensures PadStart(Text(Digits(Value(DigitsOf(frac)))), PLACES) == frac
  {
    var ds := FractionText(Value(DigitsOf(frac)));
    ValueInjective(ds, DigitsOf(frac));
    TextOfDigits(frac);
  }

  /** A number is zero exactly when no digit of its two parts is nonzero. */
  lemma NonZeroDigit(whole: string, frac: string)
    requires AllDigits(whole) && AllDigits(frac)
    ensures var abs := whole + "." + frac;
            (exists i :: 0 <= i < |abs| && '1' <= abs[i] <= '9')
            <==> Value(DigitsOf(whole)) * STROOPS + Value(DigitsOf(frac)) > 0
  {
    ZeroValue(whole);
    ZeroValue(frac);
    DigitOfEither(whole, frac);
  }

  lemma DigitOfEither(whole: string, frac: string)
    requires AllDigits(whole) && AllDigits(frac)
    ensures var abs := whole + "." + frac;
            (exists i :: 0 <= i < |abs| && '1' <= abs[i] <= '9')
            <==> (exists i :: 0 <= i < |whole| && whole[i] != '0') || (exists i :: 0 <= i < |frac| && frac[i] != '0')
  {
    var abs := whole + "." + frac;
    if i :| 0 <= i < |abs| && '1' <= abs[i] <= '9' {
      assert abs[i] == if i < |whole| then whole[i] else if i == |whole| then '.' else frac[i - |whole| - 1];
    }
    if i :| 0 <= i < |whole| && whole[i] != '0' {
      assert abs[i] == whole[i];
    }
    if i :| 0 <= i < |frac| && frac[i] != '0' {
      assert abs[|whole| + 1 + i] == frac[i];
    }
  }

  lemma CanonicalParts(s: string) returns (whole: string, frac: string, m: nat)
    requires CanonicalAmount(s)
    ensures Unsigned(s) == whole + "." + frac && WrittenParts(whole, frac, m)
    ensures StartsWith(s, "-") ==> m > 0
  {
    var abs := Unsigned(s);
    whole, frac := abs[..|abs| - PLACES - 1], abs[|abs| - PLACES..];
    m := Value(DigitsOf(whole)) * STROOPS + Value(DigitsOf(frac));
    assert abs == whole + "." + frac;
    NonZeroDigit(whole, frac);
  }

  lemma SignPutBack(s: string, unsigned: string)
    requires Unsigned(s) == unsigned
    ensures s == if StartsWith(s, "-") then "-" + unsigned else unsigned
  {
  }

  lemma WrittenWithSign(s: string, m: nat)
    requires Unsigned(s) == Magnitude(m) && (StartsWith(s, "-") ==> m > 0)
    ensures FromBigInt(Signed(s, m)) == s
  {
    SignPutBack(s, Magnitude(m));
  }

  /** Writing what was read reproduces a canonical text. */
  lemma CanonicalRoundTrip(s: string)
    requires CanonicalAmount(s)
    ensures ToBigInt(s).Ok? && FromBigInt(ToBigInt(s).value) == s
  {
    var whole, frac, m := CanonicalParts(s);
    MagnitudeOfParts(whole, frac, m);
    WrittenWithSign(s, m);
    ReadsSevenPlaces(s, whole, frac, m);
  }

  lemma PartsAreCanonical(s: string, whole: string, frac: string, m: nat)
    requires Unsigned(s) == whole + "." + frac && WrittenParts(whole, frac, m) && (StartsWith(s, "-") ==> m > 0)
    ensures CanonicalAmount(s)
  {
    var abs := Unsigned(s);
    assert abs[..|abs| - PLACES - 1] == whole && abs[|abs| - PLACES..] == frac && abs[|whole|] == '.';
    assert |whole| > 1 ==> DigitsOf(whole)[0] != 0 && abs[0] == whole[0];
    NonZeroDigit(whole, frac);
  }

  /** Everything written is canonical. */
  lemma WrittenIsCanonical(amount: int)
    ensures CanonicalAmount(FromBigInt(amount))
  {
    var abs := if amount < 0 then -amount else amount;
    var whole, frac := MagnitudeParts(abs);
    SignIsRead(amount);
    PartsAreCanonical(FromBigInt(amount), whole, frac, abs);
  }

  /** Reading and writing back gives the same text exactly for the canonical texts. */
  lemma TextRoundTripExactly(s: string)
    ensures ToBigInt(s).Ok? && FromBigInt(ToBigInt(s).value) == s <==> CanonicalAmount(s)
  {
    if CanonicalAmount(s) {
      CanonicalRoundTrip(s);
    } else if ToBigInt(s).Ok? {
      WrittenIsCanonical(ToBigInt(s).value);
    }
  }

  // ---------------------------------------------------------------- truncation

  /** The digits of a text, its dots dropped. */
  function DroppingDot(abs: string): (digits: string)
    ensures (forall i | 0 <= i < |abs| :: IsDigit(abs[i]) || abs[i] == '.') ==> AllDigits(digits)
  {
    if abs == "" then "" else (if abs[0] == '.' then "" else [abs[0]]) + DroppingDot(abs[1..])
  }

  /** How many characters follow the first dot. */
  function PlacesAfterDot(abs: string): nat {
    if abs == "" then 0 else if abs[0] == '.' then |abs| - 1 else PlacesAfterDot(abs[1..])
  }

  /** The text denotes exactly Numerator(s) / Denominator(s). */
  function Numerator(s: string): int
    requires WellFormed(Unsigned(s))
  {
    Signed(s, Value(DigitsOf(DroppingDot(Unsigned(s)))))
  }

  function Denominator(s: string): (d: nat)
    ensures d >= 1
  {
    Pow10(PlacesAfterDot(Unsigned(s)))
  }

  function Abs(x: int): nat {
    if x < 0 then -x else x
  }

  lemma {:induction false} DotDropped(whole: string, dot: string, frac: string)
    requires AllDigits(whole) && AllDigits(frac) && (dot == "." || (dot == "" && frac == ""))
    ensures DroppingDot(whole + dot + frac) == whole + frac
    ensures PlacesAfterDot(whole + dot + frac) == |frac|
  {
    var abs := whole + dot + frac;
    if whole != "" {
      DotDropped(whole[1..], dot, frac);
      assert abs[1..] == whole[1..] + dot + frac;
      assert whole + frac == [whole[0]] + (whole[1..] + frac);
    } else if dot == "." {
      assert abs[1..] == frac;
      NothingToDrop(frac);
    }
  }

  lemma {:induction false} NothingToDrop(s: string)
    requires AllDigits(s)
    ensures DroppingDot(s) == s
  {
    if s != "" {
      NothingToDrop(s[1..]);
      assert s == [s[0]] + s[1..];
    }
  }

  /** m is the largest number of stroops not above n / d. */
  predicate IsFloor(m: nat, n: nat, d: nat) {
    m * d <= n * STROOPS < (m + 1) * d
  }

  lemma AppendZeros(ds: seq<Digit>, zeros: seq<Digit>)
    requires Value(zeros) == 0 && Pow10(|ds| + |zeros|) == STROOPS
    ensures IsFloor(Value(ds + zeros), Value(ds), Pow10(|ds|))
  {
    ValueOfConcat(ds, zeros);
    Pow10Split(|zeros|, |ds|);
    PadScaled(Value(ds + zeros), Value(ds), Pow10(|zeros|), Pow10(|ds|));
  }

  lemma PadScaled(m: nat, f: nat, up: nat, p: nat)
    requires up * p == STROOPS && p >= 1 && m == f * up
    ensures IsFloor(m, f, p)
  {
    assert m * p == f * (up * p);
    assert (m + 1) * p == m * p + p;
  }

  lemma KeepFirst(kept: seq<Digit>, cut: seq<Digit>)
    requires Pow10(|kept|) == STROOPS
    ensures IsFloor(Value(kept), Value(kept + cut), Pow10(|kept + cut|))
  {
    ValueOfConcat(kept, cut);
    ValueBound(cut);
    Pow10Split(|cut|, |kept|);
    CutScaled(Value(kept), Value(cut), Pow10(|cut|), Value(kept + cut), Pow10(|kept + cut|));
  }

  lemma CutScaled(m: nat, rest: nat, down: nat, f: nat, p: nat)
    requires rest < down && p == down * STROOPS && f == m * down + rest
    ensures IsFloor(m, f, p)
  {
    assert f * STROOPS == m * (down * STROOPS) + rest * STROOPS;
    assert (m + 1) * p == m * p + p;
  }

  lemma PaddedShort(frac: string, zeros: seq<Digit>)
    requires AllDigits(frac) && |frac| + |zeros| == PLACES && forall i | 0 <= i < |zeros| :: zeros[i] == 0
    ensures AllDigits(Padded(frac)) && DigitsOf(Padded(frac)) == DigitsOf(frac) + zeros
  {
    PaddedDigits(frac);
  }

  lemma PaddedLong(frac: string)
    requires AllDigits(frac) && |frac| > PLACES
    ensures AllDigits(Padded(frac)) && DigitsOf(Padded(frac)) == DigitsOf(frac)[..PLACES]
  {
    PaddedDigits(frac);
    assert forall i | 0 <= i < PLACES :: Padded(frac)[i] == frac[i];
  }

  /** Padding or cutting a fraction keeps its value up to less than one stroop. */
  lemma PaddedValue(frac: string)
    requires AllDigits(frac)
    ensures AllDigits(Padded(frac))
    ensures IsFloor(Value(DigitsOf(Padded(frac))), Value(DigitsOf(frac)), Pow10(|frac|))
  {
    Scale();
    if |frac| <= PLACES {
      var zeros := Zeros(PLACES - |frac|);
      PaddedShort(frac, zeros);
      AppendZeros(DigitsOf(frac), zeros);
    } else {
      CutValue(frac);
    }
  }

  lemma CutValue(frac: string)
    requires AllDigits(frac) && |frac| > PLACES && Pow10(PLACES) == STROOPS
    ensures AllDigits(Padded(frac))
    ensures IsFloor(Value(DigitsOf(Padded(frac))), Value(DigitsOf(frac)), Pow10(|frac|))
  {
    PaddedLong(frac);
    var ds := DigitsOf(frac);
    var kept, cut := ds[..PLACES], ds[PLACES..];
    assert ds == kept + cut;
    KeepFirst(kept, cut);
  }

  /** Adding the whole part on both sides. */
  lemma WholeAdded(w: nat, m: nat, f: nat, p: nat, all: nat, n: nat)
    requires IsFloor(m, f, p) && all == w * STROOPS + m && n == w * p + f
    ensures IsFloor(all, n, p)
  {
    assert all * p == w * p * STROOPS + m * p;
    assert (all + 1) * p == w * p * STROOPS + (m + 1) * p;
    assert n * STROOPS == w * p * STROOPS + f * STROOPS;
  }

  lemma CombinedIsFloor(whole: string, frac: string)
    requires AllDigits(whole) && AllDigits(frac)
    ensures IsFloor(Combine(whole, frac), Value(DigitsOf(whole) + DigitsOf(frac)), Pow10(|frac|))
  {
    PaddedValue(frac);
    ValueOfConcat(DigitsOf(whole), DigitsOf(frac));
    WholeAdded(Value(DigitsOf(whole)), Value(DigitsOf(Padded(frac))), Value(DigitsOf(frac)), Pow10(|frac|),
               Combine(whole, frac), Value(DigitsOf(whole) + DigitsOf(frac)));
  }

  /** The exact amount in terms of the parts of the text. */
  lemma ExactParts(s: string, whole: string, dot: string, frac: string)
    requires WellFormed(Unsigned(s)) && Unsigned(s) == whole + dot + frac
    requires AllDigits(whole) && AllDigits(frac) && (dot == "." || (dot == "" && frac == ""))
    ensures Numerator(s) == Signed(s, Value(DigitsOf(whole) + DigitsOf(frac)))
    ensures Denominator(s) == Pow10(|frac|)
  {
    DotDropped(whole, dot, frac);
    assert DigitsOf(whole + frac) == DigitsOf(whole) + DigitsOf(frac);
  }

  /**
   The result is the exact amount in stroops truncated toward zero: its magnitude is the
   largest integer not above the exact magnitude, less than one stroop off, under the same sign.
   */
  lemma TruncatesTowardZero(s: string)
    requires WellFormed(Unsigned(s))
    ensures ToBigInt(s).Ok?
    ensures ToBigInt(s).value == Signed(s, Abs(ToBigInt(s).value))
    ensures Numerator(s) == Signed(s, Abs(Numerator(s)))
    ensures IsFloor(Abs(ToBigInt(s).value), Abs(Numerator(s)), Denominator(s))
  {
    var whole, dot, frac := Shape(Unsigned(s));
    Parts(s, whole, dot, frac);
    ExactParts(s, whole, dot, frac);
    CombinedIsFloor(whole, frac);
    SignedFloor(s, Combine(whole, frac), Value(DigitsOf(whole) + DigitsOf(frac)), Pow10(|frac|));
  }

  lemma SignedFloor(s: string, m: nat, n: nat, d: nat)
    requires WellFormed(Unsigned(s)) && IsFloor(m, n, d)
    requires ToBigInt(s) == Ok(Signed(s, m)) && Numerator(s) == Signed(s, n) && Denominator(s) == d
    ensures ToBigInt(s).value == Signed(s, Abs(ToBigInt(s).value))
    ensures Numerator(s) == Signed(s, Abs(Numerator(s)))
    ensures IsFloor(Abs(ToBigInt(s).value), Abs(Numerator(s)), Denominator(s))
  {
    assert Abs(ToBigInt(s).value) == m && Abs(Numerator(s)) == n;
  }

  lemma MulKeepsOrder(a: int, b: int, c: nat)
    requires a <= b
    ensures a * c <= b * c
  {
  }

  lemma MulKeepsStrictOrder(a: int, b: int, c: nat)
    requires a < b && c >= 1
    ensures a * c < b * c
  {
  }

  lemma Regroup(a: int, b: int, c: int)
    ensures (a * b) * c == (a * c) * b == a * (b * c)
  {
  }

  lemma FloorIsStrict(m: nat, n: nat, d: nat, m': nat, n': nat, d': nat)
    requires d >= 1 && d' >= 1 && m > m'
    requires IsFloor(m, n, d) && IsFloor(m', n', d')
    ensures n * d' > n' * d
  {
    var left, right := n * d', n' * d;
    assert left * STROOPS >= (m * d) * d' by {
      Regroup(n, d', STROOPS);
      MulKeepsOrder(m * d, n * STROOPS, d');
    }
    assert (m * d) * d' >= ((m' + 1) * d') * d by {
      Regroup(m, d, d');
      Regroup(m' + 1, d', d);
      Regroup(1, d', d);
      MulKeepsOrder(m' + 1, m, d * d');
    }
    assert ((m' + 1) * d') * d > right * STROOPS by {
      Regroup(n', d, STROOPS);
      MulKeepsStrictOrder(n' * STROOPS, (m' + 1) * d', d);
    }
  }

  /** A floor is zero when the number is. */
  lemma FloorOfZero(m: nat, d: nat)
    requires d >= 1 && IsFloor(m, 0, d)
    ensures m == 0
  {
  }

  /** Truncation toward zero never reverses the order of two fractions x / d and y / e. */
  lemma TruncationIsMonotone(minusX: bool, r: int, x: int, d: nat, minusY: bool, q: int, y: int, e: nat)
    requires d >= 1 && e >= 1
    requires IsFloor(Abs(r), Abs(x), d) && IsFloor(Abs(q), Abs(y), e)
    requires if minusX then r <= 0 && x <= 0 else r >= 0 && x >= 0
    requires if minusY then q <= 0 && y <= 0 else q >= 0 && y >= 0
    requires x * e <= y * d
    ensures r <= q
  {
    if minusX && minusY {
      if -q > -r {
        FloorIsStrict(-q, -y, e, -r, -x, d);
      }
    } else if !minusX && !minusY {
      if r > q {
        FloorIsStrict(r, x, d, q, y, e);
      }
    } else if minusY {
      assert x * e >= 0 && y * d <= 0;
      assert x == 0 && y == 0;
      FloorOfZero(Abs(r), d);
      FloorOfZero(Abs(q), e);
    }
  }

  /** A larger amount, however many decimals it is written with, never reads as fewer stroops. */
  lemma OrderIsKept(s: string, t: string)
    requires WellFormed(Unsigned(s)) && WellFormed(Unsigned(t))
    requires Numerator(s) * Denominator(t) <= Numerator(t) * Denominator(s)
    ensures ToBigInt(s).Ok? && ToBigInt(t).Ok? && ToBigInt(s).value <= ToBigInt(t).value
  {
    TruncatesTowardZero(s);
    TruncatesTowardZero(t);
    TruncationIsMonotone(StartsWith(s, "-"), ToBigInt(s).value, Numerator(s), Denominator(s),
                         StartsWith(t, "-"), ToBigInt(t).value, Numerator(t), Denominator(t));
  }
}
