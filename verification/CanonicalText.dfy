/**
 What the canonical text is, said of the text itself: keys in ascending order of UTF-16 code
 units at every depth, the shortest escapes, and numerals without anything to spare.
 */
module CanonicalText {
  import opened Results
  import opened CanonicalJson
  import opened JsonParser
  import opened CanonicalForm
  import Decimals

  // ---------------------------------------------------------------- ascending keys

  /** The first text ends first, or is smaller at the first place where they differ. */
  ghost predicate FirstDifference(a: Text, b: Text) {
    exists k: nat :: DiffersAt(a, b, k)
  }

  predicate DiffersAt(a: Text, b: Text, k: nat) {
    && k <= |a| && k < |b| && a[..k] == b[..k]
    && (k == |a| || a[k] < b[k])
  }

  ghost predicate AscendingKeys(ms: seq<Member>) {
    forall i, j | 0 <= i < j < |ms| :: FirstDifference(ms[i].key, ms[j].key)
  }

  lemma LaterPlace(a: Text, b: Text, k: nat)
    requires DiffersAt(a, b, k) && k > 0
    ensures a != [] && b != [] && a[0] == b[0] && DiffersAt(a[1..], b[1..], k - 1)
  {
    assert a[..k][0] == b[..k][0];
    assert a[1..][..k - 1] == a[..k][1..] && b[1..][..k - 1] == b[..k][1..];
  }

  lemma EarlierPlace(a: Text, b: Text, k: nat)
    requires a != [] && b != [] && a[0] == b[0] && DiffersAt(a[1..], b[1..], k)
    ensures DiffersAt(a, b, k + 1)
  {
    assert a[..k + 1] == [a[0]] + a[1..][..k] && b[..k + 1] == [b[0]] + b[1..][..k];
  }

  lemma {:induction false} LessIsFirstDifference(a: Text, b: Text)
    ensures Less(a, b) <==> FirstDifference(a, b)
  {
    if FirstDifference(a, b) {
      var k: nat :| DiffersAt(a, b, k);
      if k > 0 {
        LaterPlace(a, b, k);
        LessIsFirstDifference(a[1..], b[1..]);
      }
    }
    if Less(a, b) {
      if a != [] && a[0] == b[0] {
        LessIsFirstDifference(a[1..], b[1..]);
        var k: nat :| DiffersAt(a[1..], b[1..], k);
        EarlierPlace(a, b, k);
      } else {
        assert DiffersAt(a, b, 0);
      }
    }
  }

  // ---------------------------------------------------------------- the text of a value

  /** Each key with its colon and the text of its value. */
  function WithKeys(order: seq<Member>, parts: seq<Text>): (r: seq<Text>)
    requires |order| == |parts|
    ensures |r| == |parts|
  {
    seq(|order|, i requires 0 <= i < |order| => Quote(order[i].key) + [0x3A] + parts[i])
  }

  /** The text is an object of exactly these defined members in ascending order of their keys. */
  ghost predicate ObjectText(ms: seq<Member>, order: seq<Member>, parts: seq<Text>, t: Text) {
    && |order| == |parts| && AscendingKeys(order)
    && (forall m :: m in order <==> m in ms && m.value != Undefined)
    && t == [0x7B] + Join(WithKeys(order, parts)) + [0x7D]
  }

  ghost predicate ArrayText(items: seq<Value>, parts: seq<Text>, t: Text) {
    |parts| == |items| && t == [0x5B] + Join(parts) + [0x5D]
  }

  /** The text is the canonical one: no space, items in order, keys ascending, at every depth. */
  ghost predicate IsCanonicalText(v: Value, t: Text)
    decreases v
  {
    match v
    case Null => t == NULL
    case Bool(b) => t == if b then TRUE else FALSE
    case Num(n) => t == NumberText(n)
    case Str(s) => t == Quote(s)
    case Arr(items) =>
      exists parts: seq<Text> :: ArrayText(items, parts, t)
        && forall i | 0 <= i < |items| :: IsCanonicalText(items[i], parts[i])
    case Obj(_, ms) =>
      exists order: seq<Member>, parts: seq<Text> :: ObjectText(ms, order, parts, t)
        && forall i | 0 <= i < |order| :: (MemberIsSmaller(v, order[i]); IsCanonicalText(order[i].value, parts[i]))
    case _ => false
  }

  lemma {:induction false} ItemParts(owner: Value, items: seq<Value>, depth: nat)
    requires owner.Arr? && (forall x | x in items :: x in owner.items) && PrintItems(owner, items, depth).Ok?
    ensures var parts := PrintItems(owner, items, depth).value;
            |parts| == |items| && forall i | 0 <= i < |items| :: Print(items[i], depth + 1) == Ok(parts[i])
    decreases |items|
  {
    if items != [] {
      ItemParts(owner, items[1..], depth);
      ItemsUnfold(owner, items, depth);
    }
  }

  /** The texts of the defined members, in the order given. */
  lemma {:induction false} MemberParts(owner: Value, ms: seq<Member>, depth: nat) returns (parts: seq<Text>)
    requires owner.Obj? && (forall m | m in ms :: m in owner.members) && PrintMembers(owner, ms, depth).Ok?
    ensures |parts| == |Defined(ms)| && PrintMembers(owner, ms, depth).value == WithKeys(Defined(ms), parts)
    ensures forall i | 0 <= i < |parts| :: Print(Defined(ms)[i].value, depth + 1) == Ok(parts[i])
    decreases |ms|
  {
    if ms == [] {
      parts := [];
    } else {
      parts := MemberParts(owner, ms[1..], depth);
      if ms[0].value != Undefined {
        MembersUnfold(owner, ms, depth);
        parts := [Print(ms[0].value, depth + 1).value] + parts;
      }
    }
  }

  lemma {:induction false} DefinedMembers(ms: seq<Member>)
    ensures forall m :: m in Defined(ms) <==> m in ms && m.value != Undefined
  {
    if ms != [] {
      DefinedMembers(ms[1..]);
      assert forall m :: m in ms <==> m == ms[0] || m in ms[1..];
    }
  }

  lemma {:induction false} DefinedAscending(ms: seq<Member>)
    requires Ascending(ms)
    ensures Ascending(Defined(ms))
  {
    if ms != [] {
      DefinedAscending(ms[1..]);
      DefinedMembers(ms[1..]);
      if ms[0].value != Undefined {
        AscendingCons(ms[0], Defined(ms[1..]));
      }
    }
  }

  lemma SortedKeysAscend(ms: seq<Member>)
    requires DistinctKeys(ms)
    ensures AscendingKeys(Defined(SortMembers(ms)))
    ensures forall m :: m in Defined(SortMembers(ms)) <==> m in ms && m.value != Undefined
  {
    var sorted := SortMembers(ms);
    SortAscending(ms);
    DefinedAscending(sorted);
    DefinedMembers(sorted);
    forall m ensures m in sorted <==> m in ms {
      assert m in sorted <==> m in multiset(sorted);
      assert m in ms <==> m in multiset(ms);
    }
    var order := Defined(sorted);
    forall i, j | 0 <= i < j < |order| ensures FirstDifference(order[i].key, order[j].key) {
      LessIsFirstDifference(order[i].key, order[j].key);
    }
  }

  lemma {:induction false} PrintedIsCanonical(v: Value, depth: nat)
    requires WellFormed(v) && Print(v, depth).Ok?
    ensures IsCanonicalText(v, Print(v, depth).value)
    decreases v, 1
  {
    if v.Arr? {
      ItemsAreCanonical(v, depth);
      ArrayIsCanonical(v, depth);
    } else if v.Obj? {
      MembersAreCanonical(v, depth);
      ObjectIsCanonical(v, depth);
    }
  }

  lemma {:induction false} ItemsAreCanonical(v: Value, depth: nat)
    requires WellFormed(v) && v.Arr? && Print(v, depth).Ok?
    ensures forall i | 0 <= i < |v.items| ::
              Print(v.items[i], depth + 1).Ok? && IsCanonicalText(v.items[i], Print(v.items[i], depth + 1).value)
    decreases v, 0
  {
    ItemParts(v, v.items, depth);
    forall i | 0 <= i < |v.items|
      ensures Print(v.items[i], depth + 1).Ok? && IsCanonicalText(v.items[i], Print(v.items[i], depth + 1).value)
    {
      PrintedIsCanonical(v.items[i], depth + 1);
    }
  }

  lemma {:induction false} MembersAreCanonical(v: Value, depth: nat)
    requires WellFormed(v) && v.Obj?
    ensures forall i | 0 <= i < |v.members| && Print(v.members[i].value, depth + 1).Ok? ::
              IsCanonicalText(v.members[i].value, Print(v.members[i].value, depth + 1).value)
    decreases v, 0
  {
    forall i | 0 <= i < |v.members| && Print(v.members[i].value, depth + 1).Ok?
      ensures IsCanonicalText(v.members[i].value, Print(v.members[i].value, depth + 1).value)
    {
      PrintedIsCanonical(v.members[i].value, depth + 1);
    }
  }

  lemma ArrayIsCanonical(v: Value, depth: nat)
    requires v.Arr? && Print(v, depth).Ok?
    requires forall i | 0 <= i < |v.items| ::
               Print(v.items[i], depth + 1).Ok? && IsCanonicalText(v.items[i], Print(v.items[i], depth + 1).value)
    ensures IsCanonicalText(v, Print(v, depth).value)
  {
    ItemParts(v, v.items, depth);
    assert ArrayText(v.items, PrintItems(v, v.items, depth).value, Print(v, depth).value);
  }

  lemma ObjectIsCanonical(v: Value, depth: nat)
    requires v.Obj? && WellFormed(v) && Print(v, depth).Ok?
    requires forall i | 0 <= i < |v.members| && Print(v.members[i].value, depth + 1).Ok? ::
               IsCanonicalText(v.members[i].value, Print(v.members[i].value, depth + 1).value)
    ensures IsCanonicalText(v, Print(v, depth).value)
  {
    var ms := v.members;
    SortedBelongs(ms);
    SortedKeysAscend(ms);
    var order := Defined(SortMembers(ms));
    var parts := MemberParts(v, SortMembers(ms), depth);
    forall i | 0 <= i < |order| ensures order[i] in ms && IsCanonicalText(order[i].value, parts[i]) {
      assert order[i] in order;
      var k :| 0 <= k < |ms| && ms[k] == order[i];
    }
    OrderGivesText(v, order, parts, Print(v, depth).value);
  }

  lemma OrderGivesText(v: Value, order: seq<Member>, parts: seq<Text>, t: Text)
    requires v.Obj? && ObjectText(v.members, order, parts, t)
    requires forall i | 0 <= i < |order| :: order[i] in v.members && IsCanonicalText(order[i].value, parts[i])
    ensures IsCanonicalText(v, t)
  {
  }

  /** The text of every accepted value is canonical: at every depth its keys ascend by their first difference. */
  lemma AcceptedIsCanonical(v: Value)
    requires WellFormed(v) && CanonicalizeJson(v).Ok?
    ensures IsCanonicalText(v, CanonicalizeJson(v).value)
  {
    PrintedIsCanonical(v, 0);
  }

  // ---------------------------------------------------------------- nothing to spare

  predicate UpperHex(u: Unit) {
    0x41 <= u <= 0x46
  }

  /** Of all texts read as a character the one written is the shortest, and has no capital hexadecimal digit. */
  lemma EscapeIsShortest(u: Unit, t: Text)
    requires ParseChar(t) == Some((u, []))
    ensures |EscapeUnit(u)| <= |t|
    ensures |EscapeUnit(u)| == |t| ==> t == EscapeUnit(u) || exists k | 2 <= k < |t| :: UpperHex(t[k])
  {
    if |t| == 6 && t[0] == 0x5C && t[1] == 0x75 && |EscapeUnit(u)| == 6 {
      var x := t[2..6];
      assert x[0] == t[2] && x[1] == t[3] && x[2] == t[4] && x[3] == t[5];
      if forall k | 2 <= k < |t| :: !UpperHex(t[k]) {
        LowHexUnique(t[2], t[3], t[4], t[5], u);
        assert ParseHex4(x) == Some(u);
        assert t == EscapeUnit(u);
      }
    }
  }

  lemma LowHexUnique(a: Unit, b: Unit, c: Unit, d: Unit, u: Unit)
    requires u < 0x20 && ParseHex4([a, b, c, d]) == Some(u)
    requires !UpperHex(a) && !UpperHex(b) && !UpperHex(c) && !UpperHex(d)
    ensures a == 0x30 && b == 0x30 && c == HexDigit(u / 16) && d == HexDigit(u % 16)
  {
  }

  lemma EscapeHasNoCapitals(u: Unit)
    requires |EscapeUnit(u)| == 6
    ensures forall k | 2 <= k < 6 :: !UpperHex(EscapeUnit(u)[k])
  {
  }

  /** A numeral that is read as an integer is the one written, or a zero with a sign. */
  lemma NumeralUnique(n: int, t: Text)
    requires ParseNumber(t) == Some((n, []))
    ensures t == NumberText(n) || (n == 0 && t == [0x2D] + NumberText(0))
  {
    if t[0] == 0x2D {
      NaturalUnique(-n, t[1..]);
      assert t == [0x2D] + t[1..];
    } else {
      NaturalUnique(n, t);
    }
  }

  lemma NaturalUnique(n: int, t: Text)
    requires ParseNatural(t).Some? && ParseNatural(t).value.0 == n && ParseNatural(t).value.1 == []
    ensures n >= 0 && t == DigitUnits(Decimals.Digits(n))
  {
    var k := LeadingDigits(t);
    assert t[..k] == t;
    var ds := DigitsOf(t);
    UnitsOfDigits(t);
    Decimals.DigitsOfValue(ds);
  }

  lemma {:induction false} UnitsOfDigits(t: Text)
    requires AllDigits(t)
    ensures DigitUnits(DigitsOf(t)) == t && |DigitsOf(t)| == |t|
    ensures t != [] ==> (DigitsOf(t)[0] == 0 <==> t[0] == 0x30)
  {
    if t != [] {
      UnitsOfDigits(t[1..]);
      assert t == [t[0]] + t[1..];
      assert DigitsOf(t)[1..] == DigitsOf(t[1..]);
    }
  }
}
