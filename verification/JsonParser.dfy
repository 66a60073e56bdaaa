/**
 What a canonical text means: an independent JSON parser, and the reading of a value in
 which an object is an unordered map and undefined members are absent.
 */
module JsonParser {
  import opened Results
  import opened Decimals
  import opened CanonicalJson

  datatype Json =
    | JNull
    | JBool(b: bool)
    | JNum(n: int)
    | JStr(s: Text)
    | JArr(items: seq<Json>)
    | JObj(members: map<Text, Json>)

  // ---------------------------------------------------------------- meaning of a value

  function Meaning(v: Value): Json
    decreases v, 1, 0
  {
    match v
    case Bool(b) => JBool(b)
    case Num(n) => JNum(n)
    case Str(s) => JStr(s)
    case Arr(items) => JArr(ItemsMeaning(v, items))
    case Obj(_, members) => JObj(MembersMeaning(v, members))
    case _ => JNull
  }

  function ItemsMeaning(owner: Value, items: seq<Value>): (r: seq<Json>)
    requires owner.Arr? && forall v | v in items :: v in owner.items
    decreases owner, 0, |items|
  {
    if items == [] then []
    else
      ItemIsSmaller(owner, items[0]);
      [Meaning(items[0])] + ItemsMeaning(owner, items[1..])
  }

  /** A later member overrides an earlier one with the same key, as in a JavaScript object. */
  function MembersMeaning(owner: Value, ms: seq<Member>): map<Text, Json>
    requires owner.Obj? && forall m | m in ms :: m in owner.members
    decreases owner, 0, |ms|
  {
    if ms == [] then map[]
    else if ms[0].value == Undefined then MembersMeaning(owner, ms[1..])
    else
      MemberIsSmaller(owner, ms[0]);
      map[ms[0].key := Meaning(ms[0].value)] + MembersMeaning(owner, ms[1..])
  }

  predicate DistinctKeys(ms: seq<Member>) {
    forall i, j | 0 <= i < j < |ms| :: ms[i].key != ms[j].key
  }

  /** Every object in the value has distinct keys, as every JavaScript object does. */
  predicate WellFormed(v: Value) {
    match v
    case Arr(items) => forall i | 0 <= i < |items| :: WellFormed(items[i])
    case Obj(_, ms) => DistinctKeys(ms) && forall i | 0 <= i < |ms| :: WellFormed(ms[i].value)
    case _ => true
  }

  // ---------------------------------------------------------------- parser

  predicate IsDigit(u: Unit) { 0x30 <= u <= 0x39 }

  function LeadingDigits(t: Text): (n: nat)
    ensures n <= |t| && AllDigits(t[..n])
  {
    if t == [] || !IsDigit(t[0]) then 0 else 1 + LeadingDigits(t[1..])
  }

  function DigitOf(u: Unit): Digit
    requires IsDigit(u)
  {
    (u - 0x30) as Digit
  }

  function DigitsOf(t: Text): seq<Digit>
    requires AllDigits(t)
  {
    if t == [] then [] else [DigitOf(t[0])] + DigitsOf(t[1..])
  }

  predicate AllDigits(t: Text) {
    forall i | 0 <= i < |t| :: IsDigit(t[i])
  }

  function ParseNatural(t: Text): (r: Option<(nat, Text)>)
    ensures r.Some? ==> |r.value.1| < |t|
  {
    var n := LeadingDigits(t);
    if n == 0 || (n > 1 && t[0] == 0x30) then None
    else Some((Decimals.Value(DigitsOf(t[..n])), t[n..]))
  }

  function ParseNumber(t: Text): (r: Option<(int, Text)>)
    ensures r.Some? ==> |r.value.1| < |t|
  {
    if t != [] && t[0] == 0x2D then
      match ParseNatural(t[1..])
      case None => None
      case Some((n, rest)) => Some((-(n as int), rest))
    else
      match ParseNatural(t)
      case None => None
      case Some((n, rest)) => Some((n as int, rest))
  }

  function HexValue(u: Unit): (r: Option<int>)
    ensures r.Some? ==> 0 <= r.value < 16
  {
    if IsDigit(u) then Some(u as int - 0x30)
    else if 0x61 <= u <= 0x66 then Some(u as int - 0x57)
    else if 0x41 <= u <= 0x46 then Some(u as int - 0x37)
    else None
  }

  function ParseHex4(t: Text): Option<Unit>
    requires |t| == 4
  {
    match (HexValue(t[0]), HexValue(t[1]), HexValue(t[2]), HexValue(t[3]))
    case (Some(a), Some(b), Some(c), Some(d)) =>
      Some((a * 0x1000 + b * 0x100 + c * 0x10 + d) as Unit)
    case _ => None
  }

  function ParseEscape(u: Unit): Option<Unit> {
    if u == 0x22 || u == 0x5C || u == 0x2F then Some(u)
    else if u == 0x62 then Some(0x08)
    else if u == 0x74 then Some(0x09)
    else if u == 0x6E then Some(0x0A)
    else if u == 0x66 then Some(0x0C)
    else if u == 0x72 then Some(0x0D)
    else None
  }

  /** One character of a string body, and the text after it. */
  function ParseChar(t: Text): (r: Option<(Unit, Text)>)
    ensures r.Some? ==> |r.value.1| < |t|
  {
    if t == [] || t[0] < 0x20 || t[0] == 0x22 then None
    else if t[0] != 0x5C then Some((t[0], t[1..]))
    else if |t| >= 6 && t[1] == 0x75 then
      match ParseHex4(t[2..6])
      case None => None
      case Some(u) => Some((u, t[6..]))
    else if |t| >= 2 then
      match ParseEscape(t[1])
      case None => None
      case Some(u) => Some((u, t[2..]))
    else None
  }

  /** The body of a string up to its closing quote, and the text after that quote. */
  function ParseChars(t: Text): (r: Option<(Text, Text)>)
    ensures r.Some? ==> |r.value.1| < |t|
    decreases |t|
  {
    if t != [] && t[0] == 0x22 then Some(([], t[1..]))
    else
      match ParseChar(t)
      case None => None
      case Some((u, rest)) =>
        match ParseChars(rest)
        case None => None
        case Some((s, after)) => Some(([u] + s, after))
  }

  function ParseScalar(t: Text): (r: Option<(Json, Text)>)
    ensures r.Some? ==> |r.value.1| < |t|
  {
    if NULL <= t then Some((JNull, t[4..]))
    else if TRUE <= t then Some((JBool(true), t[4..]))
    else if FALSE <= t then Some((JBool(false), t[5..]))
    else
      match ParseNumber(t)
      case None => None
      case Some((n, rest)) => Some((JNum(n), rest))
  }

  function ParseValue(t: Text): (r: Option<(Json, Text)>)
    ensures r.Some? ==> |r.value.1| < |t|
    decreases |t|, 1
  {
    if t == [] then None
    else if t[0] == 0x22 then
      match ParseChars(t[1..])
      case None => None
      case Some((s, rest)) => Some((JStr(s), rest))
    else if t[0] == 0x5B then
      if |t| > 1 && t[1] == 0x5D then Some((JArr([]), t[2..]))
      else
        match ParseItems(t[1..])
        case None => None
        case Some((items, rest)) => Some((JArr(items), rest))
    else if t[0] == 0x7B then
      if |t| > 1 && t[1] == 0x7D then Some((JObj(map[]), t[2..]))
      else
        match ParseMembers(t[1..])
        case None => None
        case Some((members, rest)) => Some((JObj(members), rest))
    else ParseScalar(t)
  }

  /** One or more values separated by commas, and the text after the closing bracket. */
  function ParseItems(t: Text): (r: Option<(seq<Json>, Text)>)
    ensures r.Some? ==> |r.value.1| < |t|
    decreases |t|, 2
  {
    match ParseValue(t)
    case None => None
    case Some((j, rest)) =>
      if rest == [] then None
      else if rest[0] == 0x5D then Some(([j], rest[1..]))
      else if rest[0] == 0x2C then
        match ParseItems(rest[1..])
        case None => None
        case Some((js, after)) => Some(([j] + js, after))
      else None
  }

  /** One or more members separated by commas, and the text after the closing brace. */
  function ParseMembers(t: Text): (r: Option<(map<Text, Json>, Text)>)
    ensures r.Some? ==> |r.value.1| < |t|
    decreases |t|, 2
  {
    if t == [] || t[0] != 0x22 then None
    else
      match ParseChars(t[1..])
      case None => None
      case Some((key, afterKey)) =>
        if afterKey == [] || afterKey[0] != 0x3A then None
        else
          match ParseValue(afterKey[1..])
          case None => None
          case Some((j, rest)) =>
            if rest == [] then None
            else if rest[0] == 0x7D then Some((map[key := j], rest[1..]))
            else if rest[0] == 0x2C then
              match ParseMembers(rest[1..])
              case None => None
              case Some((ms, after)) => Some((map[key := j] + ms, after))
            else None
  }

  /** A whole text is one JSON value with nothing after it. */
  function ParseJson(t: Text): Option<Json> {
    match ParseValue(t)
    case Some((j, rest)) => if rest == [] then Some(j) else None
    case None => None
  }

  // ---------------------------------------------------------------- round trip

  /** What follows a value may not continue a number. */
  predicate Ends(rest: Text) {
    rest == [] || !IsDigit(rest[0])
  }

  lemma {:induction false} DigitUnitsRoundTrip(ds: seq<Digit>)
    ensures |DigitUnits(ds)| == |ds| && AllDigits(DigitUnits(ds)) && DigitsOf(DigitUnits(ds)) == ds
  {
    if ds != [] {
      DigitUnitsRoundTrip(ds[1..]);
      assert DigitUnits(ds)[1..] == DigitUnits(ds[1..]);
    }
  }

  lemma {:induction false} LeadingDigitsExact(t: Text, rest: Text)
    requires AllDigits(t) && Ends(rest)
    ensures LeadingDigits(t + rest) == |t|
  {
    if t == [] {
      assert t + rest == rest;
    } else {
      assert IsDigit(t[0]);
      assert AllDigits(t[1..]);
      LeadingDigitsExact(t[1..], rest);
      assert (t + rest)[1..] == t[1..] + rest;
    }
  }

  lemma NaturalRoundTrip(n: nat, rest: Text)
    requires Ends(rest)
    ensures ParseNatural(DigitUnits(Digits(n)) + rest) == Some((n, rest))
    ensures IsDigit(DigitUnits(Digits(n))[0])
  {
    var ds := Digits(n);
    DigitUnitsRoundTrip(ds);
    LeadingDigitsExact(DigitUnits(ds), rest);
    var t := DigitUnits(ds) + rest;
    assert t[..|ds|] == DigitUnits(ds) && t[|ds|..] == rest;
  }

  lemma PlusStep(digits: Text, n: nat, rest: Text)
    requires digits != [] && IsDigit(digits[0]) && ParseNatural(digits + rest) == Some((n, rest))
    ensures ParseNumber(digits + rest) == Some((n, rest))
  {
  }

  lemma MinusStep(digits: Text, n: nat, rest: Text)
    requires ParseNatural(digits + rest) == Some((n, rest))
    ensures ParseNumber([0x2D] + digits + rest) == Some((-(n as int), rest))
  {
    assert ([0x2D] + digits + rest)[1..] == digits + rest;
  }

  lemma NumberRoundTrip(n: int, rest: Text)
    requires Ends(rest)
    ensures ParseNumber(NumberText(n) + rest) == Some((n, rest))
    ensures IsDigit(NumberText(n)[0]) || NumberText(n)[0] == 0x2D
  {
    if n < 0 {
      NaturalRoundTrip(-n, rest);
      MinusStep(DigitUnits(Digits(-n)), -n, rest);
    } else {
      NaturalRoundTrip(n, rest);
      PlusStep(DigitUnits(Digits(n)), n, rest);
    }
  }

  /** A text that starts like a number is read as a number. */
  lemma NumberDispatch(t: Text)
    requires t != [] && (IsDigit(t[0]) || t[0] == 0x2D) && ParseNumber(t).Some?
    ensures ParseValue(t) == Some((JNum(ParseNumber(t).value.0), ParseNumber(t).value.1))
  {
    ScalarNumber(t);
  }

  lemma ScalarNumber(t: Text)
    requires t != [] && (IsDigit(t[0]) || t[0] == 0x2D) && ParseNumber(t).Some?
    ensures ParseScalar(t) == Some((JNum(ParseNumber(t).value.0), ParseNumber(t).value.1))
  {
    assert NULL[0] == 0x6E && TRUE[0] == 0x74 && FALSE[0] == 0x66;
  }

  lemma HexRoundTrip(u: Unit)
    requires u < 0x20
    ensures ParseHex4([0x30, 0x30, HexDigit(u / 16), HexDigit(u % 16)]) == Some(u)
  {
    assert HexValue(0x30) == Some(0);
    assert HexValue(HexDigit(u / 16)) == Some((u / 16) as int);
    assert HexValue(HexDigit(u % 16)) == Some((u % 16) as int);
  }

  lemma CharRoundTrip(u: Unit, rest: Text)
    ensures ParseChar(EscapeUnit(u) + rest) == Some((u, rest))
    ensures EscapeUnit(u)[0] != 0x22
  {
    var t := EscapeUnit(u) + rest;
    if |EscapeUnit(u)| == 6 {
      assert t[2..6] == [0x30, 0x30, HexDigit(u / 16), HexDigit(u % 16)];
      HexRoundTrip(u);
      assert t[6..] == rest;
    } else if |EscapeUnit(u)| == 2 {
      assert t[1] != 0x75;
      assert t[2..] == rest;
    } else {
      assert t[1..] == rest;
    }
  }

  lemma {:induction false} StringRoundTrip(s: Text, rest: Text)
    ensures ParseChars(Escape(s) + [0x22] + rest) == Some((s, rest))
  {
    var t := Escape(s) + [0x22] + rest;
    if s == [] {
      assert t[1..] == rest;
    } else {
      var tail := Escape(s[1..]) + [0x22] + rest;
      assert t == EscapeUnit(s[0]) + tail;
      CharRoundTrip(s[0], tail);
      StringRoundTrip(s[1..], rest);
      assert t[0] == EscapeUnit(s[0])[0];
      assert [s[0]] + s[1..] == s;
    }
  }

  // One step of the parser at each punctuation mark.

  lemma StringStep(s: Text, rest: Text)
    ensures ParseValue(Quote(s) + rest) == Some((JStr(s), rest))
  {
    StringRoundTrip(s, rest);
    assert (Quote(s) + rest)[1..] == Escape(s) + [0x22] + rest;
  }

  lemma ArrayStep(body: Text, items: seq<Json>, rest: Text)
    requires var inner := body + ([0x5D] + rest);
             inner[0] != 0x5D && ParseItems(inner) == Some((items, rest))
    ensures ParseValue([0x5B] + body + [0x5D] + rest) == Some((JArr(items), rest))
  {
    var t := [0x5B] + body + [0x5D] + rest;
    assert t[1..] == body + ([0x5D] + rest);
  }

  lemma LastItemStep(part: Text, j: Json, rest: Text)
    requires ParseValue(part + ([0x5D] + rest)) == Some((j, [0x5D] + rest))
    ensures ParseItems(part + ([0x5D] + rest)) == Some(([j], rest))
  {
    assert ([0x5D] + rest)[1..] == rest;
  }

  lemma ItemStep(part: Text, j: Json, tail: Text, js: seq<Json>, rest: Text)
    requires ParseValue(part + ([0x2C] + tail)) == Some((j, [0x2C] + tail))
    requires ParseItems(tail) == Some((js, rest))
    ensures ParseItems(part + ([0x2C] + tail)) == Some(([j] + js, rest))
  {
    assert ([0x2C] + tail)[1..] == tail;
  }

  lemma ObjectStep(body: Text, members: map<Text, Json>, rest: Text)
    requires var inner := body + ([0x7D] + rest);
             inner[0] == 0x22 && ParseMembers(inner) == Some((members, rest))
    ensures ParseValue([0x7B] + body + [0x7D] + rest) == Some((JObj(members), rest))
  {
    var inner := body + ([0x7D] + rest);
    assert [0x7B] + body + [0x7D] + rest == [0x7B] + inner;
    BraceStep(inner, members, rest);
  }

  lemma BraceStep(inner: Text, members: map<Text, Json>, rest: Text)
    requires inner != [] && inner[0] == 0x22 && ParseMembers(inner) == Some((members, rest))
    ensures ParseValue([0x7B] + inner) == Some((JObj(members), rest))
  {
    var t := [0x7B] + inner;
    assert t[1..] == inner && t[1] == 0x22;
  }

  lemma EmptyObjectStep(rest: Text)
    ensures ParseValue([0x7B, 0x7D] + rest) == Some((JObj(map[]), rest))
  {
    assert ([0x7B, 0x7D] + rest)[2..] == rest;
  }

  /** The text of one member, up to the punctuation after it. */
  function MemberText(key: Text, part: Text): Text {
    Quote(key) + [0x3A] + part
  }

  lemma KeyStep(key: Text, part: Text, after: Text)
    ensures var t := MemberText(key, part) + after;
            t[0] == 0x22 && ParseChars(t[1..]) == Some((key, [0x3A] + (part + after)))
  {
    var t := MemberText(key, part) + after;
    assert t[1..] == Escape(key) + [0x22] + ([0x3A] + (part + after));
    StringRoundTrip(key, [0x3A] + (part + after));
  }

  lemma LastMemberStep(key: Text, part: Text, j: Json, rest: Text)
    requires ParseValue(part + ([0x7D] + rest)) == Some((j, [0x7D] + rest))
    ensures ParseMembers(MemberText(key, part) + ([0x7D] + rest)) == Some((map[key := j], rest))
  {
    KeyStep(key, part, [0x7D] + rest);
    assert ([0x3A] + (part + ([0x7D] + rest)))[1..] == part + ([0x7D] + rest);
    assert ([0x7D] + rest)[1..] == rest;
  }

  lemma MemberStep(key: Text, part: Text, j: Json, tail: Text, ms: map<Text, Json>, rest: Text)
    requires ParseValue(part + ([0x2C] + tail)) == Some((j, [0x2C] + tail))
    requires ParseMembers(tail) == Some((ms, rest))
    ensures ParseMembers(MemberText(key, part) + ([0x2C] + tail)) == Some((map[key := j] + ms, rest))
  {
    KeyStep(key, part, [0x2C] + tail);
    assert ([0x3A] + (part + ([0x2C] + tail)))[1..] == part + ([0x2C] + tail);
    assert ([0x2C] + tail)[1..] == tail;
  }

  lemma LiteralStep(rest: Text)
    ensures ParseValue(NULL + rest) == Some((JNull, rest))
    ensures ParseValue(TRUE + rest) == Some((JBool(true), rest))
    ensures ParseValue(FALSE + rest) == Some((JBool(false), rest))
  {
    assert (NULL + rest)[4..] == rest && (TRUE + rest)[4..] == rest && (FALSE + rest)[5..] == rest;
    assert (TRUE + rest)[0] == 0x74 && (FALSE + rest)[0] == 0x66;
  }

  lemma JoinStep(parts: seq<Text>, rest: Text)
    requires |parts| > 1
    ensures Join(parts) + rest == parts[0] + ([0x2C] + (Join(parts[1..]) + rest))
  {
  }

  lemma LastItemText(part: Text, others: seq<Text>, j: Json, rest: Text)
    requires others == [] && part != [] && part[0] != 0x5D
    requires ParseValue(part + ([0x5D] + rest)) == Some((j, [0x5D] + rest))
    ensures var text := Join([part] + others) + ([0x5D] + rest);
            text[0] != 0x5D && ParseItems(text) == Some(([j], rest))
  {
    LastItemStep(part, j, rest);
    assert Join([part] + others) == part;
  }

  lemma ItemText(part: Text, others: seq<Text>, j: Json, js: seq<Json>, rest: Text)
    requires others != [] && part != [] && part[0] != 0x5D
    requires var tail := Join(others) + ([0x5D] + rest);
             && ParseValue(part + ([0x2C] + tail)) == Some((j, [0x2C] + tail))
             && ParseItems(tail) == Some((js, rest))
    ensures var text := Join([part] + others) + ([0x5D] + rest);
            text[0] != 0x5D && ParseItems(text) == Some(([j] + js, rest))
  {
    ItemStep(part, j, Join(others) + ([0x5D] + rest), js, rest);
    JoinStep([part] + others, [0x5D] + rest);
    assert ([part] + others)[1..] == others;
  }

  lemma LastMemberText(key: Text, part: Text, others: seq<Text>, j: Json, rest: Text)
    requires others == []
    requires ParseValue(part + ([0x7D] + rest)) == Some((j, [0x7D] + rest))
    ensures var text := Join([MemberText(key, part)] + others) + ([0x7D] + rest);
            text[0] == 0x22 && ParseMembers(text) == Some((map[key := j], rest))
  {
    LastMemberStep(key, part, j, rest);
    KeyStep(key, part, [0x7D] + rest);
    assert Join([MemberText(key, part)] + others) == MemberText(key, part);
  }

  lemma MoreMembersText(key: Text, part: Text, others: seq<Text>, j: Json, ms: map<Text, Json>, rest: Text)
    requires others != []
    requires var tail := Join(others) + ([0x7D] + rest);
             && ParseValue(part + ([0x2C] + tail)) == Some((j, [0x2C] + tail))
             && ParseMembers(tail) == Some((ms, rest))
    ensures var text := Join([MemberText(key, part)] + others) + ([0x7D] + rest);
            text[0] == 0x22 && ParseMembers(text) == Some((map[key := j] + ms, rest))
  {
    var tail := Join(others) + ([0x7D] + rest);
    var parts := [MemberText(key, part)] + others;
    MemberStep(key, part, j, tail, ms, rest);
    KeyStep(key, part, [0x2C] + tail);
    JoinStep(parts, [0x7D] + rest);
    assert parts[1..] == others;
  }

  /** The parts of a non-empty list of items are the part of the first and those of the others. */
  lemma ItemsUnfold(owner: Value, items: seq<Value>, depth: nat)
    requires owner.Arr? && items != [] && forall v | v in items :: v in owner.items
    requires PrintItems(owner, items, depth).Ok?
    ensures items[0] < owner && Print(items[0], depth + 1).Ok? && PrintItems(owner, items[1..], depth).Ok?
    ensures PrintItems(owner, items, depth).value
         == [Print(items[0], depth + 1).value] + PrintItems(owner, items[1..], depth).value
    ensures ItemsMeaning(owner, items) == [Meaning(items[0])] + ItemsMeaning(owner, items[1..])
    ensures WellFormed(owner) ==> WellFormed(items[0])
  {
    ItemIsSmaller(owner, items[0]);
  }

  lemma MembersUnfold(owner: Value, ms: seq<Member>, depth: nat)
    requires owner.Obj? && ms != [] && ms[0].value != Undefined && forall m | m in ms :: m in owner.members
    requires PrintMembers(owner, ms, depth).Ok?
    ensures ms[0].value < owner
    ensures Print(ms[0].value, depth + 1).Ok? && PrintMembers(owner, ms[1..], depth).Ok?
    ensures PrintMembers(owner, ms, depth).value
         == [MemberText(ms[0].key, Print(ms[0].value, depth + 1).value)] + PrintMembers(owner, ms[1..], depth).value
    ensures WellFormed(owner) ==> WellFormed(ms[0].value)
  {
    MemberIsSmaller(owner, ms[0]);
  }

  lemma MembersMeaningUnfold(owner: Value, ms: seq<Member>)
    requires owner.Obj? && ms != [] && ms[0].value != Undefined && forall m | m in ms :: m in owner.members
    ensures MembersMeaning(owner, ms) == map[ms[0].key := Meaning(ms[0].value)] + MembersMeaning(owner, ms[1..])
  {
  }

  /** Parsing the text of a value gives back its meaning and whatever followed. */
  lemma {:induction false} ValueRoundTrip(v: Value, depth: nat, rest: Text)
    requires Print(v, depth).Ok? && WellFormed(v) && Ends(rest)
    ensures Print(v, depth).value != [] && Print(v, depth).value[0] != 0x5D
    ensures ParseValue(Print(v, depth).value + rest) == Some((Meaning(v), rest))
    decreases v, 1, 0
  {
    match v
    case Null => LiteralStep(rest);
    case Bool(b) => LiteralStep(rest);
    case Num(n) =>
      NumberRoundTrip(n, rest);
      NumberDispatch(NumberText(n) + rest);
    case Str(s) => StringStep(s, rest);
    case Arr(items) => ArrayRoundTrip(v, depth, rest);
    case Obj(_, members) => ObjectRoundTrip(v, depth, rest);
  }

  lemma {:induction false} ArrayRoundTrip(v: Value, depth: nat, rest: Text)
    requires v.Arr? && Print(v, depth).Ok? && WellFormed(v)
    ensures ParseValue(Print(v, depth).value + rest) == Some((Meaning(v), rest))
    decreases v, 0, |v.items| + 1
  {
    var parts := PrintItems(v, v.items, depth).value;
    if v.items == [] {
      assert ([0x5B] + Join(parts) + [0x5D] + rest)[2..] == rest;
    } else {
      ItemsRoundTrip(v, v.items, depth, rest);
      ArrayStep(Join(parts), ItemsMeaning(v, v.items), rest);
    }
  }

  lemma {:induction false} ItemsRoundTrip(owner: Value, items: seq<Value>, depth: nat, rest: Text)
    requires owner.Arr? && WellFormed(owner) && items != [] && forall v | v in items :: v in owner.items
    requires PrintItems(owner, items, depth).Ok?
    ensures var text := Join(PrintItems(owner, items, depth).value) + ([0x5D] + rest);
            text[0] != 0x5D && ParseItems(text) == Some((ItemsMeaning(owner, items), rest))
    decreases owner, 0, |items|
  {
    ItemsUnfold(owner, items, depth);
    var part := Print(items[0], depth + 1).value;
    var others := PrintItems(owner, items[1..], depth).value;
    if |items| == 1 {
      ValueRoundTrip(items[0], depth + 1, [0x5D] + rest);
      LastItemText(part, others, Meaning(items[0]), rest);
      assert ItemsMeaning(owner, items) == [Meaning(items[0])];
    } else {
      ValueRoundTrip(items[0], depth + 1, [0x2C] + (Join(others) + ([0x5D] + rest)));
      ItemsRoundTrip(owner, items[1..], depth, rest);
      ItemText(part, others, Meaning(items[0]), ItemsMeaning(owner, items[1..]), rest);
    }
  }

  lemma ObjectUnfold(v: Value, depth: nat)
    requires v.Obj? && Print(v, depth).Ok? && WellFormed(v)
    ensures var sorted := SortMembers(v.members);
            && (forall m | m in sorted :: m in v.members)
            && PrintMembers(v, sorted, depth).Ok?
            && Print(v, depth).value == [0x7B] + Join(PrintMembers(v, sorted, depth).value) + [0x7D]
            && Meaning(v) == JObj(MembersMeaning(v, sorted))
  {
    SortedBelongs(v.members);
    MeaningOfPermutation(v, SortMembers(v.members), v.members);
  }

  lemma {:induction false} ObjectRoundTrip(v: Value, depth: nat, rest: Text)
    requires v.Obj? && Print(v, depth).Ok? && WellFormed(v)
    ensures ParseValue(Print(v, depth).value + rest) == Some((Meaning(v), rest))
    decreases v, 0, |v.members| + 1
  {
    ObjectUnfold(v, depth);
    var sorted := SortMembers(v.members);
    SameLength(v.members);
    var parts := PrintMembers(v, sorted, depth).value;
    if Defined(sorted) == [] {
      MeaningOfNothing(v, sorted);
      EmptyObjectStep(rest);
      assert parts == [];
      assert Print(v, depth).value == [0x7B, 0x7D];
    } else {
      MembersRoundTrip(v, sorted, depth, rest);
      ObjectStep(Join(parts), MembersMeaning(v, sorted), rest);
    }
  }

  lemma {:induction false} MembersRoundTrip(owner: Value, ms: seq<Member>, depth: nat, rest: Text)
    requires owner.Obj? && WellFormed(owner) && forall m | m in ms :: m in owner.members
    requires PrintMembers(owner, ms, depth).Ok? && Defined(ms) != []
    ensures var text := Join(PrintMembers(owner, ms, depth).value) + ([0x7D] + rest);
            text[0] == 0x22 && ParseMembers(text) == Some((MembersMeaning(owner, ms), rest))
    decreases owner, 0, |ms|, 1
  {
    if ms[0].value == Undefined {
      MembersRoundTrip(owner, ms[1..], depth, rest);
    } else {
      DefinedRoundTrip(owner, ms, depth, rest);
    }
  }

  lemma {:induction false} DefinedRoundTrip(owner: Value, ms: seq<Member>, depth: nat, rest: Text)
    requires owner.Obj? && WellFormed(owner) && forall m | m in ms :: m in owner.members
    requires PrintMembers(owner, ms, depth).Ok? && ms != [] && ms[0].value != Undefined
    ensures var text := Join(PrintMembers(owner, ms, depth).value) + ([0x7D] + rest);
            text[0] == 0x22 && ParseMembers(text) == Some((MembersMeaning(owner, ms), rest))
    decreases owner, 0, |ms|, 0
  {
    MembersUnfold(owner, ms, depth);
    MembersMeaningUnfold(owner, ms);
    var others := PrintMembers(owner, ms[1..], depth).value;
    var key, j := ms[0].key, Meaning(ms[0].value);
    var part := Print(ms[0].value, depth + 1).value;
    if Defined(ms[1..]) == [] {
      MeaningOfNothing(owner, ms[1..]);
      ValueRoundTrip(ms[0].value, depth + 1, [0x7D] + rest);
      LastMemberText(key, part, others, j, rest);
      assert map[key := j] + map[] == map[key := j];
    } else {
      ValueRoundTrip(ms[0].value, depth + 1, [0x2C] + (Join(others) + ([0x7D] + rest)));
      MembersRoundTrip(owner, ms[1..], depth, rest);
      MoreMembersText(key, part, others, j, MembersMeaning(owner, ms[1..]), rest);
    }
  }

  lemma {:induction false} MeaningOfNothing(owner: Value, ms: seq<Member>)
    requires owner.Obj? && forall m | m in ms :: m in owner.members
    requires Defined(ms) == []
    ensures MembersMeaning(owner, ms) == map[]
  {
    if ms != [] {
      MeaningOfNothing(owner, ms[1..]);
    }
  }

  lemma SameLength(ms: seq<Member>)
    ensures |SortMembers(ms)| == |ms|
  {
    assert |multiset(SortMembers(ms))| == |multiset(ms)|;
  }

  // ---------------------------------------------------------------- order of members is irrelevant

  /** With distinct keys, the meaning maps exactly the defined members. */
  lemma {:induction false} MembersMeaningAt(owner: Value, ms: seq<Member>)
    requires owner.Obj? && (forall m | m in ms :: m in owner.members) && DistinctKeys(ms)
    ensures forall m | m in ms && m.value != Undefined ::
              m.key in MembersMeaning(owner, ms) && MembersMeaning(owner, ms)[m.key] == Meaning(m.value)
    ensures forall k | k in MembersMeaning(owner, ms) ::
              exists m | m in ms && m.value != Undefined :: m.key == k
  {
    if ms != [] {
      MembersMeaningAt(owner, ms[1..]);
      var rest := MembersMeaning(owner, ms[1..]);
      assert ms[0].key !in rest;
      forall k | k in MembersMeaning(owner, ms)
        ensures exists m | m in ms && m.value != Undefined :: m.key == k
      {
        if k in rest {
          var m :| m in ms[1..] && m.value != Undefined && m.key == k;
          assert m in ms;
        } else {
          assert ms[0].key == k;
        }
      }
    }
  }

  lemma MeaningOfPermutation(owner: Value, a: seq<Member>, b: seq<Member>)
    requires owner.Obj? && (forall m | m in a :: m in owner.members) && (forall m | m in b :: m in owner.members)
    requires DistinctKeys(b) && multiset(a) == multiset(b)
    ensures DistinctKeys(a) && MembersMeaning(owner, a) == MembersMeaning(owner, b)
  {
    DistinctUnderPermutation(a, b);
    forall m ensures m in a <==> m in b {
      assert m in a <==> m in multiset(a);
      assert m in b <==> m in multiset(b);
    }
    MembersMeaningAt(owner, a);
    MembersMeaningAt(owner, b);
    var p, q := MembersMeaning(owner, a), MembersMeaning(owner, b);
    forall k ensures k in p <==> k in q
      ensures k in p ==> p[k] == q[k]
    {
      if k in p {
        var m :| m in a && m.value != Undefined && m.key == k;
        assert m in b;
      }
      if k in q {
        var m :| m in b && m.value != Undefined && m.key == k;
        assert m in a;
      }
    }
  }

  lemma DistinctUnderPermutation(a: seq<Member>, b: seq<Member>)
    requires DistinctKeys(b) && multiset(a) == multiset(b)
    ensures DistinctKeys(a)
  {
    forall i, j | 0 <= i < j < |a| ensures a[i].key != a[j].key {
      if a[i].key == a[j].key {
        assert a[i] in multiset(b) && a[j] in multiset(b);
        var x :| 0 <= x < |b| && b[x] == a[i];
        var y :| 0 <= y < |b| && b[y] == a[j];
        assert x == y;
        OccursTwice(a, i, j);
        OccursOnce(b, x);
      }
    }
  }

  lemma OccursTwice(a: seq<Member>, i: int, j: int)
    requires 0 <= i < j < |a| && a[i] == a[j]
    ensures multiset(a)[a[i]] >= 2
  {
    assert a == a[..j] + [a[j]] + a[j + 1..];
    assert a[i] in a[..j];
  }

  lemma OccursOnce(b: seq<Member>, x: int)
    requires DistinctKeys(b) && 0 <= x < |b|
    ensures multiset(b)[b[x]] == 1
  {
    assert b == b[..x] + [b[x]] + b[x + 1..];
    assert b[x] !in b[..x] && b[x] !in b[x + 1..];
  }

  /** The parser inverts the serializer. */
  lemma ParserInvertsSerializer(v: Value)
    requires WellFormed(v) && CanonicalizeJson(v).Ok?
    ensures ParseJson(CanonicalizeJson(v).value) == Some(Meaning(v))
  {
    var t := CanonicalizeJson(v).value;
    ValueRoundTrip(v, 0, []);
    assert t + [] == t;
  }
}
