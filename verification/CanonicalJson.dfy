/**
 RFC 8785 serialization of a JSON value, and the message that an attestation signs.

 A text is a sequence of UTF-16 code units, as a JavaScript string is. The serializer
 is proved against an independent parser and against the unordered meaning of a value.
 */
module CanonicalJson {
  import opened Results
  import opened Decimals

  newtype Unit = u: int | 0 <= u < 0x10000
  type Text = seq<Unit>
  type SafeInteger = n: int | -0x1F_FFFF_FFFF_FFFF <= n <= 0x1F_FFFF_FFFF_FFFF

  /** A JavaScript value handed to the serializer. `Other` is a bigint, symbol or function. */
  datatype Value =
    | Null
    | Bool(b: bool)
    | Num(n: SafeInteger)
    | NonFinite
    | Str(s: Text)
    | Arr(items: seq<Value>)
    | Obj(plain: bool, members: seq<Member>)
    | Undefined
    | Other

  /** A property of an object; `members` lists them in the order of Object.keys. */
  datatype Member = Member(key: Text, value: Value)

  datatype Fault = TooDeep | LoneSurrogate | LoneSurrogateInKey | NotFinite | NotPlainObject | NotJson

  const MAX_DEPTH := 64

  const NULL: Text := [0x6E, 0x75, 0x6C, 0x6C]
  const TRUE: Text := [0x74, 0x72, 0x75, 0x65]
  const FALSE: Text := [0x66, 0x61, 0x6C, 0x73, 0x65]

  // ---------------------------------------------------------------- strings

  predicate High(u: Unit) { 0xD800 <= u <= 0xDBFF }

  predicate Low(u: Unit) { 0xDC00 <= u <= 0xDFFF }

  /** The regular expression LONE_SURROGATE finds a match at position i. */
  predicate LoneAt(s: Text, i: nat)
    requires i < |s|
  {
    || (High(s[i]) && !(i + 1 < |s| && Low(s[i + 1])))
    || (Low(s[i]) && !(i > 0 && High(s[i - 1])))
  }

  predicate HasLoneSurrogate(s: Text) {
    exists i: nat | i < |s| :: LoneAt(s, i)
  }

  function HexDigit(d: Unit): Unit
    requires d < 16
  {
    if d < 10 then 0x30 + d else 0x57 + d
  }

  function EscapeUnit(u: Unit): Text {
    if u == 0x22 then [0x5C, 0x22]
    else if u == 0x5C then [0x5C, 0x5C]
    else if u == 0x08 then [0x5C, 0x62]
    else if u == 0x09 then [0x5C, 0x74]
    else if u == 0x0A then [0x5C, 0x6E]
    else if u == 0x0C then [0x5C, 0x66]
    else if u == 0x0D then [0x5C, 0x72]
    else if u < 0x20 then [0x5C, 0x75, 0x30, 0x30, HexDigit(u / 16), HexDigit(u % 16)]
    else [u]
  }

  function Escape(s: Text): Text {
    if s == [] then [] else EscapeUnit(s[0]) + Escape(s[1..])
  }

  function Quote(s: Text): Text {
    [0x22] + Escape(s) + [0x22]
  }

  function DigitUnit(d: Digit): Unit {
    0x30 + d as Unit
  }

  function DigitUnits(ds: seq<Digit>): Text {
    if ds == [] then [] else [DigitUnit(ds[0])] + DigitUnits(ds[1..])
  }

  function NumberText(n: int): Text {
    if n < 0 then [0x2D] + DigitUnits(Digits(-n)) else DigitUnits(Digits(n))
  }

  // ---------------------------------------------------------------- key order

  /** JavaScript's `<` on strings: by UTF-16 code unit. */
  predicate Less(a: Text, b: Text) {
    b != [] && (a == [] || a[0] < b[0] || (a[0] == b[0] && Less(a[1..], b[1..])))
  }

  function InsertMember(m: Member, sorted: seq<Member>): (r: seq<Member>)
    ensures multiset(r) == multiset{m} + multiset(sorted)
  {
    if sorted == [] || !Less(sorted[0].key, m.key) then [m] + sorted
    else
      assert sorted == [sorted[0]] + sorted[1..];
      [sorted[0]] + InsertMember(m, sorted[1..])
  }

  function SortMembers(ms: seq<Member>): (r: seq<Member>)
    ensures multiset(r) == multiset(ms)
  {
    if ms == [] then []
    else
      assert ms == [ms[0]] + ms[1..];
      InsertMember(ms[0], SortMembers(ms[1..]))
  }

  // ---------------------------------------------------------------- serializer

  function Join(parts: seq<Text>): Text {
    if parts == [] then []
    else if |parts| == 1 then parts[0]
    else parts[0] + [0x2C] + Join(parts[1..])
  }

  /** The text of a value nested `depth` levels deep. */
  function Print(v: Value, depth: nat): Result<Text, Fault>
    decreases v, 1, 0
  {
    if depth > MAX_DEPTH then Err(TooDeep)
    else
      match v
      case Null => Ok(NULL)
      case Bool(b) => Ok(if b then TRUE else FALSE)
      case Str(s) => if HasLoneSurrogate(s) then Err(LoneSurrogate) else Ok(Quote(s))
      case Num(n) => Ok(NumberText(n))
      case NonFinite => Err(NotFinite)
      case Arr(items) =>
        (match PrintItems(v, items, depth)
         case Ok(parts) => Ok([0x5B] + Join(parts) + [0x5D])
         case Err(e) => Err(e))
      case Obj(plain, members) =>
        if !plain then Err(NotPlainObject)
        else
          SortedBelongs(members);
          (match PrintMembers(v, SortMembers(members), depth)
           case Ok(parts) => Ok([0x7B] + Join(parts) + [0x7D])
           case Err(e) => Err(e))
      case Undefined => Err(NotJson)
      case Other => Err(NotJson)
  }

  function PrintItems(owner: Value, items: seq<Value>, depth: nat): (r: Result<seq<Text>, Fault>)
    requires owner.Arr? && forall v | v in items :: v in owner.items
    ensures r.Ok? ==> |r.value| == |items|
    decreases owner, 0, |items|
  {
    if items == [] then Ok([])
    else
      ItemIsSmaller(owner, items[0]);
      match Print(items[0], depth + 1)
      case Err(e) => Err(e)
      case Ok(part) =>
        match PrintItems(owner, items[1..], depth)
        case Err(e) => Err(e)
        case Ok(parts) => Ok([part] + parts)
  }

  function PrintMembers(owner: Value, ms: seq<Member>, depth: nat): (r: Result<seq<Text>, Fault>)
    requires owner.Obj? && forall m | m in ms :: m in owner.members
    ensures r.Ok? ==> |r.value| == |Defined(ms)|
    decreases owner, 0, |ms|
  {
    if ms == [] then Ok([])
    else if ms[0].value == Undefined then PrintMembers(owner, ms[1..], depth)
    else if HasLoneSurrogate(ms[0].key) then Err(LoneSurrogateInKey)
    else
      MemberIsSmaller(owner, ms[0]);
      match Print(ms[0].value, depth + 1)
      case Err(e) => Err(e)
      case Ok(part) =>
        match PrintMembers(owner, ms[1..], depth)
        case Err(e) => Err(e)
        case Ok(parts) => Ok([Quote(ms[0].key) + [0x3A] + part] + parts)
  }

  lemma ItemIsSmaller(owner: Value, v: Value)
    requires owner.Arr? && v in owner.items
    ensures v < owner
  {
    var i :| 0 <= i < |owner.items| && owner.items[i] == v;
    assert owner.items[i] < owner;
  }

  lemma MemberIsSmaller(owner: Value, m: Member)
    requires owner.Obj? && m in owner.members
    ensures m.value < owner
  {
    var i :| 0 <= i < |owner.members| && owner.members[i] == m;
    assert owner.members[i].value < owner;
  }

  /** The members whose value is not undefined. */
  function Defined(ms: seq<Member>): seq<Member> {
    if ms == [] then []
    else if ms[0].value == Undefined then Defined(ms[1..])
    else [ms[0]] + Defined(ms[1..])
  }

  lemma SortedBelongs(ms: seq<Member>)
    ensures forall m | m in SortMembers(ms) :: m in ms
  {
    forall m | m in SortMembers(ms) ensures m in ms {
      assert m in multiset(SortMembers(ms));
    }
  }

  function CanonicalizeJson(v: Value): Result<Text, Fault> {
    Print(v, 0)
  }

  // The same serializer in the source's own form: two loops that push onto `parts`.

  method Serialize(v: Value, depth: nat) returns (r: Result<Text, Fault>)
    ensures r == Print(v, depth)
    decreases v, 1
  {
    if depth > MAX_DEPTH {
      return Err(TooDeep);
    }
    match v
    case Null => return Ok(NULL);
    case Bool(b) => return Ok(if b then TRUE else FALSE);
    case Str(s) => return if HasLoneSurrogate(s) then Err(LoneSurrogate) else Ok(Quote(s));
    case Num(n) => return Ok(NumberText(n));
    case NonFinite => return Err(NotFinite);
    case Arr(_) => r := SerializeArray(v, depth);
    case Obj(_, _) => r := SerializeObject(v, depth);
    case Undefined => return Err(NotJson);
    case Other => return Err(NotJson);
  }

  method SerializeArray(v: Value, depth: nat) returns (r: Result<Text, Fault>)
    requires v.Arr? && depth <= MAX_DEPTH
    ensures r == Print(v, depth)
    decreases v, 0
  {
    var parts: seq<Text> := [];
    var i := 0;
    assert v.items[0..] == v.items;
    PrefixedNone(PrintItems(v, v.items, depth));
    while i < |v.items|
      invariant 0 <= i <= |v.items|
      invariant PrintItems(v, v.items, depth) == Prefixed(parts, PrintItems(v, v.items[i..], depth))
    {
      ItemIsSmaller(v, v.items[i]);
      assert v.items[i..][1..] == v.items[i + 1..];
      var part := Serialize(v.items[i], depth + 1);
      if part.Err? {
        return Err(part.error);
      }
      PrefixedOne(parts, part.value, PrintItems(v, v.items[i + 1..], depth));
      parts := parts + [part.value];
      i := i + 1;
    }
    assert parts + [] == parts;
    return Ok([0x5B] + Join(parts) + [0x5D]);
  }

  method SerializeObject(v: Value, depth: nat) returns (r: Result<Text, Fault>)
    requires v.Obj? && depth <= MAX_DEPTH
    ensures r == Print(v, depth)
    decreases v, 0
  {
    if !v.plain {
      return Err(NotPlainObject);
    }
    var sorted := SortMembers(v.members);
    SortedBelongs(v.members);
    var parts: seq<Text> := [];
    var i := 0;
    assert sorted[0..] == sorted;
    PrefixedNone(PrintMembers(v, sorted, depth));
    while i < |sorted|
      invariant 0 <= i <= |sorted|
      invariant PrintMembers(v, sorted, depth) == Prefixed(parts, PrintMembers(v, sorted[i..], depth))
    {
      var m := sorted[i];
      MemberIsSmaller(v, m);
      assert sorted[i..][1..] == sorted[i + 1..];
      if m.value != Undefined {
        if HasLoneSurrogate(m.key) {
          return Err(LoneSurrogateInKey);
        }
        var part := Serialize(m.value, depth + 1);
        if part.Err? {
          return Err(part.error);
        }
        PrefixedOne(parts, Quote(m.key) + [0x3A] + part.value, PrintMembers(v, sorted[i + 1..], depth));
        parts := parts + [Quote(m.key) + [0x3A] + part.value];
      }
      i := i + 1;
    }
    assert parts + [] == parts;
    return Ok([0x7B] + Join(parts) + [0x7D]);
  }

  function Prefixed(done: seq<Text>, rest: Result<seq<Text>, Fault>): Result<seq<Text>, Fault> {
    match rest
    case Ok(parts) => Ok(done + parts)
    case Err(e) => Err(e)
  }

  lemma PrefixedNone(r: Result<seq<Text>, Fault>)
    ensures Prefixed([], r) == r
  {
    if r.Ok? {
      assert [] + r.value == r.value;
    }
  }

  lemma PrefixedOne(done: seq<Text>, part: Text, rest: Result<seq<Text>, Fault>)
    ensures Prefixed(done + [part], rest) == Prefixed(done, Prefixed([part], rest))
  {
    if rest.Ok? {
      assert done + [part] + rest.value == done + ([part] + rest.value);
    }
  }
}
