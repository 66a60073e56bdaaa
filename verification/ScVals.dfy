/** Contract values: encoding directed by a type specification, and the decoder to plain JSON-like values. */
module ScVals {
  import opened DecimalText
  import opened Limbs
  import opened Results

  newtype Byte = x: int | 0 <= x < 256

  /** An address is given by its strkey text. */
  datatype ScVal =
    | ScBool(b: bool)
    | ScVoid
    | ScU32(n: int)
    | ScI32(n: int)
    | ScU64(n: int)
    | ScI64(n: int)
    | ScTimepoint(n: int)
    | ScDuration(n: int)
    | ScU128(parts: Parts128)
    | ScI128(parts: Parts128)
    | ScU256(limbs: Parts256)
    | ScI256(limbs: Parts256)
    | ScBytes(bytes: seq<Byte>)
    | ScAddress(strkey: string)
    | ScString(s: string)
    | ScSymbol(s: string)
    | ScVec(items: seq<ScVal>)
    | ScMap(entries: seq<ScEntry>)
    | ScOther(name: string)

  datatype ScEntry = ScEntry(key: ScVal, val: ScVal)

  datatype Js =
    | Null
    | Bool(b: bool)
    | Number(n: int)
    | BigInt(n: int)
    | Str(s: string)
    | Bytes(bytes: seq<Byte>)
    | AddressOf(strkey: string)
    | Arr(items: seq<Js>)
    | MapOf(entries: seq<JsEntry>)

  datatype JsEntry = JsEntry(key: Js, val: Js)

  datatype Spec =
    | TAny
    | TBool
    | TVoid
    | TU32
    | TI32
    | TU64
    | TI64
    | TTimepoint
    | TDuration
    | TU128
    | TI128
    | TU256
    | TI256
    | TBytes
    | TAddress
    | TString
    | TSymbol
    | TVec(element: Spec)
    | TMap(key: Spec, value: Spec)
    | TTuple(values: seq<Spec>)
    | TOption(of: Spec)

  /**
   The language's coercions, the bytes of a text and of an array, which texts are strkeys,
   and the conversion that guesses a type when none is given.
   */
  datatype Host = Host(
    truthy: Js -> bool,
    number: Js -> Option<int>,
    bigInt: Js -> Option<int>,
    text: Js -> string,
    utf8: string -> seq<Byte>,
    bytesOf: seq<Js> -> seq<Byte>,
    isStrkey: string -> bool,
    infer: Js -> Result<ScVal, Thrown>)

  ghost predicate Faithful(h: Host) {
    && (forall b :: h.truthy(Bool(b)) == b)
    && (forall n :: h.number(Number(n)) == Some(n))
    && (forall n :: h.bigInt(BigInt(n)) == Some(n))
    && (forall s :: h.text(Str(s)) == s)
  }

  // ---------------------------------------------------------------- hexadecimal text

  predicate IsHexDigit(c: char) {
    '0' <= c <= '9' || 'a' <= c <= 'f' || 'A' <= c <= 'F'
  }

  function HexDigit(n: int): (c: char)
    requires 0 <= n < 16
    ensures IsHexDigit(c)
  {
    if n < 10 then '0' + n as char else 'a' + (n - 10) as char
  }

  function HexValue(c: char): (n: int)
    requires IsHexDigit(c)
    ensures 0 <= n < 16
  {
    if c <= '9' then (c - '0') as int
    else if c <= 'F' then 10 + (c - 'A') as int
    else 10 + (c - 'a') as int
  }

  /** An even number of hexadecimal digits, of either case. */
  predicate IsHex(s: string) {
    |s| % 2 == 0 && forall i | 0 <= i < |s| :: IsHexDigit(s[i])
  }

  function Hex(bytes: seq<Byte>): string {
    if bytes == [] then ""
    else [HexDigit(bytes[0] as int / 16), HexDigit(bytes[0] as int % 16)] + Hex(bytes[1..])
  }

  function FromHex(s: string): seq<Byte>
    requires IsHex(s)
  {
    if s == "" then [] else [(HexValue(s[0]) * 16 + HexValue(s[1])) as Byte] + FromHex(s[2..])
  }

  lemma {:induction false} HexRoundTrip(bytes: seq<Byte>)
    ensures IsHex(Hex(bytes)) && FromHex(Hex(bytes)) == bytes
  {
    if bytes != [] {
      HexRoundTrip(bytes[1..]);
      var s := Hex(bytes);
      assert s[2..] == Hex(bytes[1..]);
      assert forall i | 2 <= i < |s| :: s[i] == s[2..][i - 2];
      assert (HexValue(s[0]) * 16 + HexValue(s[1])) as Byte == bytes[0];
    }
  }

  lemma HexInjective(a: seq<Byte>, b: seq<Byte>)
    requires Hex(a) == Hex(b)
    ensures a == b
  {
    HexRoundTrip(a);
    HexRoundTrip(b);
  }

  // ---------------------------------------------------------------- encoding

  function EncodeWide(t: Spec, n: int): Result<ScVal, Thrown>
    requires t.TU64? || t.TI64? || t.TTimepoint? || t.TDuration? || t.TU128? || t.TI128? || t.TU256? || t.TI256?
  {
    match t
    case TU64 => Ok(ScU64(n))
    case TI64 => Ok(ScI64(n))
    case TTimepoint => Ok(ScTimepoint(n))
    case TDuration => Ok(ScDuration(n))
    case TU128 => (match ToU128(n) case Ok(p) => Ok(ScU128(p)) case Err(e) => Err(e))
    case TI128 => Ok(ScI128(Split128(n)))
    case TU256 => (match ToU256(n) case Ok(p) => Ok(ScU256(p)) case Err(e) => Err(e))
    case TI256 => Ok(ScI256(Split256(n)))
  }

  predicate IsPair(v: Js) {
    v.Arr? && |v.items| == 2
  }

  function EncodeBytes(v: Js, h: Host): Result<ScVal, Thrown> {
    match v
    case Bytes(bytes) => Ok(ScBytes(bytes))
    case Str(s) => Ok(ScBytes(if IsHex(s) then FromHex(s) else h.utf8(s)))
    case Arr(items) => Ok(ScBytes(h.bytesOf(items)))
    case _ => Err(NotBytes)
  }

  function EncodeAddress(v: Js, h: Host): Result<ScVal, Thrown> {
    match v
    case AddressOf(strkey) => Ok(ScAddress(strkey))
    case Str(s) => if h.isStrkey(s) then Ok(ScAddress(s)) else Err(NotAnAddress)
    case _ => Err(NotAnAddress)
  }

  function Encode(v: Js, t: Spec, h: Host): Result<ScVal, Thrown>
    decreases v, t
  {
    match t
    case TAny => h.infer(v)
    case TBool => Ok(ScBool(h.truthy(v)))
    case TVoid => Ok(ScVoid)
    case TU32 | TI32 =>
      (match h.number(v)
       case None => Err(NotConvertible)
       case Some(n) => Ok(if t.TU32? then ScU32(n) else ScI32(n)))
    case TBytes => EncodeBytes(v, h)
    case TAddress => EncodeAddress(v, h)
    case TString => Ok(ScString(h.text(v)))
    case TSymbol => Ok(ScSymbol(h.text(v)))
    case TVec(element) =>
      if !v.Arr? then Err(NotAnArray)
      else
        (match EncodeEach(v.items, element, h)
         case Ok(items) => Ok(ScVec(items))
         case Err(e) => Err(e))
    case TMap(key, value) =>
      if v.MapOf? then
        (match EncodeEntries(v.entries, key, value, h)
         case Ok(entries) => Ok(ScMap(entries))
         case Err(e) => Err(e))
      else if v.Arr? && forall p | p in v.items :: IsPair(p) then
        (match EncodePairs(v.items, key, value, h)
         case Ok(entries) => Ok(ScMap(entries))
         case Err(e) => Err(e))
      else Err(NotAMap)
    case TTuple(values) =>
      if !v.Arr? then Err(NotAnArray)
      else
        (match EncodeTuple(v.items, values, h)
         case Ok(items) => Ok(ScVec(items))
         case Err(e) => Err(e))
    case TOption(of) => if v.Null? then Ok(ScVoid) else Encode(v, of, h)
    case _ =>
      (match h.bigInt(v)
       case None => Err(NotConvertible)
       case Some(n) => EncodeWide(t, n))
  }

  function EncodeEach(vs: seq<Js>, element: Spec, h: Host): Result<seq<ScVal>, Thrown>
    decreases vs
  {
    if vs == [] then Ok([]) else Cons(Encode(vs[0], element, h), EncodeEach(vs[1..], element, h))
  }

  /** Elements beyond the listed types are encoded without one. */
  function EncodeTuple(vs: seq<Js>, types: seq<Spec>, h: Host): Result<seq<ScVal>, Thrown>
    decreases vs
  {
    if vs == [] then Ok([])
    else if types == [] then Cons(Encode(vs[0], TAny, h), EncodeTuple(vs[1..], [], h))
    else Cons(Encode(vs[0], types[0], h), EncodeTuple(vs[1..], types[1..], h))
  }

  function EncodeEntries(es: seq<JsEntry>, key: Spec, value: Spec, h: Host): Result<seq<ScEntry>, Thrown>
    decreases es
  {
    if es == [] then Ok([]) else Cons(EncodeEntry(es[0], key, value, h), EncodeEntries(es[1..], key, value, h))
  }

  function EncodeEntry(e: JsEntry, key: Spec, value: Spec, h: Host): Result<ScEntry, Thrown>
    decreases e
  {
    Entry(Encode(e.key, key, h), Encode(e.val, value, h))
  }

  function EncodePairs(ps: seq<Js>, key: Spec, value: Spec, h: Host): Result<seq<ScEntry>, Thrown>
    requires forall p | p in ps :: IsPair(p)
    decreases ps
  {
    if ps == [] then Ok([])
    else
      assert IsPair(ps[0]);
      Cons(Entry(Encode(ps[0].items[0], key, h), Encode(ps[0].items[1], value, h)), EncodePairs(ps[1..], key, value, h))
  }

  /** The first exception wins: a list is built element by element, an entry key first. */
  function Cons<T, E>(first: Result<T, E>, rest: Result<seq<T>, E>): Result<seq<T>, E> {
    if first.Err? then Err(first.error) else if rest.Err? then rest else Ok([first.value] + rest.value)
  }

  function Entry(key: Result<ScVal, Thrown>, val: Result<ScVal, Thrown>): Result<ScEntry, Thrown> {
    if key.Err? then Err(key.error) else if val.Err? then Err(val.error) else Ok(ScEntry(key.value, val.value))
  }

  // ---------------------------------------------------------------- decoding

  datatype Decoded =
    | DNull
    | DBool(b: bool)
    | DNumber(n: int)
    | DString(s: string)
    | DArray(items: seq<Decoded>)
    | DMap(entries: seq<DEntry>)

  datatype DEntry = DEntry(key: Decoded, value: Decoded)

  datatype Fault =
    | Unsupported
    | InVec(i: nat, inner: Fault)
    | InKey(i: nat, inner: Fault)
    | InValue(i: nat, inner: Fault)

  function DecodeScalar(sc: ScVal): Result<Decoded, Fault> {
    match sc
    case ScBool(b) => Ok(DBool(b))
    case ScVoid => Ok(DNull)
    case ScU32(n) => Ok(DNumber(n))
    case ScI32(n) => Ok(DNumber(n))
    case ScU64(n) => Ok(DString(IntText(n)))
    case ScI64(n) => Ok(DString(IntText(n)))
    case ScU128(p) => Ok(DString(IntText(Join128(p))))
    case ScI128(p) => Ok(DString(IntText(Join128(p))))
    case ScU256(p) => Ok(DString(IntText(Join256(p))))
    case ScI256(p) => Ok(DString(IntText(Join256(p))))
    case ScBytes(bytes) => Ok(DString(Hex(bytes)))
    case ScAddress(strkey) => Ok(DString(strkey))
    case ScString(s) => Ok(DString(s))
    case ScSymbol(s) => Ok(DString(s))
    case _ => Err(Unsupported)
  }

  function Decode(sc: ScVal): Result<Decoded, Fault>
    decreases sc
  {
    match sc
    case ScVec(items) =>
      (match DecodeItems(items, 0) case Ok(ds) => Ok(DArray(ds)) case Err(e) => Err(e))
    case ScMap(entries) =>
      (match DecodeEntries(entries, 0) case Ok(ds) => Ok(DMap(ds)) case Err(e) => Err(e))
    case _ => DecodeScalar(sc)
  }

  function DecodeItems(items: seq<ScVal>, i: nat): Result<seq<Decoded>, Fault>
    decreases items
  {
    if items == [] then Ok([]) else Cons(At(i, Decode(items[0])), DecodeItems(items[1..], i + 1))
  }

  function At(i: nat, r: Result<Decoded, Fault>): Result<Decoded, Fault> {
    if r.Err? then Err(InVec(i, r.error)) else r
  }

  function DecodeEntries(entries: seq<ScEntry>, i: nat): Result<seq<DEntry>, Fault>
    decreases entries
  {
    if entries == [] then Ok([]) else Cons(DecodeEntry(entries[0], i), DecodeEntries(entries[1..], i + 1))
  }

  function DecodeEntry(e: ScEntry, i: nat): Result<DEntry, Fault>
    decreases e
  {
    EntryAt(i, Decode(e.key), Decode(e.val))
  }

  function EntryAt(i: nat, key: Result<Decoded, Fault>, val: Result<Decoded, Fault>): Result<DEntry, Fault> {
    if key.Err? then Err(InKey(i, key.error))
    else if val.Err? then Err(InValue(i, val.error))
    else Ok(DEntry(key.value, val.value))
  }

  function Prepend<T>(ts: seq<T>, r: Result<seq<T>, Fault>): Result<seq<T>, Fault> {
    match r case Ok(rest) => Ok(ts + rest) case Err(e) => Err(e)
  }

  lemma ConsPrepends<T>(t: T, r: Result<seq<T>, Fault>)
    ensures Cons(Ok(t), r) == Prepend([t], r)
  {
  }

  lemma PrependTwice<T>(ts: seq<T>, us: seq<T>, r: Result<seq<T>, Fault>)
    ensures Prepend(ts, Prepend(us, r)) == Prepend(ts + us, r)
    ensures Prepend([], r) == r
  {
    if r.Ok? {
      assert ts + (us + r.value) == ts + us + r.value;
      assert [] + r.value == r.value;
    }
  }

  /** The decoder in the source's own form: one pass over a vector or a map, stopping at the first fault. */
  method DecodeXdrScVal(sc: ScVal) returns (r: Result<Decoded, Fault>)
    ensures r == Decode(sc)
    decreases sc
  {
    if sc.ScVec? {
      var result := DecodeVec(sc.items);
      r := if result.Ok? then Ok(DArray(result.value)) else Err(result.error);
    } else if sc.ScMap? {
      var result := DecodeMap(sc.entries);
      r := if result.Ok? then Ok(DMap(result.value)) else Err(result.error);
    } else {
      r := DecodeScalar(sc);
    }
  }

  method DecodeVec(items: seq<ScVal>) returns (r: Result<seq<Decoded>, Fault>)
    ensures r == DecodeItems(items, 0)
    decreases items
  {
    var result: seq<Decoded> := [];
    assert items[0..] == items;
    PrependTwice<Decoded>([], [], DecodeItems(items, 0));
    for i := 0 to |items|
      invariant DecodeItems(items, 0) == Prepend(result, DecodeItems(items[i..], i))
    {
      assert items[i..][0] == items[i] && items[i..][1..] == items[i + 1..];
      var d := DecodeXdrScVal(items[i]);
      if d.Err? {
        return Err(InVec(i, d.error));
      }
      ConsPrepends(d.value, DecodeItems(items[i + 1..], i + 1));
      PrependTwice(result, [d.value], DecodeItems(items[i + 1..], i + 1));
      result := result + [d.value];
    }
    assert result + [] == result;
    return Ok(result);
  }

  method DecodeMap(entries: seq<ScEntry>) returns (r: Result<seq<DEntry>, Fault>)
    ensures r == DecodeEntries(entries, 0)
    decreases entries
  {
    var result: seq<DEntry> := [];
    assert entries[0..] == entries;
    PrependTwice<DEntry>([], [], DecodeEntries(entries, 0));
    for i := 0 to |entries|
      invariant DecodeEntries(entries, 0) == Prepend(result, DecodeEntries(entries[i..], i))
    {
      assert entries[i..][0] == entries[i] && entries[i..][1..] == entries[i + 1..];
      var d := DecodeOneEntry(entries[i], i);
      if d.Err? {
        return Err(d.error);
      }
      ConsPrepends(d.value, DecodeEntries(entries[i + 1..], i + 1));
      PrependTwice(result, [d.value], DecodeEntries(entries[i + 1..], i + 1));
      result := result + [d.value];
    }
    assert result + [] == result;
    return Ok(result);
  }

  method DecodeOneEntry(e: ScEntry, i: nat) returns (r: Result<DEntry, Fault>)
    ensures r == DecodeEntry(e, i)
    decreases e
  {
    var k := DecodeXdrScVal(e.key);
    var v := DecodeXdrScVal(e.val);
    if k.Err? {
      return Err(InKey(i, k.error));
    }
    if v.Err? {
      return Err(InValue(i, v.error));
    }
    return Ok(DEntry(k.value, v.value));
  }

  // ---------------------------------------------------------------- what decodes

  /** The decoder knows every value in it: instants, durations and the rarer kinds are refused. */
  predicate Readable(sc: ScVal)
    decreases sc
  {
    match sc
    case ScTimepoint(_) | ScDuration(_) | ScOther(_) => false
    case ScVec(items) => forall x | x in items :: Readable(x)
    case ScMap(entries) => forall e | e in entries :: Readable(e.key) && Readable(e.val)
    case _ => true
  }

  lemma {:induction false} DecodedExactly(sc: ScVal)
    ensures Decode(sc).Ok? <==> Readable(sc)
    decreases sc
  {
    match sc
    case ScVec(items) => ItemsDecodedExactly(items, 0);
    case ScMap(entries) => EntriesDecodedExactly(entries, 0);
    case _ =>
  }

  lemma {:induction false} ItemsDecodedExactly(items: seq<ScVal>, i: nat)
    ensures DecodeItems(items, i).Ok? <==> forall x | x in items :: Readable(x)
    decreases items
  {
    if items != [] {
      DecodedExactly(items[0]);
      ItemsDecodedExactly(items[1..], i + 1);
      assert items == [items[0]] + items[1..];
    }
  }

  lemma {:induction false} EntriesDecodedExactly(entries: seq<ScEntry>, i: nat)
    ensures DecodeEntries(entries, i).Ok? <==> forall e | e in entries :: Readable(e.key) && Readable(e.val)
    decreases entries
  {
    if entries != [] {
      EntryDecodedExactly(entries[0], i);
      EntriesDecodedExactly(entries[1..], i + 1);
      assert entries == [entries[0]] + entries[1..];
    }
  }

  lemma {:induction false} EntryDecodedExactly(e: ScEntry, i: nat)
    ensures DecodeEntry(e, i).Ok? <==> Readable(e.key) && Readable(e.val)
    decreases e
  {
    DecodedExactly(e.key);
    DecodedExactly(e.val);
  }

  // ---------------------------------------------------------------- values of a type

  predicate InU32(n: int) {
    0 <= n < 0x1_0000_0000
  }

  predicate InI32(n: int) {
    -0x8000_0000 <= n < 0x8000_0000
  }

  /** The value belongs to the type: right shape everywhere, every integer in its range. */
  predicate Typed(v: Js, t: Spec)
    decreases v, t
  {
    match t
    case TAny => false
    case TBool => v.Bool?
    case TVoid => v.Null?
    case TU32 => v.Number? && InU32(v.n)
    case TI32 => v.Number? && InI32(v.n)
    case TU64 | TTimepoint | TDuration => v.BigInt? && FitsUnsigned(v.n)
    case TI64 => v.BigInt? && FitsSigned(v.n)
    case TU128 => v.BigInt? && InU128(v.n)
    case TI128 => v.BigInt? && InI128(v.n)
    case TU256 => v.BigInt? && InU256(v.n)
    case TI256 => v.BigInt? && InI256(v.n)
    case TBytes => v.Bytes?
    case TAddress => v.AddressOf?
    case TString | TSymbol => v.Str?
    case TVec(element) => v.Arr? && forall x | x in v.items :: Typed(x, element)
    case TMap(key, value) => v.MapOf? && forall e | e in v.entries :: TypedEntry(e, key, value)
    case TTuple(values) =>
      v.Arr? && |v.items| == |values| && forall i | 0 <= i < |values| :: Typed(v.items[i], values[i])
    case TOption(of) => v.Null? || Typed(v, of)
  }

  predicate TypedEntry(e: JsEntry, key: Spec, value: Spec)
    decreases e
  {
    Typed(e.key, key) && Typed(e.val, value)
  }

  /** No instant or duration anywhere in the type, which the decoder would refuse. */
  predicate NoInstants(t: Spec) {
    match t
    case TTimepoint | TDuration => false
    case TVec(element) => NoInstants(element)
    case TMap(key, value) => NoInstants(key) && NoInstants(value)
    case TTuple(values) => forall u | u in values :: NoInstants(u)
    case TOption(of) => NoInstants(of)
    case _ => true
  }

  /** What a reader sees of a value: wide integers as decimal text, bytes as hexadecimal, the rest in its own shape. */
  function Plain(v: Js): Decoded
    decreases v
  {
    match v
    case Null => DNull
    case Bool(b) => DBool(b)
    case Number(n) => DNumber(n)
    case BigInt(n) => DString(IntText(n))
    case Str(s) => DString(s)
    case Bytes(bytes) => DString(Hex(bytes))
    case AddressOf(strkey) => DString(strkey)
    case Arr(items) => DArray(PlainItems(items))
    case MapOf(entries) => DMap(PlainEntries(entries))
  }

  function PlainItems(vs: seq<Js>): seq<Decoded>
    decreases vs
  {
    if vs == [] then [] else [Plain(vs[0])] + PlainItems(vs[1..])
  }

  function PlainEntries(es: seq<JsEntry>): seq<DEntry>
    decreases es
  {
    if es == [] then [] else [PlainEntry(es[0])] + PlainEntries(es[1..])
  }

  function PlainEntry(e: JsEntry): DEntry
    decreases e
  {
    DEntry(Plain(e.key), Plain(e.val))
  }

  /** Every limb of every integer fits the slot it is put in. */
  predicate SlotsFit(sc: ScVal)
    decreases sc
  {
    match sc
    case ScU32(n) => InU32(n)
    case ScI32(n) => InI32(n)
    case ScU64(n) => FitsUnsigned(n)
    case ScTimepoint(n) => FitsUnsigned(n)
    case ScDuration(n) => FitsUnsigned(n)
    case ScI64(n) => FitsSigned(n)
    case ScU128(p) => FitsU128(p)
    case ScI128(p) => FitsI128(p)
    case ScU256(p) => FitsU256(p)
    case ScI256(p) => FitsI256(p)
    case ScVec(items) => forall x | x in items :: SlotsFit(x)
    case ScMap(entries) => forall e | e in entries :: EntryFits(e)
    case _ => true
  }

  predicate EntryFits(e: ScEntry)
    decreases e
  {
    SlotsFit(e.key) && SlotsFit(e.val)
  }

  // ---------------------------------------------------------------- the round trip

  /** The encoding is defined, fits its slots, and decodes to the value as a reader should see it. */
  ghost predicate Survives(v: Js, t: Spec, h: Host) {
    var r := Encode(v, t, h);
    r.Ok? && SlotsFit(r.value) && Decode(r.value) == Ok(Plain(v))
  }

  lemma WideRoundTrip(n: int, t: Spec)
    requires Typed(BigInt(n), t) && !t.TOption? && NoInstants(t)
    ensures var r := EncodeWide(t, n);
            r.Ok? && SlotsFit(r.value) && Decode(r.value) == Ok(DString(IntText(n)))
  {
    if t.TU128? || t.TI128? {
      WideRoundTrip128(n, t);
    } else if t.TU256? || t.TI256? {
      WideRoundTrip256(n, t);
    }
  }

  lemma WideRoundTrip128(n: int, t: Spec)
    requires (t.TU128? && InU128(n)) || (t.TI128? && InI128(n))
    ensures EncodeWide(t, n) == Ok(if t.TU128? then ScU128(Split128(n)) else ScI128(Split128(n)))
    ensures SlotsFit(EncodeWide(t, n).value) && Decode(EncodeWide(t, n).value) == Ok(DString(IntText(n)))
  {
    JoinInvertsSplit(n);
    LimbsFitExactly(n);
  }

  lemma WideRoundTrip256(n: int, t: Spec)
    requires (t.TU256? && InU256(n)) || (t.TI256? && InI256(n))
    ensures EncodeWide(t, n) == Ok(if t.TU256? then ScU256(Split256(n)) else ScI256(Split256(n)))
    ensures SlotsFit(EncodeWide(t, n).value) && Decode(EncodeWide(t, n).value) == Ok(DString(IntText(n)))
  {
    JoinInvertsSplit(n);
    LimbsFitExactly(n);
  }

  lemma ScalarSurvives(v: Js, t: Spec, h: Host)
    requires Faithful(h) && Typed(v, t) && NoInstants(t)
    requires !t.TVec? && !t.TMap? && !t.TTuple? && !t.TOption?
    ensures Survives(v, t, h)
  {
    if v.BigInt? {
      assert h.bigInt(BigInt(v.n)) == Some(v.n);
      WideRoundTrip(v.n, t);
    }
  }

  /** Every value of a type, however deeply nested, survives encoding and decoding. */
  lemma {:induction false} NestedRoundTrip(v: Js, t: Spec, h: Host)
    requires Faithful(h) && Typed(v, t) && NoInstants(t)
    ensures Survives(v, t, h)
    decreases v, t
  {
    match t
    case TVec(element) =>
      EachSurvives(v.items, element, h, 0);
      VecSurvives(v.items, element, h);
    case TMap(key, value) =>
      EntriesSurvive(v.entries, key, value, h, 0);
      MapSurvives(v.entries, key, value, h);
    case TTuple(values) =>
      TupleSurvives(v.items, values, h, 0);
      TupleSurvivesWhole(v.items, values, h);
    case TOption(of) =>
      if !v.Null? {
        NestedRoundTrip(v, of, h);
      }
    case _ => ScalarSurvives(v, t, h);
  }

  lemma VecSurvives(vs: seq<Js>, element: Spec, h: Host)
    requires ItemsKept(EncodeEach(vs, element, h), vs, 0)
    ensures Survives(Arr(vs), TVec(element), h)
  {
    var sc := ScVec(EncodeEach(vs, element, h).value);
    assert Encode(Arr(vs), TVec(element), h) == Ok(sc);
    assert Decode(sc) == Ok(DArray(PlainItems(vs)));
  }

  lemma TupleSurvivesWhole(vs: seq<Js>, types: seq<Spec>, h: Host)
    requires ItemsKept(EncodeTuple(vs, types, h), vs, 0)
    ensures Survives(Arr(vs), TTuple(types), h)
  {
    var sc := ScVec(EncodeTuple(vs, types, h).value);
    assert Encode(Arr(vs), TTuple(types), h) == Ok(sc);
    assert Decode(sc) == Ok(DArray(PlainItems(vs)));
  }

  lemma MapSurvives(es: seq<JsEntry>, key: Spec, value: Spec, h: Host)
    requires EntriesKept(EncodeEntries(es, key, value, h), es, 0)
    ensures Survives(MapOf(es), TMap(key, value), h)
  {
    var sc := ScMap(EncodeEntries(es, key, value, h).value);
    assert Encode(MapOf(es), TMap(key, value), h) == Ok(sc);
    assert Decode(sc) == Ok(DMap(PlainEntries(es)));
  }

  ghost predicate ItemsKept(r: Result<seq<ScVal>, Thrown>, vs: seq<Js>, i: nat) {
    && r.Ok? && (forall x | x in r.value :: SlotsFit(x))
    && DecodeItems(r.value, i) == Ok(PlainItems(vs))
  }

  lemma ConsItems(first: ScVal, rest: seq<ScVal>, vs: seq<Js>, i: nat)
    requires vs != [] && SlotsFit(first) && Decode(first) == Ok(Plain(vs[0]))
    requires ItemsKept(Ok(rest), vs[1..], i + 1)
    ensures ItemsKept(Ok([first] + rest), vs, i)
  {
    assert ([first] + rest)[1..] == rest;
  }

  lemma {:induction false} EachSurvives(vs: seq<Js>, element: Spec, h: Host, i: nat)
    requires Faithful(h) && NoInstants(element) && forall x | x in vs :: Typed(x, element)
    ensures ItemsKept(EncodeEach(vs, element, h), vs, i)
    decreases vs
  {
    if vs != [] {
      NestedRoundTrip(vs[0], element, h);
      EachSurvives(vs[1..], element, h, i + 1);
      ConsItems(Encode(vs[0], element, h).value, EncodeEach(vs[1..], element, h).value, vs, i);
    }
  }

  lemma {:induction false} TupleSurvives(vs: seq<Js>, types: seq<Spec>, h: Host, i: nat)
    requires Faithful(h) && forall u | u in types :: NoInstants(u)
    requires |vs| == |types| && forall k | 0 <= k < |types| :: Typed(vs[k], types[k])
    ensures ItemsKept(EncodeTuple(vs, types, h), vs, i)
    decreases vs
  {
    if vs != [] {
      NestedRoundTrip(vs[0], types[0], h);
      TupleSurvives(vs[1..], types[1..], h, i + 1);
      ConsItems(Encode(vs[0], types[0], h).value, EncodeTuple(vs[1..], types[1..], h).value, vs, i);
    }
  }

  ghost predicate EntryKept(r: Result<ScEntry, Thrown>, e: JsEntry, i: nat) {
    r.Ok? && EntryFits(r.value) && DecodeEntry(r.value, i) == Ok(PlainEntry(e))
  }

  ghost predicate EntriesKept(r: Result<seq<ScEntry>, Thrown>, es: seq<JsEntry>, i: nat) {
    && r.Ok? && (forall e | e in r.value :: EntryFits(e))
    && DecodeEntries(r.value, i) == Ok(PlainEntries(es))
  }

  lemma ConsEntries(first: ScEntry, rest: seq<ScEntry>, es: seq<JsEntry>, i: nat)
    requires es != [] && EntryKept(Ok(first), es[0], i) && EntriesKept(Ok(rest), es[1..], i + 1)
    ensures EntriesKept(Ok([first] + rest), es, i)
  {
    assert ([first] + rest)[1..] == rest;
  }

  lemma {:induction false} EntriesSurvive(es: seq<JsEntry>, key: Spec, value: Spec, h: Host, i: nat)
    requires Faithful(h) && NoInstants(key) && NoInstants(value) && forall e | e in es :: TypedEntry(e, key, value)
    ensures EntriesKept(EncodeEntries(es, key, value, h), es, i)
    decreases es
  {
    if es != [] {
      EntrySurvives(es[0], key, value, h, i);
      EntriesSurvive(es[1..], key, value, h, i + 1);
      ConsEntries(EncodeEntry(es[0], key, value, h).value, EncodeEntries(es[1..], key, value, h).value, es, i);
    }
  }

  lemma {:induction false} EntrySurvives(e: JsEntry, key: Spec, value: Spec, h: Host, i: nat)
    requires Faithful(h) && NoInstants(key) && NoInstants(value) && TypedEntry(e, key, value)
    ensures EntryKept(EncodeEntry(e, key, value, h), e, i)
    decreases e
  {
    NestedRoundTrip(e.key, key, h);
    NestedRoundTrip(e.val, value, h);
    PairKept(Encode(e.key, key, h).value, Encode(e.val, value, h).value, e, i);
  }

  lemma PairKept(k: ScVal, v: ScVal, e: JsEntry, i: nat)
    requires SlotsFit(k) && SlotsFit(v) && Decode(k) == Ok(Plain(e.key)) && Decode(v) == Ok(Plain(e.val))
    ensures EntryKept(Ok(ScEntry(k, v)), e, i)
  {
  }

  /** An instant or a duration is encoded, but its encoding is not decoded. */
  lemma InstantsAreRefused(n: int, h: Host)
    requires Faithful(h)
    ensures Encode(BigInt(n), TTimepoint, h) == Ok(ScTimepoint(n)) && Decode(ScTimepoint(n)) == Err(Unsupported)
    ensures Encode(BigInt(n), TDuration, h) == Ok(ScDuration(n)) && Decode(ScDuration(n)) == Err(Unsupported)
  {
    assert h.bigInt(BigInt(n)) == Some(n);
  }

  /** The text that bytes decode to encodes to them again. */
  lemma BytesTextEncodes(bytes: seq<Byte>, h: Host)
    ensures EncodeBytes(Str(Hex(bytes)), h) == Ok(ScBytes(bytes))
    ensures DecodeScalar(ScBytes(bytes)) == Ok(DString(Hex(bytes)))
  {
    HexRoundTrip(bytes);
  }

  /** So does the text that an address decodes to, where it is a strkey. */
  lemma AddressTextEncodes(strkey: string, h: Host)
    requires h.isStrkey(strkey)
    ensures EncodeAddress(Str(strkey), h) == EncodeAddress(AddressOf(strkey), h) == Ok(ScAddress(strkey))
    ensures DecodeScalar(ScAddress(strkey)) == Ok(DString(strkey))
  {
  }

  // ---------------------------------------------------------------- nothing is lost

  /** Within one type, what the reader sees determines the value. */
  lemma {:induction false} PlainInjective(v: Js, w: Js, t: Spec)
    requires Typed(v, t) && Typed(w, t) && Plain(v) == Plain(w)
    ensures v == w
    decreases v, t
  {
    match t
    case TVec(element) => ItemsInjective(v.items, w.items, seq(|v.items|, i => element));
    case TTuple(values) => ItemsInjective(v.items, w.items, values);
    case TMap(key, value) => EntriesInjective(v.entries, w.entries, key, value);
    case TOption(of) =>
      if !v.Null? {
        PlainInjective(v, w, of);
      }
    case _ => ScalarInjective(v, w);
  }

  lemma ScalarInjective(v: Js, w: Js)
    requires !v.Arr? && !v.MapOf? && (v.Str? <==> w.Str?) && Plain(v) == Plain(w)
    requires (v.Bytes? <==> w.Bytes?) && (v.AddressOf? <==> w.AddressOf?)
    ensures v == w
  {
    if v.Bytes? {
      HexInjective(v.bytes, w.bytes);
    }
    if v.BigInt? {
      IntTextInjective(v.n, w.n);
    }
  }

  lemma {:induction false} ItemsInjective(vs: seq<Js>, ws: seq<Js>, types: seq<Spec>)
    requires |vs| == |types| && forall k | 0 <= k < |vs| :: Typed(vs[k], types[k])
    requires forall k | 0 <= k < |ws| && k < |types| :: Typed(ws[k], types[k])
    requires PlainItems(vs) == PlainItems(ws)
    ensures vs == ws
    decreases vs
  {
    if vs != [] {
      assert ws != [];
      var ps, qs := PlainItems(vs), PlainItems(ws);
      assert ps[0] == Plain(vs[0]) && qs[0] == Plain(ws[0]);
      assert ps[1..] == PlainItems(vs[1..]) && qs[1..] == PlainItems(ws[1..]);
      PlainInjective(vs[0], ws[0], types[0]);
      ItemsInjective(vs[1..], ws[1..], types[1..]);
      assert vs == [vs[0]] + vs[1..] && ws == [ws[0]] + ws[1..];
    } else {
      assert ws == [];
    }
  }

  lemma {:induction false} EntriesInjective(es: seq<JsEntry>, fs: seq<JsEntry>, key: Spec, value: Spec)
    requires forall e | e in es :: TypedEntry(e, key, value)
    requires forall e | e in fs :: TypedEntry(e, key, value)
    requires PlainEntries(es) == PlainEntries(fs)
    ensures es == fs
    decreases es
  {
    PlainEntriesAt(es);
    PlainEntriesAt(fs);
    forall i | 0 <= i < |es| ensures es[i] == fs[i] {
      assert es[i] in es && fs[i] in fs && PlainEntries(es)[i] == PlainEntries(fs)[i];
      EntryInjective(es[i], fs[i], key, value);
    }
  }

  lemma {:induction false} PlainEntriesAt(es: seq<JsEntry>)
    ensures |PlainEntries(es)| == |es| && forall i | 0 <= i < |es| :: PlainEntries(es)[i] == PlainEntry(es[i])
  {
    if es != [] {
      PlainEntriesAt(es[1..]);
    }
  }

  lemma {:induction false} EntryInjective(e: JsEntry, f: JsEntry, key: Spec, value: Spec)
    requires TypedEntry(e, key, value) && TypedEntry(f, key, value)
    requires PlainEntry(e) == PlainEntry(f)
    ensures e == f
    decreases e
  {
    PlainInjective(e.key, f.key, key);
    PlainInjective(e.val, f.val, value);
  }

  /** Two values of a decodable type with the same encoding, or the same decoded form, are the same value. */
  lemma EncodingIsInjective(v: Js, w: Js, t: Spec, h: Host)
    requires Faithful(h) && Typed(v, t) && Typed(w, t) && NoInstants(t)
    ensures Encode(v, t, h).Ok? && Encode(w, t, h).Ok?
    ensures Decode(Encode(v, t, h).value) == Decode(Encode(w, t, h).value) <==> v == w
  {
    DecodesToPlain(v, t, h);
    DecodesToPlain(w, t, h);
    if Plain(v) == Plain(w) {
      PlainInjective(v, w, t);
    }
  }

  lemma DecodesToPlain(v: Js, t: Spec, h: Host)
    requires Faithful(h) && Typed(v, t) && NoInstants(t)
    ensures Encode(v, t, h).Ok? && Decode(Encode(v, t, h).value) == Ok(Plain(v))
  {
    NestedRoundTrip(v, t, h);
  }

  // ---------------------------------------------------------------- arrays of pairs

  function PairsAsEntries(ps: seq<Js>): seq<JsEntry>
    requires forall p | p in ps :: IsPair(p)
  {
    if ps == [] then []
    else
      assert IsPair(ps[0]);
      [JsEntry(ps[0].items[0], ps[0].items[1])] + PairsAsEntries(ps[1..])
  }

  /** An array of two-element arrays encodes as the map with those entries. */
  lemma {:induction false} PairsEncodeAsEntries(ps: seq<Js>, key: Spec, value: Spec, h: Host)
    requires forall p | p in ps :: IsPair(p)
    ensures EncodePairs(ps, key, value, h) == EncodeEntries(PairsAsEntries(ps), key, value, h)
  {
    if ps != [] {
      assert IsPair(ps[0]);
      PairsEncodeAsEntries(ps[1..], key, value, h);
      assert PairsAsEntries(ps)[1..] == PairsAsEntries(ps[1..]);
    }
  }
}
