/**
 What the encoder and the decoder of contract values do, without their own recursion: which
 contract value a typed value becomes, and which text, number or list each one is read as.
 */
module ScValMeaning {
  import opened DecimalText
  import opened Limbs
  import opened Results
  import opened ScVals

  // ---------------------------------------------------------------- encoding

  /** The contract value is of the kind the type names, and holds the value. */
  predicate Stands(v: Js, t: Spec, sc: ScVal)
    decreases v, t
  {
    match t
    case TAny => false
    case TBool => v.Bool? && sc == ScBool(v.b)
    case TVoid => sc == ScVoid
    case TU32 => v.Number? && sc == ScU32(v.n)
    case TI32 => v.Number? && sc == ScI32(v.n)
    case TU64 => v.BigInt? && sc == ScU64(v.n)
    case TI64 => v.BigInt? && sc == ScI64(v.n)
    case TTimepoint => v.BigInt? && sc == ScTimepoint(v.n)
    case TDuration => v.BigInt? && sc == ScDuration(v.n)
    case TU128 => v.BigInt? && sc.ScU128? && FitsU128(sc.parts) && v.n == Sum128(sc.parts)
    case TI128 => v.BigInt? && sc.ScI128? && FitsI128(sc.parts) && v.n == Sum128(sc.parts)
    case TU256 => v.BigInt? && sc.ScU256? && FitsU256(sc.limbs) && v.n == Sum256(sc.limbs)
    case TI256 => v.BigInt? && sc.ScI256? && FitsI256(sc.limbs) && v.n == Sum256(sc.limbs)
    case TBytes => v.Bytes? && sc == ScBytes(v.bytes)
    case TAddress => v.AddressOf? && sc == ScAddress(v.strkey)
    case TString => v.Str? && sc == ScString(v.s)
    case TSymbol => v.Str? && sc == ScSymbol(v.s)
    case TVec(element) =>
      v.Arr? && sc.ScVec? && |sc.items| == |v.items| && forall i | 0 <= i < |v.items| :: Stands(v.items[i], element, sc.items[i])
    case TMap(key, value) =>
      v.MapOf? && sc.ScMap? && |sc.entries| == |v.entries|
      && forall i | 0 <= i < |v.entries| :: StandsEntry(v.entries[i], key, value, sc.entries[i])
    case TTuple(values) =>
      v.Arr? && sc.ScVec? && |sc.items| == |v.items| == |values|
      && forall i | 0 <= i < |values| :: Stands(v.items[i], values[i], sc.items[i])
    case TOption(of) => if v.Null? then sc == ScVoid else Stands(v, of, sc)
  }

  predicate StandsEntry(e: JsEntry, key: Spec, value: Spec, sc: ScEntry)
    decreases e
  {
    Stands(e.key, key, sc.key) && Stands(e.val, value, sc.val)
  }

  /** The integer whose 64-bit limbs, the highest first, are these. */
  function Sum128(p: Parts128): int {
    p.hi * 0x1_0000_0000_0000_0000 + p.lo
  }

  function Sum256(p: Parts256): int {
    ((p.hiHi * 0x1_0000_0000_0000_0000 + p.hiLo) * 0x1_0000_0000_0000_0000 + p.loHi) * 0x1_0000_0000_0000_0000 + p.loLo
  }

  lemma WideStands(n: int, t: Spec)
    requires (t.TU128? && InU128(n)) || (t.TI128? && InI128(n)) || (t.TU256? && InU256(n)) || (t.TI256? && InI256(n))
    ensures EncodeWide(t, n).Ok? && Stands(BigInt(n), t, EncodeWide(t, n).value)
  {
    LimbsFitExactly(n);
    SplitLimbs(n);
    LimbsAddUp(n);
  }

  lemma LimbsAddUp(n: int)
    ensures Sum128(Split128(n)) == n && Sum256(Split256(n)) == n
  {
    SplitLimbs(n);
    JoinInvertsSplit(n);
    SumIsJoin128(Split128(n));
    SumIsJoin256(Split256(n));
  }

  /** Every value of a type, instants and durations included, is encoded as the contract value it stands for. */
  lemma {:induction false} EncodesAsTyped(v: Js, t: Spec, h: Host)
    requires Faithful(h) && Typed(v, t)
    ensures Encode(v, t, h).Ok? && Stands(v, t, Encode(v, t, h).value)
    decreases v, t
  {
    match t
    case TVec(element) =>
      EachStands(v.items, element, h);
      VecStands(v.items, element, h);
    case TMap(key, value) =>
      EntriesStand(v.entries, key, value, h);
      MapStands(v.entries, key, value, h);
    case TTuple(values) =>
      TupleStands(v.items, values, h);
      TupleStandsWhole(v.items, values, h);
    case TOption(of) =>
      if !v.Null? {
        EncodesAsTyped(v, of, h);
      }
    case _ => ScalarStands(v, t, h);
  }

  lemma VecStands(vs: seq<Js>, element: Spec, h: Host)
    requires EncodeEach(vs, element, h).Ok? && AllStand(vs, element, EncodeEach(vs, element, h).value)
    ensures var r := Encode(Arr(vs), TVec(element), h); r.Ok? && Stands(Arr(vs), TVec(element), r.value)
  {
  }

  lemma MapStands(es: seq<JsEntry>, key: Spec, value: Spec, h: Host)
    requires var r := EncodeEntries(es, key, value, h);
             r.Ok? && |r.value| == |es| && forall i | 0 <= i < |es| :: StandsEntry(es[i], key, value, r.value[i])
    ensures var r := Encode(MapOf(es), TMap(key, value), h); r.Ok? && Stands(MapOf(es), TMap(key, value), r.value)
  {
  }

  lemma TupleStandsWhole(vs: seq<Js>, types: seq<Spec>, h: Host)
    requires |vs| == |types|
    requires var r := EncodeTuple(vs, types, h);
             r.Ok? && |r.value| == |vs| && forall i | 0 <= i < |vs| :: Stands(vs[i], types[i], r.value[i])
    ensures var r := Encode(Arr(vs), TTuple(types), h); r.Ok? && Stands(Arr(vs), TTuple(types), r.value)
  {
  }

  lemma ScalarStands(v: Js, t: Spec, h: Host)
    requires Faithful(h) && Typed(v, t) && !t.TVec? && !t.TMap? && !t.TTuple? && !t.TOption?
    ensures Encode(v, t, h).Ok? && Stands(v, t, Encode(v, t, h).value)
  {
    if v.BigInt? {
      assert h.bigInt(BigInt(v.n)) == Some(v.n);
      if t.TU128? || t.TI128? || t.TU256? || t.TI256? {
        WideStands(v.n, t);
      }
    }
  }

  predicate AllStand(vs: seq<Js>, element: Spec, scs: seq<ScVal>) {
    |scs| == |vs| && forall i | 0 <= i < |vs| :: Stands(vs[i], element, scs[i])
  }

  lemma OneMoreStands(vs: seq<Js>, element: Spec, first: ScVal, rest: seq<ScVal>)
    requires vs != [] && Stands(vs[0], element, first) && AllStand(vs[1..], element, rest)
    ensures AllStand(vs, element, [first] + rest)
  {
    forall i | 0 <= i < |vs| ensures Stands(vs[i], element, ([first] + rest)[i]) {
      assert i > 0 ==> Stands(vs[1..][i - 1], element, rest[i - 1]);
    }
  }

  lemma {:induction false} EachStands(vs: seq<Js>, element: Spec, h: Host)
    requires Faithful(h) && forall x | x in vs :: Typed(x, element)
    ensures EncodeEach(vs, element, h).Ok? && AllStand(vs, element, EncodeEach(vs, element, h).value)
    decreases vs
  {
    if vs != [] {
      EncodesAsTyped(vs[0], element, h);
      EachStands(vs[1..], element, h);
      OneMoreStands(vs, element, Encode(vs[0], element, h).value, EncodeEach(vs[1..], element, h).value);
    }
  }

  lemma {:induction false} TupleStands(vs: seq<Js>, types: seq<Spec>, h: Host)
    requires Faithful(h) && |vs| == |types| && forall i | 0 <= i < |types| :: Typed(vs[i], types[i])
    ensures var r := EncodeTuple(vs, types, h);
            r.Ok? && |r.value| == |vs| && forall i | 0 <= i < |vs| :: Stands(vs[i], types[i], r.value[i])
    decreases vs
  {
    if vs != [] {
      EncodesAsTyped(vs[0], types[0], h);
      TupleStands(vs[1..], types[1..], h);
      var r := EncodeTuple(vs, types, h).value;
      assert forall i | 1 <= i < |vs| :: vs[i] == vs[1..][i - 1] && types[i] == types[1..][i - 1] && r[i] == r[1..][i - 1];
    }
  }

  /** Entries that each encode are encoded one by one. */
  lemma {:induction false} EntriesOneByOne(es: seq<JsEntry>, key: Spec, value: Spec, h: Host)
    requires forall i | 0 <= i < |es| :: EncodeEntry(es[i], key, value, h).Ok?
    ensures var r := EncodeEntries(es, key, value, h);
            r.Ok? && |r.value| == |es| && forall i | 0 <= i < |es| :: EncodeEntry(es[i], key, value, h) == Ok(r.value[i])
  {
    if es != [] {
      assert forall i | 1 <= i < |es| :: es[i] == es[1..][i - 1];
      EntriesOneByOne(es[1..], key, value, h);
      var first, rest := EncodeEntry(es[0], key, value, h).value, EncodeEntries(es[1..], key, value, h).value;
      assert EncodeEntries(es, key, value, h) == Ok([first] + rest);
      assert forall i | 1 <= i < |es| :: ([first] + rest)[i] == rest[i - 1];
    }
  }

  lemma {:induction false} EntriesStand(es: seq<JsEntry>, key: Spec, value: Spec, h: Host)
    requires Faithful(h) && forall e | e in es :: TypedEntry(e, key, value)
    ensures var r := EncodeEntries(es, key, value, h);
            r.Ok? && |r.value| == |es| && forall i | 0 <= i < |es| :: StandsEntry(es[i], key, value, r.value[i])
    decreases es
  {
    forall i | 0 <= i < |es|
      ensures var r := EncodeEntry(es[i], key, value, h); r.Ok? && StandsEntry(es[i], key, value, r.value)
    {
      assert es[i] in es;
      EntryStands(es[i], key, value, h);
    }
    EntriesOneByOne(es, key, value, h);
  }

  lemma {:induction false} EntryStands(e: JsEntry, key: Spec, value: Spec, h: Host)
    requires Faithful(h) && TypedEntry(e, key, value)
    ensures var r := EncodeEntry(e, key, value, h); r.Ok? && StandsEntry(e, key, value, r.value)
    decreases e
  {
    EncodesAsTyped(e.key, key, h);
    EncodesAsTyped(e.val, value, h);
  }

  // ---------------------------------------------------------------- decoding

  /** Each scalar is read as itself, wide integers as the decimal text of what their limbs add up to, bytes as hexadecimal. */
  lemma ScalarReadAs(sc: ScVal)
    requires !sc.ScVec? && !sc.ScMap?
    ensures match sc
            case ScBool(b) => Decode(sc) == Ok(DBool(b))
            case ScVoid => Decode(sc) == Ok(DNull)
            case ScU32(n) => Decode(sc) == Ok(DNumber(n))
            case ScI32(n) => Decode(sc) == Ok(DNumber(n))
            case ScU64(n) => Decode(sc) == Ok(DString(IntText(n)))
            case ScI64(n) => Decode(sc) == Ok(DString(IntText(n)))
            case ScU128(p) => FitsU128(p) ==> Decode(sc) == Ok(DString(IntText(Sum128(p))))
            case ScI128(p) => FitsI128(p) ==> Decode(sc) == Ok(DString(IntText(Sum128(p))))
            case ScU256(p) => FitsU256(p) ==> Decode(sc) == Ok(DString(IntText(Sum256(p))))
            case ScI256(p) => FitsI256(p) ==> Decode(sc) == Ok(DString(IntText(Sum256(p))))
            case ScBytes(bytes) => exists s :: Decode(sc) == Ok(DString(s)) && IsLowerHexOf(s, bytes)
            case ScAddress(strkey) => Decode(sc) == Ok(DString(strkey))
            case ScString(s) => Decode(sc) == Ok(DString(s))
            case ScSymbol(s) => Decode(sc) == Ok(DString(s))
            case _ => Decode(sc) == Err(Unsupported)
  {
    match sc
    case ScU128(p) => SumIsJoin128(p);
    case ScI128(p) => SumIsJoin128(p);
    case ScU256(p) => SumIsJoin256(p);
    case ScI256(p) => SumIsJoin256(p);
    case ScBytes(bytes) => HexIsLower(bytes);
    case _ =>
  }

  lemma SumIsJoin128(p: Parts128)
    ensures FitsUnsigned(p.lo) ==> Join128(p) == Sum128(p)
  {
    if FitsUnsigned(p.lo) {
      Join128Adds(p);
    }
  }

  lemma SumIsJoin256(p: Parts256)
    ensures LowLimbsFit(p) ==> Join256(p) == Sum256(p)
  {
    if LowLimbsFit(p) {
      var upper := p.hiHi * WORD + p.hiLo;
      Join256Adds(p, upper, upper * WORD + p.loHi);
    }
  }

  /** Two lower-case digits for each byte, the high half first. */
  predicate IsLowerHexOf(s: string, bytes: seq<Byte>) {
    |s| == 2 * |bytes|
    && forall i | 0 <= i < |bytes| :: IsDigitOf(s[2 * i], bytes[i] as int / 16) && IsDigitOf(s[2 * i + 1], bytes[i] as int % 16)
  }

  predicate IsDigitOf(c: char, n: int) {
    0 <= n < 16 && c == "0123456789abcdef"[n]
  }

  lemma {:induction false} HexIsLower(bytes: seq<Byte>)
    ensures IsLowerHexOf(Hex(bytes), bytes)
  {
    if bytes != [] {
      HexIsLower(bytes[1..]);
      var s, rest := Hex(bytes), Hex(bytes[1..]);
      assert s[2..] == rest;
      forall i | 0 <= i < |bytes|
        ensures IsDigitOf(s[2 * i], bytes[i] as int / 16) && IsDigitOf(s[2 * i + 1], bytes[i] as int % 16)
      {
        if i > 0 {
          assert s[2 * i] == rest[2 * (i - 1)] && s[2 * i + 1] == rest[2 * (i - 1) + 1];
        } else {
          DigitIsLower(bytes[0] as int / 16);
          DigitIsLower(bytes[0] as int % 16);
        }
      }
    }
  }

  lemma DigitIsLower(n: int)
    requires 0 <= n < 16
    ensures IsDigitOf(HexDigit(n), n)
  {
  }

  /** A vector of what decodes is read as the list of what its items are read as. */
  lemma VecReadAs(items: seq<ScVal>)
    requires forall i | 0 <= i < |items| :: Decode(items[i]).Ok?
    ensures var r := Decode(ScVec(items));
            && r.Ok? && r.value.DArray? && |r.value.items| == |items|
            && forall i | 0 <= i < |items| :: Decode(items[i]) == Ok(r.value.items[i])
  {
    ItemsReadAs(items, 0);
  }

  lemma {:induction false} ItemsReadAs(items: seq<ScVal>, n: nat)
    requires forall i | 0 <= i < |items| :: Decode(items[i]).Ok?
    ensures var r := DecodeItems(items, n);
            r.Ok? && |r.value| == |items| && forall i | 0 <= i < |items| :: Decode(items[i]) == Ok(r.value[i])
  {
    if items != [] {
      ItemsReadAs(items[1..], n + 1);
      var r := DecodeItems(items, n).value;
      assert forall i | 1 <= i < |items| :: items[i] == items[1..][i - 1] && r[i] == r[1..][i - 1];
    }
  }

  /** Otherwise the fault is that of the first item that does not decode, at its position. */
  lemma VecFault(items: seq<ScVal>, k: nat)
    requires k < |items| && Decode(items[k]).Err? && forall i | 0 <= i < k :: Decode(items[i]).Ok?
    ensures Decode(ScVec(items)) == Err(InVec(k, Decode(items[k]).error))
  {
    ItemsFault(items, k, 0);
  }

  lemma {:induction false} ItemsFault(items: seq<ScVal>, k: nat, n: nat)
    requires k < |items| && Decode(items[k]).Err? && forall i | 0 <= i < k :: Decode(items[i]).Ok?
    ensures DecodeItems(items, n) == Err(InVec(n + k, Decode(items[k]).error))
  {
    if k > 0 {
      ItemsFault(items[1..], k - 1, n + 1);
    }
  }

  predicate EntryDecodes(e: ScEntry) {
    Decode(e.key).Ok? && Decode(e.val).Ok?
  }

  predicate EntryReadAs(e: ScEntry, d: DEntry) {
    Decode(e.key) == Ok(d.key) && Decode(e.val) == Ok(d.value)
  }

  /** A map of what decodes is read as the list of its entries, keys as keys and values as values. */
  lemma MapReadAs(entries: seq<ScEntry>)
    requires forall i | 0 <= i < |entries| :: EntryDecodes(entries[i])
    ensures var r := Decode(ScMap(entries));
            && r.Ok? && r.value.DMap? && |r.value.entries| == |entries|
            && forall i | 0 <= i < |entries| :: EntryReadAs(entries[i], r.value.entries[i])
  {
    EntriesReadAs(entries, 0);
  }

  lemma {:induction false} EntriesReadAs(entries: seq<ScEntry>, n: nat)
    requires forall i | 0 <= i < |entries| :: EntryDecodes(entries[i])
    ensures var r := DecodeEntries(entries, n);
            r.Ok? && |r.value| == |entries| && forall i | 0 <= i < |entries| :: EntryReadAs(entries[i], r.value[i])
  {
    if entries != [] {
      assert EntryDecodes(entries[0]);
      assert forall i | 0 <= i < |entries[1..]| :: entries[1..][i] == entries[i + 1];
      EntriesReadAs(entries[1..], n + 1);
      var first, rest := DecodeEntry(entries[0], n).value, DecodeEntries(entries[1..], n + 1).value;
      assert DecodeEntries(entries, n) == Ok([first] + rest);
      forall i | 0 <= i < |entries| ensures EntryReadAs(entries[i], ([first] + rest)[i]) {
        assert i > 0 ==> EntryReadAs(entries[1..][i - 1], rest[i - 1]);
      }
    }
  }

  /** Otherwise the fault is that of the first entry that does not decode, of its key if that does not. */
  lemma MapFault(entries: seq<ScEntry>, k: nat)
    requires k < |entries| && !EntryDecodes(entries[k]) && forall i | 0 <= i < k :: EntryDecodes(entries[i])
    ensures var (key, val) := (Decode(entries[k].key), Decode(entries[k].val));
            Decode(ScMap(entries)) == Err(if key.Err? then InKey(k, key.error) else InValue(k, val.error))
  {
    EntriesFault(entries, k, 0);
  }

  lemma {:induction false} EntriesFault(entries: seq<ScEntry>, k: nat, n: nat)
    requires k < |entries| && !EntryDecodes(entries[k]) && forall i | 0 <= i < k :: EntryDecodes(entries[i])
    ensures var (key, val) := (Decode(entries[k].key), Decode(entries[k].val));
            DecodeEntries(entries, n) == Err(if key.Err? then InKey(n + k, key.error) else InValue(n + k, val.error))
  {
    if k > 0 {
      assert EntryDecodes(entries[0]);
      EntriesFault(entries[1..], k - 1, n + 1);
    }
  }
}
