/** Where the generated type and the generated schema agree on every value, and exactly where they do not. */
module CodegenAgreement {
  import opened Codegen
  import opened CodegenShapes
  import opened ContractSpecs
  import opened DecimalText
  import opened GeneratedTypes
  import opened Results

  ghost predicate Agree(v: Value, t: TypeSpec, x: Context)
    requires Sound(x)
  {
    HasType(v, t, x) <==> Parses(v, t, x)
  }

  // ---------------------------------------------------------------- undefined and null

  /** Undefined is a value of the type. */
  predicate AdmitsUndefined(t: TypeSpec) {
    match t
    case Prim(p) => p.Void? || p.ErrorType? || p.Val?
    case OptionOf(inner) => AdmitsUndefined(inner)
    case ResultOf(ok, _) => AdmitsUndefined(ok)
    case _ => false
  }

  lemma NoUdtIsNullish(v: Value, u: UserDefinedType, x: Context)
    requires Sound(x) && (v.Undefined? || v.Null?)
    ensures !HasUdt(v, u, x) && !ParsesUdt(v, u, x)
  {
    match u
    case StructType(_, _, _) =>
    case EnumType(_, _, _) => EnumIsVariant(v, u, x);
    case UnionType(_, _, _) => UnionAsCases(v, u, x);
  }

  lemma {:induction false} UndefinedAgrees(t: TypeSpec, x: Context)
    requires Valid(x)
    ensures HasType(Undefined, t, x) <==> AdmitsUndefined(t)
    ensures Parses(Undefined, t, x) <==> AdmitsUndefined(t)
  {
    match t
    case OptionOf(inner) => UndefinedAgrees(inner, x);
    case ResultOf(ok, _) => UndefinedAgrees(ok, x);
    case NamedType(name) =>
      NamedIsTarget(Undefined, name, x);
      if Target(name, x).Some? {
        NoUdtIsNullish(Undefined, Target(name, x).value, x);
      }
    case _ =>
  }

  lemma {:induction false} NullAgrees(t: TypeSpec, x: Context)
    requires Valid(x)
    ensures Agree(Null, t, x)
  {
    match t
    case OptionOf(_) =>
    case ResultOf(ok, _) => NullAgrees(ok, x);
    case NamedType(name) =>
      NamedIsTarget(Null, name, x);
      if Target(name, x).Some? {
        NoUdtIsNullish(Null, Target(name, x).value, x);
      }
    case _ =>
  }

  // ---------------------------------------------------------------- building objects

  /** The properties of the slots that have a value. */
  function Props(slots: seq<Slot>, values: seq<Option<Value>>): seq<Prop>
    requires |slots| == |values|
  {
    if slots == [] then []
    else (if values[0].Some? then [Prop(slots[0].name, values[0].value)] else []) + Props(slots[1..], values[1..])
  }

  lemma {:induction false} OwnAbsent(slots: seq<Slot>, values: seq<Option<Value>>, name: string)
    requires |slots| == |values| && forall i | 0 <= i < |slots| :: slots[i].name != name
    ensures Own(Props(slots, values), name) == None
  {
    if slots != [] {
      OwnAbsent(slots[1..], values[1..], name);
      var all, rest := Props(slots, values), Props(slots[1..], values[1..]);
      assert values[0].Some? ==> all[1..] == rest;
      assert values[0].None? ==> all == rest;
    }
  }

  lemma {:induction false} OwnOfProps(slots: seq<Slot>, values: seq<Option<Value>>, i: nat)
    requires |slots| == |values| && SlotsDistinct(slots) && i < |slots|
    ensures Own(Props(slots, values), slots[i].name) == values[i]
  {
    var all, rest := Props(slots, values), Props(slots[1..], values[1..]);
    assert values[0].Some? ==> all[1..] == rest;
    assert values[0].None? ==> all == rest;
    if i == 0 {
      OwnAbsent(slots[1..], values[1..], slots[0].name);
    } else {
      OwnOfProps(slots[1..], values[1..], i - 1);
    }
  }

  ghost function CommonValue(t: TypeSpec, x: Context): (v: Value)
    requires Sound(x) && Common(t, x)
    ensures HasType(v, t, x) && Parses(v, t, x)
  {
    var v :| HasType(v, t, x) && Parses(v, t, x);
    v
  }

  ghost predicate OthersCommon(types: seq<TypeSpec>, i: int, x: Context)
    requires Sound(x)
  {
    forall j | 0 <= j < |types| && j != i :: Common(types[j], x)
  }

  function SlotTypes(slots: seq<Slot>): (types: seq<TypeSpec>)
    ensures |types| == |slots| && forall i | 0 <= i < |slots| :: types[i] == slots[i].ty
  {
    seq(|slots|, i requires 0 <= i < |slots| => slots[i].ty)
  }

  /** An object with values on both sides in all slots but one, which gets what is given. */
  lemma ObjectWith(slots: seq<Slot>, i: int, given: Option<Value>, x: Context) returns (v: Value)
    requires Sound(x) && SlotsDistinct(slots) && OthersCommon(SlotTypes(slots), i, x)
    ensures v.Obj?
    ensures forall j | 0 <= j < |slots| && j != i :: HasSlot(v, slots[j], x) && ParsesSlot(v, slots[j], x)
    ensures 0 <= i < |slots| ==> OwnMember(v, slots[i].name) == given
  {
    var values := seq(|slots|, j requires 0 <= j < |slots| =>
                        if j == i then given else (assert Common(SlotTypes(slots)[j], x); Some(CommonValue(slots[j].ty, x))));
    v := Obj(Props(slots, values));
    forall j | 0 <= j < |slots| ensures OwnMember(v, slots[j].name) == values[j] {
      OwnOfProps(slots, values, j);
    }
  }

  /** An array with values on both sides in all places but one, which gets what is given. */
  lemma ArrayWith(elements: seq<TypeSpec>, i: int, given: Value, x: Context) returns (v: Value)
    requires Sound(x) && OthersCommon(elements, i, x)
    ensures v.Arr? && |v.items| == |elements|
    ensures forall j | 0 <= j < |elements| && j != i :: HasType(v.items[j], elements[j], x) && Parses(v.items[j], elements[j], x)
    ensures 0 <= i < |elements| ==> v.items[i] == given
  {
    v := Arr(seq(|elements|, j requires 0 <= j < |elements| => if j == i then given else CommonValue(elements[j], x)));
  }

  // ---------------------------------------------------------------- a value on one side gives one on both

  lemma {:induction false} SomeIsCommon(v: Value, t: TypeSpec, x: Context)
    requires Valid(x) && (HasType(v, t, x) || Parses(v, t, x))
    ensures Common(t, x)
    decreases Height(v), 3, t
  {
    match t
    case Prim(_) => assert HasType(v, t, x) && Parses(v, t, x);
    case BytesN(_) => assert HasType(v, t, x) && Parses(v, t, x);
    case OptionOf(inner) => assert HasType(Null, t, x) && Parses(Null, t, x);
    case ResultOf(ok, _) =>
      SomeIsCommon(v, ok, x);
      var w := CommonValue(ok, x);
      assert HasType(w, t, x) && Parses(w, t, x);
    case VecOf(_) => assert HasType(Arr([]), t, x) && Parses(Arr([]), t, x);
    case MapOf(_, _) => assert HasType(Arr([]), t, x) && Parses(Arr([]), t, x);
    case TupleOf(elements) => SomeTupleIsCommon(v, elements, x);
    case NamedType(name) =>
      NamedIsTarget(v, name, x);
      var w := SomeUdtIsCommon(v, Target(name, x).value, x);
      NamedIsTarget(w, name, x);
  }

  lemma {:induction false} SomeTupleIsCommon(v: Value, elements: seq<TypeSpec>, x: Context)
    requires Valid(x) && (HasType(v, TupleOf(elements), x) || Parses(v, TupleOf(elements), x))
    ensures Common(TupleOf(elements), x)
    decreases Height(v), 2
  {
    TupleAsElements(v, elements, x);
    forall i | 0 <= i < |elements| ensures Common(elements[i], x) {
      ItemIsLower(v, i);
      SomeIsCommon(v.items[i], elements[i], x);
    }
    var w := ArrayWith(elements, -1, Null, x);
    TupleAsElements(w, elements, x);
  }

  lemma {:induction false} SomeSlotsAreCommon(v: Value, slots: seq<Slot>, x: Context)
    requires Valid(x) && (HasSlots(v, slots, x) || ParsesSlots(v, slots, x))
    ensures OthersCommon(SlotTypes(slots), -1, x)
    decreases Height(v), 1
  {
    forall i | 0 <= i < |slots| ensures Common(slots[i].ty, x) {
      if HasSlots(v, slots, x) {
        assert HasSlot(v, slots[i], x);
        SomeIsCommon(Member(v, slots[i].name, x.h).value, slots[i].ty, x);
      } else {
        assert ParsesSlot(v, slots[i], x);
        SomeIsCommon(Read(v, slots[i].name, x.h), slots[i].ty, x);
      }
    }
  }

  lemma {:induction false} SomeUdtIsCommon(v: Value, u: UserDefinedType, x: Context) returns (w: Value)
    requires Valid(x) && u in x.udts && (HasUdt(v, u, x) || ParsesUdt(v, u, x))
    ensures HasUdt(w, u, x) && ParsesUdt(w, u, x)
    decreases Height(v), 2
  {
    match u
    case StructType(_, _, fields) =>
      FieldsAsSlots(v, fields, x);
      SomeSlotsAreCommon(v, SlotsOf(fields, x.c), x);
      w := ObjectWith(SlotsOf(fields, x.c), -1, None, x);
      FieldsAsSlots(w, fields, x);
    case EnumType(_, _, _) =>
      EnumIsVariant(v, u, x);
      w := v;
    case UnionType(_, _, cases) =>
      UnionAsCases(v, u, x);
      var i :| 0 <= i < |cases| && (HasCase(v, cases[i], x) || ParsesCase(v, cases[i], x));
      w := SomeCaseIsCommon(v, cases[i], x);
      UnionAsCases(w, u, x);
  }

  lemma {:induction false} SomeCaseIsCommon(v: Value, k: UnionCase, x: Context) returns (w: Value)
    requires Valid(x) && (HasCase(v, k, x) || ParsesCase(v, k, x))
    ensures HasCase(w, k, x) && ParsesCase(w, k, x)
    decreases Height(v), 1
  {
    if k.fields == [] {
      w := v;
    } else {
      SomeIsCommon(Read(v, "values", x.h), ValuesOf(k), x);
      w := CaseWith(k, CommonValue(ValuesOf(k), x), x);
    }
  }

  /** The object of a union case around the given values. */
  lemma CaseWith(k: UnionCase, values: Value, x: Context) returns (v: Value)
    requires Sound(x) && k.fields != []
    ensures HasCase(v, k, x) <==> HasType(values, ValuesOf(k), x)
    ensures ParsesCase(v, k, x) <==> Parses(values, ValuesOf(k), x)
    ensures v.Obj? && Member(v, "case", x.h) == Some(Str(k.name))
  {
    v := Obj([Prop("case", Str(k.name)), Prop("values", values)]);
    assert "case"[0] != "values"[0];
    assert v.props[1..] == [Prop("values", values)];
    assert Own(v.props, "values") == Own(v.props[1..], "values") == Some(values);
  }

  // ---------------------------------------------------------------- where they differ

  /** A field that may be left out: it admits undefined, no object inherits it, and the others can be filled. */
  ghost predicate LooseAt(slots: seq<Slot>, i: nat, x: Context)
    requires Sound(x) && i < |slots|
  {
    AdmitsUndefined(slots[i].ty) && slots[i].name !in x.h.objects && OthersCommon(SlotTypes(slots), i, x)
  }

  ghost predicate Loose(slots: seq<Slot>, x: Context)
    requires Sound(x)
  {
    exists i | 0 <= i < |slots| :: LooseAt(slots, i, x)
  }

  /** Some value that is not an object has all the members. */
  ghost predicate Borrowed(slots: seq<Slot>, x: Context)
    requires Sound(x)
  {
    exists v: Value :: !v.Obj? && HasSlots(v, slots, x)
  }

  /** The two sides of the type differ, at most `depth` references down. */
  ghost predicate Exposes(depth: nat, t: TypeSpec, x: Context)
    requires Sound(x)
    decreases depth, 0, t
  {
    match t
    case OptionOf(inner) => Exposes(depth, inner, x)
    case ResultOf(ok, _) => Exposes(depth, ok, x)
    case VecOf(item) => Exposes(depth, item, x)
    case MapOf(key, value) =>
      || Loose(EntrySlots(key, value), x) || Borrowed(EntrySlots(key, value), x)
      || (Exposes(depth, key, x) && Common(value, x)) || (Common(key, x) && Exposes(depth, value, x))
    case TupleOf(elements) =>
      exists i | 0 <= i < |elements| :: Exposes(depth, elements[i], x) && OthersCommon(elements, i, x)
    case NamedType(name) => depth > 0 && Target(name, x).Some? && ExposesUdt(depth - 1, Target(name, x).value, x)
    case _ => false
  }

  ghost predicate ExposesSlots(depth: nat, slots: seq<Slot>, x: Context)
    requires Sound(x)
    decreases depth, 1
  {
    || Loose(slots, x) || Borrowed(slots, x)
    || exists i | 0 <= i < |slots| :: Exposes(depth, slots[i].ty, x) && OthersCommon(SlotTypes(slots), i, x)
  }

  ghost predicate ExposesUdt(depth: nat, u: UserDefinedType, x: Context)
    requires Sound(x)
    decreases depth, 2
  {
    match u
    case StructType(_, _, fields) => ExposesSlots(depth, SlotsOf(fields, x.c), x)
    case EnumType(_, _, _) => false
    case UnionType(_, _, cases) => exists i | 0 <= i < |cases| :: cases[i].fields != [] && Exposes(depth, ValuesOf(cases[i]), x)
  }

  lemma MapExposesSlots(depth: nat, key: TypeSpec, value: TypeSpec, x: Context)
    requires Sound(x)
    ensures Exposes(depth, MapOf(key, value), x) <==> ExposesSlots(depth, EntrySlots(key, value), x)
  {
    var slots := EntrySlots(key, value);
    assert SlotTypes(slots)[0] == key && SlotTypes(slots)[1] == value;
    assert OthersCommon(SlotTypes(slots), 0, x) <==> Common(value, x);
    assert OthersCommon(SlotTypes(slots), 1, x) <==> Common(key, x);
    if Exposes(depth, key, x) && Common(value, x) {
      assert Exposes(depth, slots[0].ty, x);
    }
    if Common(key, x) && Exposes(depth, value, x) {
      assert Exposes(depth, slots[1].ty, x);
    }
  }

  // ---------------------------------------------------------------- a differing value is explained

  lemma EntryThatDiffers(v: Value, key: TypeSpec, value: TypeSpec, x: Context) returns (i: nat)
    requires Sound(x) && !Agree(v, MapOf(key, value), x)
    ensures v.Arr? && i < |v.items| && Height(v.items[i]) < Height(v)
    ensures HasSlots(v.items[i], EntrySlots(key, value), x) != ParsesSlots(v.items[i], EntrySlots(key, value), x)
  {
    MapAsSlots(v, key, value, x);
    i :| 0 <= i < |v.items|
         && HasSlots(v.items[i], EntrySlots(key, value), x) != ParsesSlots(v.items[i], EntrySlots(key, value), x);
    ItemIsLower(v, i);
  }

  lemma {:induction false} DifferenceIsExposed(v: Value, t: TypeSpec, x: Context) returns (depth: nat)
    requires Valid(x) && !Agree(v, t, x)
    ensures Exposes(depth, t, x)
    decreases Height(v), 3, t
  {
    match t
    case OptionOf(inner) => depth := DifferenceIsExposed(v, inner, x);
    case ResultOf(ok, _) => depth := DifferenceIsExposed(v, ok, x);
    case VecOf(item) =>
      var i :| 0 <= i < |v.items| && !Agree(v.items[i], item, x);
      ItemIsLower(v, i);
      depth := DifferenceIsExposed(v.items[i], item, x);
    case MapOf(key, value) =>
      var i := EntryThatDiffers(v, key, value, x);
      depth := SlotsExposed(v.items[i], EntrySlots(key, value), x);
      MapExposesSlots(depth, key, value, x);
    case TupleOf(elements) => depth := TupleExposed(v, elements, x);
    case NamedType(name) => depth := NamedExposed(v, name, x);
    case _ =>
  }

  lemma {:induction false} NamedExposed(v: Value, name: string, x: Context) returns (depth: nat)
    requires Valid(x) && !Agree(v, NamedType(name), x)
    ensures Exposes(depth, NamedType(name), x)
    decreases Height(v), 2, 1
  {
    NamedIsTarget(v, name, x);
    depth := UdtExposed(v, Target(name, x).value, x);
    depth := depth + 1;
  }

  lemma {:induction false} TupleExposed(v: Value, elements: seq<TypeSpec>, x: Context) returns (depth: nat)
    requires Valid(x) && !Agree(v, TupleOf(elements), x)
    ensures Exposes(depth, TupleOf(elements), x)
    decreases Height(v), 2
  {
    TupleAsElements(v, elements, x);
    var i :| 0 <= i < |elements| && !Agree(v.items[i], elements[i], x);
    forall j | 0 <= j < |elements| && j != i ensures Common(elements[j], x) {
      SomeIsCommon(v.items[j], elements[j], x);
    }
    ItemIsLower(v, i);
    depth := DifferenceIsExposed(v.items[i], elements[i], x);
  }

  lemma {:induction false} SlotsExposed(v: Value, slots: seq<Slot>, x: Context) returns (depth: nat)
    requires Valid(x) && HasSlots(v, slots, x) != ParsesSlots(v, slots, x)
    ensures ExposesSlots(depth, slots, x)
    decreases Height(v), 1
  {
    depth := 0;
    if v.Obj? {
      SomeSlotsAreCommon(v, slots, x);
      var i :| 0 <= i < |slots| && HasSlot(v, slots[i], x) != ParsesSlot(v, slots[i], x);
      assert OthersCommon(SlotTypes(slots), i, x);
      if Member(v, slots[i].name, x.h).None? {
        UndefinedAgrees(slots[i].ty, x);
        assert LooseAt(slots, i, x);
      } else {
        depth := DifferenceIsExposed(Member(v, slots[i].name, x.h).value, slots[i].ty, x);
      }
    }
  }

  lemma {:induction false} UdtExposed(v: Value, u: UserDefinedType, x: Context) returns (depth: nat)
    requires Valid(x) && u in x.udts && HasUdt(v, u, x) != ParsesUdt(v, u, x)
    ensures ExposesUdt(depth, u, x)
    decreases Height(v), 2, 0
  {
    match u
    case StructType(_, _, fields) =>
      FieldsAsSlots(v, fields, x);
      depth := SlotsExposed(v, SlotsOf(fields, x.c), x);
    case EnumType(_, _, _) =>
      EnumIsVariant(v, u, x);
      assert false;
    case UnionType(_, _, cases) =>
      UnionAsCases(v, u, x);
      var i :| 0 <= i < |cases| && HasCase(v, cases[i], x) != ParsesCase(v, cases[i], x);
      UndefinedAgrees(ValuesOf(cases[i]), x);
      depth := DifferenceIsExposed(Read(v, "values", x.h), ValuesOf(cases[i]), x);
  }

  // ---------------------------------------------------------------- what is exposed has a differing value

  lemma OneItem(w: Value, item: TypeSpec, x: Context)
    requires Sound(x)
    ensures HasType(Arr([w]), VecOf(item), x) <==> HasType(w, item, x)
    ensures Parses(Arr([w]), VecOf(item), x) <==> Parses(w, item, x)
  {
    assert w in Arr([w]).items;
  }

  lemma OneEntry(w: Value, key: TypeSpec, value: TypeSpec, x: Context)
    requires Sound(x)
    ensures HasType(Arr([w]), MapOf(key, value), x) <==> HasSlots(w, EntrySlots(key, value), x)
    ensures Parses(Arr([w]), MapOf(key, value), x) <==> ParsesSlots(w, EntrySlots(key, value), x)
  {
    MapAsSlots(Arr([w]), key, value, x);
    assert w in Arr([w]).items;
  }

  lemma ElementDiffers(elements: seq<TypeSpec>, i: nat, w: Value, x: Context) returns (v: Value)
    requires Sound(x) && i < |elements| && OthersCommon(elements, i, x) && !Agree(w, elements[i], x)
    ensures !Agree(v, TupleOf(elements), x)
  {
    v := ArrayWith(elements, i, w, x);
    TupleAsElements(v, elements, x);
  }

  lemma {:induction false} ExposureDiffers(depth: nat, t: TypeSpec, x: Context) returns (v: Value)
    requires Valid(x) && Exposes(depth, t, x)
    ensures !Agree(v, t, x)
    decreases depth, 0, t
  {
    match t
    case OptionOf(inner) =>
      v := ExposureDiffers(depth, inner, x);
      NullAgrees(inner, x);
    case ResultOf(ok, _) => v := ExposureDiffers(depth, ok, x);
    case VecOf(item) =>
      var w := ExposureDiffers(depth, item, x);
      v := Arr([w]);
      OneItem(w, item, x);
    case MapOf(key, value) =>
      var w := EntryDiffers(depth, key, value, x);
      v := Arr([w]);
      OneEntry(w, key, value, x);
    case TupleOf(elements) =>
      var i :| 0 <= i < |elements| && Exposes(depth, elements[i], x) && OthersCommon(elements, i, x);
      var w := ExposureDiffers(depth, elements[i], x);
      v := ElementDiffers(elements, i, w, x);
    case NamedType(name) =>
      v := UdtDiffers(depth - 1, Target(name, x).value, x);
      NamedIsTarget(v, name, x);
  }

  lemma {:induction false} EntryDiffers(depth: nat, key: TypeSpec, value: TypeSpec, x: Context) returns (v: Value)
    requires Valid(x) && Exposes(depth, MapOf(key, value), x)
    ensures HasSlots(v, EntrySlots(key, value), x) != ParsesSlots(v, EntrySlots(key, value), x)
    decreases depth, 0, MapOf(key, value), 0
  {
    var slots := EntrySlots(key, value);
    KeyIsNotValue(key, value);
    assert SlotTypes(slots)[0] == key && SlotTypes(slots)[1] == value;
    if Loose(slots, x) || Borrowed(slots, x) {
      v := OpenDiffers(slots, x);
    } else if Exposes(depth, key, x) && Common(value, x) {
      var w := ExposureDiffers(depth, key, x);
      v := SlotDiffers(slots, 0, w, x);
    } else {
      var w := ExposureDiffers(depth, value, x);
      v := SlotDiffers(slots, 1, w, x);
    }
  }

  /** A field left out, or a value that is no object. */
  lemma OpenDiffers(slots: seq<Slot>, x: Context) returns (v: Value)
    requires Valid(x) && SlotsDistinct(slots) && (Loose(slots, x) || Borrowed(slots, x))
    ensures HasSlots(v, slots, x) != ParsesSlots(v, slots, x)
  {
    if Borrowed(slots, x) {
      v :| !v.Obj? && HasSlots(v, slots, x);
    } else {
      var i :| 0 <= i < |slots| && LooseAt(slots, i, x);
      UndefinedAgrees(slots[i].ty, x);
      v := ObjectWith(slots, i, None, x);
      assert !HasSlot(v, slots[i], x) && ParsesSlot(v, slots[i], x);
    }
  }

  /** A field filled with a value on which the sides of its type differ. */
  lemma SlotDiffers(slots: seq<Slot>, i: nat, w: Value, x: Context) returns (v: Value)
    requires Valid(x) && SlotsDistinct(slots) && i < |slots| && OthersCommon(SlotTypes(slots), i, x)
    requires !Agree(w, slots[i].ty, x)
    ensures HasSlots(v, slots, x) != ParsesSlots(v, slots, x)
  {
    v := ObjectWith(slots, i, Some(w), x);
    assert HasSlot(v, slots[i], x) != ParsesSlot(v, slots[i], x);
  }

  lemma {:induction false} SlotsDiffer(depth: nat, slots: seq<Slot>, x: Context) returns (v: Value)
    requires Valid(x) && SlotsDistinct(slots) && ExposesSlots(depth, slots, x)
    ensures HasSlots(v, slots, x) != ParsesSlots(v, slots, x)
    decreases depth, 1
  {
    if Loose(slots, x) || Borrowed(slots, x) {
      v := OpenDiffers(slots, x);
    } else {
      var i :| 0 <= i < |slots| && Exposes(depth, slots[i].ty, x) && OthersCommon(SlotTypes(slots), i, x);
      var w := ExposureDiffers(depth, slots[i].ty, x);
      v := SlotDiffers(slots, i, w, x);
    }
  }

  lemma {:induction false} UdtDiffers(depth: nat, u: UserDefinedType, x: Context) returns (v: Value)
    requires Valid(x) && u in x.udts && ExposesUdt(depth, u, x)
    ensures HasUdt(v, u, x) != ParsesUdt(v, u, x)
    decreases depth, 2
  {
    match u
    case StructType(_, _, fields) =>
      FieldsAsSlots(Null, fields, x);
      v := SlotsDiffer(depth, SlotsOf(fields, x.c), x);
      FieldsAsSlots(v, fields, x);
    case UnionType(_, _, cases) =>
      var i :| 0 <= i < |cases| && cases[i].fields != [] && Exposes(depth, ValuesOf(cases[i]), x);
      var w := ExposureDiffers(depth, ValuesOf(cases[i]), x);
      v := CaseWith(cases[i], w, x);
      UnionAsCases(v, u, x);
      OnlyOneTag(v, cases, i, x);
  }

  lemma OnlyOneTag(v: Value, cases: seq<UnionCase>, i: nat, x: Context)
    requires Sound(x) && CasesDistinct(cases) && i < |cases| && Member(v, "case", x.h) == Some(Str(cases[i].name))
    ensures forall j | 0 <= j < |cases| && j != i :: !HasCase(v, cases[j], x) && !ParsesCase(v, cases[j], x)
  {
  }

  // ---------------------------------------------------------------- main results

  /** What is generated from types whose names do not clash is a valid context, whatever the members values inherit. */
  lemma GeneratedIsValid(udts: seq<UserDefinedType>, c: Casing, h: Builtins)
    requires NamesDistinct(udts, c)
    ensures Valid(ContextOf(udts, c, h))
  {
  }

  ghost predicate Exposed(t: TypeSpec, x: Context)
    requires Sound(x)
  {
    exists depth: nat :: Exposes(depth, t, x)
  }

  ghost predicate UdtIsExposed(u: UserDefinedType, x: Context)
    requires Sound(x)
  {
    exists depth: nat :: ExposesUdt(depth, u, x)
  }

  ghost predicate SlotsAreExposed(slots: seq<Slot>, x: Context)
    requires Sound(x)
  {
    exists depth: nat :: ExposesSlots(depth, slots, x)
  }

  /** The two outputs for a type agree on every value exactly when nothing in the type, however deep, is exposed. */
  lemma SchemasMatchTypesExactly(t: TypeSpec, x: Context)
    requires Valid(x)
    ensures (forall v :: Agree(v, t, x)) <==> !Exposed(t, x)
  {
    if v :| !Agree(v, t, x) {
      var depth := DifferenceIsExposed(v, t, x);
    }
    if Exposed(t, x) {
      var depth: nat :| Exposes(depth, t, x);
      var v := ExposureDiffers(depth, t, x);
    }
  }

  /** The same for the declaration and the schema of each user-defined type. */
  lemma UdtMatchesExactly(u: UserDefinedType, x: Context)
    requires Valid(x) && u in x.udts
    ensures (forall v :: HasUdt(v, u, x) <==> ParsesUdt(v, u, x)) <==> !UdtIsExposed(u, x)
  {
    if v :| HasUdt(v, u, x) != ParsesUdt(v, u, x) {
      var depth := UdtExposed(v, u, x);
    }
    if UdtIsExposed(u, x) {
      var depth: nat :| ExposesUdt(depth, u, x);
      var v := UdtDiffers(depth, u, x);
    }
  }

  lemma SlotsMatchExactly(slots: seq<Slot>, x: Context)
    requires Valid(x) && SlotsDistinct(slots)
    ensures (forall v :: HasSlots(v, slots, x) <==> ParsesSlots(v, slots, x)) <==> !SlotsAreExposed(slots, x)
  {
    if v :| HasSlots(v, slots, x) != ParsesSlots(v, slots, x) {
      var depth := SlotsExposed(v, slots, x);
    }
    if SlotsAreExposed(slots, x) {
      var depth: nat :| ExposesSlots(depth, slots, x);
      var v := SlotsDiffer(depth, slots, x);
    }
  }

  predicate HasPayload(v: Value, fields: seq<FieldSpec>, x: Context)
    requires Sound(x)
  {
    Inhabits(v, TsObject(TsFields(fields, x.c)), x.decls, x.h)
  }

  predicate ParsesPayload(v: Value, fields: seq<FieldSpec>, x: Context)
    requires Sound(x)
  {
    Accepts(v, ZObject(ZodFields(fields, x.c)), x.schemas, x.h)
  }

  /** ... and for the interface and the schema of each event's payload. */
  lemma PayloadMatchesExactly(fields: seq<FieldSpec>, x: Context)
    requires Valid(x) && FieldsDistinct(fields, x.c)
    ensures (forall v :: HasPayload(v, fields, x) <==> ParsesPayload(v, fields, x))
       <==> !SlotsAreExposed(SlotsOf(fields, x.c), x)
  {
    var slots := SlotsOf(fields, x.c);
    FieldsAsSlots(Null, fields, x);
    SlotsMatchExactly(slots, x);
    forall v
      ensures HasPayload(v, fields, x) <==> HasSlots(v, slots, x)
      ensures ParsesPayload(v, fields, x) <==> ParsesSlots(v, slots, x)
    {
      FieldsAsSlots(v, fields, x);
    }
  }

  // ---------------------------------------------------------------- a check on the declarations alone

  /** The name is no member that a value which is no object could have. */
  predicate Ordinary(name: string, h: Builtins) {
    && name != "length" && name != "" && !IsDigit(name[0])
    && name !in h.arrays && name !in h.strings && name !in h.numbers && name !in h.booleans
  }

  /** With one ordinary field, only objects have all the members; with no field, everything but undefined and null has. */
  lemma BorrowedExactly(slots: seq<Slot>, x: Context)
    requires Sound(x) && (slots == [] || exists i | 0 <= i < |slots| :: Ordinary(slots[i].name, x.h))
    ensures Borrowed(slots, x) <==> slots == []
  {
    if slots == [] {
      assert HasSlots(Bool(true), slots, x);
    } else if v: Value :| !v.Obj? && HasSlots(v, slots, x) {
      var i :| 0 <= i < |slots| && Ordinary(slots[i].name, x.h);
      assert HasSlot(v, slots[i], x);
      if v.Arr? {
        NoSuchItem(v.items, slots[i].name, 0);
      }
    }
  }

  /** The fields are some, one of them ordinary, and none admits undefined. */
  predicate TightSlots(slots: seq<Slot>, h: Builtins) {
    && (exists i | 0 <= i < |slots| :: Ordinary(slots[i].name, h))
    && forall i | 0 <= i < |slots| :: !AdmitsUndefined(slots[i].ty)
  }

  /** No map of the type has keys or values that admit undefined. */
  predicate Tight(t: TypeSpec, h: Builtins) {
    match t
    case OptionOf(inner) => Tight(inner, h)
    case ResultOf(ok, _) => Tight(ok, h)
    case VecOf(item) => Tight(item, h)
    case MapOf(key, value) => TightSlots(EntrySlots(key, value), h) && Tight(key, h) && Tight(value, h)
    case TupleOf(elements) => forall i | 0 <= i < |elements| :: Tight(elements[i], h)
    case _ => true
  }

  predicate TightFields(fields: seq<FieldSpec>, h: Builtins) {
    forall i | 0 <= i < |fields| :: Tight(fields[i].ty, h)
  }

  predicate TightUdt(u: UserDefinedType, c: Casing, h: Builtins) {
    match u
    case StructType(_, _, fields) => TightSlots(SlotsOf(fields, c), h) && TightFields(fields, h)
    case EnumType(_, _, _) => true
    case UnionType(_, _, cases) => forall i | 0 <= i < |cases| :: TightFields(cases[i].fields, h)
  }

  lemma TightNotOpen(slots: seq<Slot>, x: Context)
    requires Sound(x) && TightSlots(slots, x.h)
    ensures !Loose(slots, x) && !Borrowed(slots, x)
  {
    BorrowedExactly(slots, x);
  }

  lemma {:induction false} TightIsNotExposed(depth: nat, t: TypeSpec, x: Context)
    requires Sound(x) && Tight(t, x.h) && forall u | u in x.udts :: TightUdt(u, x.c, x.h)
    ensures !Exposes(depth, t, x)
    decreases depth, 0, t
  {
    match t
    case OptionOf(inner) => TightIsNotExposed(depth, inner, x);
    case ResultOf(ok, _) => TightIsNotExposed(depth, ok, x);
    case VecOf(item) => TightIsNotExposed(depth, item, x);
    case MapOf(key, value) =>
      TightNotOpen(EntrySlots(key, value), x);
      TightIsNotExposed(depth, key, x);
      TightIsNotExposed(depth, value, x);
    case TupleOf(elements) =>
      forall i | 0 <= i < |elements| ensures !Exposes(depth, elements[i], x) {
        TightIsNotExposed(depth, elements[i], x);
      }
    case NamedType(name) =>
      if depth > 0 && Target(name, x).Some? {
        TightUdtIsNotExposed(depth - 1, Target(name, x).value, x);
      }
    case _ =>
  }

  lemma {:induction false} TightUdtIsNotExposed(depth: nat, u: UserDefinedType, x: Context)
    requires Sound(x) && TightUdt(u, x.c, x.h) && forall w | w in x.udts :: TightUdt(w, x.c, x.h)
    ensures !ExposesUdt(depth, u, x)
    decreases depth, 2
  {
    match u
    case StructType(_, _, fields) =>
      TightNotOpen(SlotsOf(fields, x.c), x);
      forall i | 0 <= i < |fields| ensures !Exposes(depth, fields[i].ty, x) {
        TightIsNotExposed(depth, fields[i].ty, x);
      }
    case EnumType(_, _, _) =>
    case UnionType(_, _, cases) =>
      forall i | 0 <= i < |cases| ensures !Exposes(depth, ValuesOf(cases[i]), x) {
        assert Tight(ValuesOf(cases[i]), x.h);
        TightIsNotExposed(depth, ValuesOf(cases[i]), x);
      }
  }

  /**
   A check on the declarations: where no field of a struct, and no key or value of a map,
   admits undefined, and each struct has an ordinary field, every type agrees with its schema.
   */
  lemma TightTypesAgree(v: Value, t: TypeSpec, x: Context)
    requires Valid(x) && Tight(t, x.h) && forall u | u in x.udts :: TightUdt(u, x.c, x.h)
    ensures HasType(v, t, x) <==> Parses(v, t, x)
  {
    SchemasMatchTypesExactly(t, x);
    forall depth: nat ensures !Exposes(depth, t, x) {
      TightIsNotExposed(depth, t, x);
    }
    assert Agree(v, t, x);
  }

  // ---------------------------------------------------------------- values on one side only

  /** The schema of a struct with one field of any value accepts an object without it; the interface does not. */
  lemma MissingFieldParses(name: string, field: string, c: Casing, h: Builtins)
    requires c.camel(field) !in h.objects
    ensures var u := StructType(name, None, [FieldSpec(field, Prim(Val), None)]);
            var x := ContextOf([u], c, h);
            ParsesUdt(Obj([]), u, x) && !HasUdt(Obj([]), u, x)
  {
    var fields := [FieldSpec(field, Prim(Val), None)];
    EmptyObjectAgainst(fields, ContextOf([StructType(name, None, fields)], c, h));
  }

  lemma EmptyObjectAgainst(fields: seq<FieldSpec>, x: Context)
    requires Sound(x) && |fields| == 1 && x.c.camel(fields[0].name) !in x.h.objects && Parses(Undefined, fields[0].ty, x)
    ensures ParsesPayload(Obj([]), fields, x) && !HasPayload(Obj([]), fields, x)
  {
    var slots := SlotsOf(fields, x.c);
    FieldsAsSlots(Obj([]), fields, x);
    assert Own([], slots[0].name) == None;
    assert !HasSlot(Obj([]), slots[0], x) && ParsesSlot(Obj([]), slots[0], x);
  }

  /** The interface of a struct without fields is met by a boolean; its schema refuses it. */
  lemma BooleanMeetsEmptyStruct(name: string, b: bool, c: Casing, h: Builtins)
    ensures var u := StructType(name, None, []);
            var x := ContextOf([u], c, h);
            HasUdt(Bool(b), u, x) && !ParsesUdt(Bool(b), u, x)
  {
    var x := ContextOf([StructType(name, None, [])], c, h);
    FieldsAsSlots(Bool(b), [], x);
  }

  /** A text meets the interface of a struct whose one field is its length; the schema refuses it. */
  lemma TextMeetsLength(name: string, s: string, c: Casing, h: Builtins)
    requires c.camel("length") == "length"
    ensures var u := StructType(name, None, [FieldSpec("length", Prim(U32), None)]);
            var x := ContextOf([u], c, h);
            HasUdt(Str(s), u, x) && !ParsesUdt(Str(s), u, x)
  {
    var fields := [FieldSpec("length", Prim(U32), None)];
    var x := ContextOf([StructType(name, None, fields)], c, h);
    FieldsAsSlots(Str(s), fields, x);
    assert HasSlot(Str(s), SlotsOf(fields, c)[0], x);
  }
}
