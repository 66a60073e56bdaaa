/** The generated types and schemas by shape: named slots, tuple elements, enum variants and union cases. */
module CodegenShapes {
  import opened Codegen
  import opened ContractSpecs
  import opened DecimalText
  import opened Decimals
  import opened GeneratedTypes
  import opened Results

  /** The generated file: the types it is made from, its two sides, and the members values inherit. */
  datatype Context = Context(
    udts: seq<UserDefinedType>, c: Casing, decls: seq<Decl<TsType>>, schemas: seq<Decl<Zod>>, h: Builtins)

  function ContextOf(udts: seq<UserDefinedType>, c: Casing, h: Builtins): (x: Context)
    ensures Sound(x)
  {
    Context(udts, c, UdtDeclarations(udts, c), UdtSchemas(udts, c), h)
  }

  predicate Sound(x: Context) {
    AllSpelled(x.decls) && AllBuilt(x.schemas)
  }

  /** No two fields of a struct are cased to the same property. */
  predicate FieldsDistinct(fields: seq<FieldSpec>, c: Casing) {
    forall i, j | 0 <= i < j < |fields| :: c.camel(fields[i].name) != c.camel(fields[j].name)
  }

  predicate CasesDistinct(cases: seq<UnionCase>) {
    forall i, j | 0 <= i < j < |cases| :: cases[i].name != cases[j].name
  }

  predicate NamesDistinct(udts: seq<UserDefinedType>, c: Casing) {
    && (forall u | u in udts && u.StructType? :: FieldsDistinct(u.fields, c))
    && (forall u | u in udts && u.UnionType? :: CasesDistinct(u.cases))
  }

  ghost predicate Valid(x: Context) {
    && Sound(x) && NamesDistinct(x.udts, x.c)
    && x.decls == UdtDeclarations(x.udts, x.c) && x.schemas == UdtSchemas(x.udts, x.c)
  }

  // ---------------------------------------------------------------- the two sides

  predicate HasType(v: Value, t: TypeSpec, x: Context)
    requires Sound(x)
  {
    Inhabits(v, TsOf(t, x.c), x.decls, x.h)
  }

  predicate Parses(v: Value, t: TypeSpec, x: Context)
    requires Sound(x)
  {
    Accepts(v, ZodOf(t, x.c), x.schemas, x.h)
  }

  predicate HasUdt(v: Value, u: UserDefinedType, x: Context)
    requires Sound(x)
  {
    Inhabits(v, UdtTs(u, x.c), x.decls, x.h)
  }

  predicate ParsesUdt(v: Value, u: UserDefinedType, x: Context)
    requires Sound(x)
  {
    Accepts(v, UdtZod(u, x.c), x.schemas, x.h)
  }

  /** Some value is on both sides. */
  ghost predicate Common(t: TypeSpec, x: Context)
    requires Sound(x)
  {
    exists v :: HasType(v, t, x) && Parses(v, t, x)
  }

  /** The user-defined type a reference leads to. */
  function Find(udts: seq<UserDefinedType>, ref: string, c: Casing): (r: Option<UserDefinedType>)
    ensures r.Some? ==> r.value in udts
  {
    if udts == [] then None
    else if c.pascal(udts[0].name) == ref then Some(udts[0])
    else Find(udts[1..], ref, c)
  }

  lemma {:induction false} LookupsFind(udts: seq<UserDefinedType>, ref: string, c: Casing)
    ensures var u := Find(udts, ref, c);
            && Lookup(UdtDeclarations(udts, c), ref) == (if u.Some? then Some(UdtTs(u.value, c)) else None)
            && Lookup(UdtSchemas(udts, c), SchemaName(ref)) == (if u.Some? then Some(UdtZod(u.value, c)) else None)
  {
    if udts != [] && c.pascal(udts[0].name) != ref {
      if SchemaName(c.pascal(udts[0].name)) == SchemaName(ref) {
        SchemaNameInjective(c.pascal(udts[0].name), ref);
      }
      LookupsFind(udts[1..], ref, c);
      assert UdtDeclarations(udts, c)[1..] == UdtDeclarations(udts[1..], c);
      assert UdtSchemas(udts, c)[1..] == UdtSchemas(udts[1..], c);
    }
  }

  function Target(name: string, x: Context): (r: Option<UserDefinedType>)
    ensures r.Some? ==> r.value in x.udts
  {
    Find(x.udts, x.c.pascal(name), x.c)
  }

  /** A reference stands for the declaration it leads to, on both sides. */
  lemma NamedIsTarget(v: Value, name: string, x: Context)
    requires Valid(x)
    ensures HasType(v, NamedType(name), x) <==> Target(name, x).Some? && HasUdt(v, Target(name, x).value, x)
    ensures Parses(v, NamedType(name), x) <==> Target(name, x).Some? && ParsesUdt(v, Target(name, x).value, x)
  {
    LookupsFind(x.udts, x.c.pascal(name), x.c);
    ReferenceInhabits(v, x.c.pascal(name), x);
    ReferenceAccepts(v, SchemaName(x.c.pascal(name)), x);
  }

  lemma ReferenceInhabits(v: Value, ref: string, x: Context)
    requires Sound(x)
    ensures Inhabits(v, TsRef(ref), x.decls, x.h)
       <==> Lookup(x.decls, ref).Some? && Inhabits(v, Lookup(x.decls, ref).value, x.decls, x.h)
  {
  }

  lemma ReferenceAccepts(v: Value, ref: string, x: Context)
    requires Sound(x)
    ensures Accepts(v, ZRef(ref), x.schemas, x.h)
       <==> Lookup(x.schemas, ref).Some? && Accepts(v, Lookup(x.schemas, ref).value, x.schemas, x.h)
  {
  }

  // ---------------------------------------------------------------- objects of named fields

  datatype Slot = Slot(name: string, ty: TypeSpec)

  function SlotsOf(fields: seq<FieldSpec>, c: Casing): (slots: seq<Slot>)
    ensures |slots| == |fields|
    ensures forall i | 0 <= i < |fields| :: slots[i] == Slot(c.camel(fields[i].name), fields[i].ty)
  {
    seq(|fields|, i requires 0 <= i < |fields| => Slot(c.camel(fields[i].name), fields[i].ty))
  }

  predicate SlotsDistinct(slots: seq<Slot>) {
    forall i, j | 0 <= i < j < |slots| :: slots[i].name != slots[j].name
  }

  predicate HasSlot(v: Value, s: Slot, x: Context)
    requires Sound(x)
  {
    Member(v, s.name, x.h).Some? && HasType(Member(v, s.name, x.h).value, s.ty, x)
  }

  predicate ParsesSlot(v: Value, s: Slot, x: Context)
    requires Sound(x)
  {
    Parses(Read(v, s.name, x.h), s.ty, x)
  }

  predicate HasSlots(v: Value, slots: seq<Slot>, x: Context)
    requires Sound(x)
  {
    !v.Undefined? && !v.Null? && forall i | 0 <= i < |slots| :: HasSlot(v, slots[i], x)
  }

  predicate ParsesSlots(v: Value, slots: seq<Slot>, x: Context)
    requires Sound(x)
  {
    v.Obj? && forall i | 0 <= i < |slots| :: ParsesSlot(v, slots[i], x)
  }

  lemma ObjectHasSlots(v: Value, fields: seq<TsField>, slots: seq<Slot>, x: Context)
    requires Sound(x) && |fields| == |slots|
    requires forall i | 0 <= i < |slots| :: fields[i] == TsField(slots[i].name, TsOf(slots[i].ty, x.c))
    ensures Inhabits(v, TsObject(fields), x.decls, x.h) <==> HasSlots(v, slots, x)
  {
    if Inhabits(v, TsObject(fields), x.decls, x.h) {
      forall i | 0 <= i < |slots| ensures HasSlot(v, slots[i], x) {
        assert fields[i].name == slots[i].name;
      }
    }
    if HasSlots(v, slots, x) {
      forall i | 0 <= i < |fields|
        ensures var m := Member(v, fields[i].name, x.h); m.Some? && Inhabits(m.value, fields[i].ty, x.decls, x.h)
      {
        assert HasSlot(v, slots[i], x);
      }
    }
  }

  lemma ObjectParsesSlots(v: Value, fields: seq<ZField>, slots: seq<Slot>, x: Context)
    requires Sound(x) && |fields| == |slots| && SlotsDistinct(slots)
    requires forall i | 0 <= i < |slots| :: fields[i] == ZField(slots[i].name, ZodOf(slots[i].ty, x.c))
    ensures Accepts(v, ZObject(fields), x.schemas, x.h) <==> ParsesSlots(v, slots, x)
  {
    if Accepts(v, ZObject(fields), x.schemas, x.h) {
      forall i | 0 <= i < |slots| ensures ParsesSlot(v, slots[i], x) {
        assert Effective(fields, i);
      }
    }
    if ParsesSlots(v, slots, x) {
      forall i | 0 <= i < |fields| && Effective(fields, i)
        ensures Accepts(Read(v, fields[i].name, x.h), fields[i].schema, x.schemas, x.h)
      {
        assert ParsesSlot(v, slots[i], x);
      }
    }
  }

  /** A struct or an event payload, by its slots. */
  lemma FieldsAsSlots(v: Value, fields: seq<FieldSpec>, x: Context)
    requires Sound(x) && FieldsDistinct(fields, x.c)
    ensures Inhabits(v, TsObject(TsFields(fields, x.c)), x.decls, x.h) <==> HasSlots(v, SlotsOf(fields, x.c), x)
    ensures Accepts(v, ZObject(ZodFields(fields, x.c)), x.schemas, x.h) <==> ParsesSlots(v, SlotsOf(fields, x.c), x)
    ensures SlotsDistinct(SlotsOf(fields, x.c))
  {
    ObjectHasSlots(v, TsFields(fields, x.c), SlotsOf(fields, x.c), x);
    ObjectParsesSlots(v, ZodFields(fields, x.c), SlotsOf(fields, x.c), x);
  }

  /** One entry of a map. */
  function EntrySlots(key: TypeSpec, value: TypeSpec): seq<Slot> {
    [Slot("key", key), Slot("value", value)]
  }

  lemma KeyIsNotValue(key: TypeSpec, value: TypeSpec)
    ensures SlotsDistinct(EntrySlots(key, value))
  {
    assert "key"[0] != "value"[0];
  }

  predicate HasEntries(v: Value, slots: seq<Slot>, x: Context)
    requires Sound(x)
  {
    v.Arr? && forall e | e in v.items :: HasSlots(e, slots, x)
  }

  predicate ParsesEntries(v: Value, slots: seq<Slot>, x: Context)
    requires Sound(x)
  {
    v.Arr? && forall e | e in v.items :: ParsesSlots(e, slots, x)
  }

  lemma MapAsSlots(v: Value, key: TypeSpec, value: TypeSpec, x: Context)
    requires Sound(x)
    ensures HasType(v, MapOf(key, value), x) <==> HasEntries(v, EntrySlots(key, value), x)
    ensures Parses(v, MapOf(key, value), x) <==> ParsesEntries(v, EntrySlots(key, value), x)
  {
    var ts := [TsField("key", TsOf(key, x.c)), TsField("value", TsOf(value, x.c))];
    var zs := [ZField("key", ZodOf(key, x.c)), ZField("value", ZodOf(value, x.c))];
    KeyIsNotValue(key, value);
    forall e
      ensures Inhabits(e, TsObject(ts), x.decls, x.h) <==> HasSlots(e, EntrySlots(key, value), x)
      ensures Accepts(e, ZObject(zs), x.schemas, x.h) <==> ParsesSlots(e, EntrySlots(key, value), x)
    {
      ObjectHasSlots(e, ts, EntrySlots(key, value), x);
      ObjectParsesSlots(e, zs, EntrySlots(key, value), x);
    }
  }

  // ---------------------------------------------------------------- tuples

  predicate HasElements(v: Value, elements: seq<TypeSpec>, x: Context)
    requires Sound(x)
  {
    v.Arr? && |v.items| == |elements| && forall i | 0 <= i < |elements| :: HasType(v.items[i], elements[i], x)
  }

  predicate ParsesElements(v: Value, elements: seq<TypeSpec>, x: Context)
    requires Sound(x)
  {
    v.Arr? && |v.items| == |elements| && forall i | 0 <= i < |elements| :: Parses(v.items[i], elements[i], x)
  }

  lemma TupleAsElements(v: Value, elements: seq<TypeSpec>, x: Context)
    requires Sound(x)
    ensures HasType(v, TupleOf(elements), x) <==> HasElements(v, elements, x)
    ensures Parses(v, TupleOf(elements), x) <==> ParsesElements(v, elements, x)
  {
    TupleInhabits(v, TsOf(TupleOf(elements), x.c).elements, elements, x);
    TupleAccepts(v, ZodOf(TupleOf(elements), x.c).elements, elements, x);
  }

  lemma TupleInhabits(v: Value, ts: seq<TsType>, elements: seq<TypeSpec>, x: Context)
    requires Sound(x) && |ts| == |elements| && forall i | 0 <= i < |elements| :: ts[i] == TsOf(elements[i], x.c)
    ensures Inhabits(v, TsTuple(ts), x.decls, x.h) <==> HasElements(v, elements, x)
  {
    if HasElements(v, elements, x) {
      forall i | 0 <= i < |ts| ensures Inhabits(v.items[i], ts[i], x.decls, x.h) {
        assert HasType(v.items[i], elements[i], x);
      }
    }
  }

  lemma TupleAccepts(v: Value, zs: seq<Zod>, elements: seq<TypeSpec>, x: Context)
    requires Sound(x) && |zs| == |elements| && forall i | 0 <= i < |elements| :: zs[i] == ZodOf(elements[i], x.c)
    ensures Accepts(v, ZTuple(zs), x.schemas, x.h) <==> ParsesElements(v, elements, x)
  {
    if ParsesElements(v, elements, x) {
      forall i | 0 <= i < |zs| ensures Accepts(v.items[i], zs[i], x.schemas, x.h) {
        assert Parses(v.items[i], elements[i], x);
      }
    }
  }

  // ---------------------------------------------------------------- enums and unions

  predicate IsVariant(v: Value, variants: seq<EnumVariant>) {
    v.Str? && exists i | 0 <= i < |variants| :: variants[i].name == v.s
  }

  lemma EnumIsVariant(v: Value, u: UserDefinedType, x: Context)
    requires Sound(x) && u.EnumType?
    ensures HasUdt(v, u, x) <==> IsVariant(v, u.variants)
    ensures ParsesUdt(v, u, x) <==> IsVariant(v, u.variants)
  {
    var options := seq(|u.variants|, i requires 0 <= i < |u.variants| => TsLiteral(u.variants[i].name));
    var names := UdtZod(u, x.c).names;
    if u.variants != [] && HasUdt(v, u, x) {
      var i :| 0 <= i < |options| && Inhabits(v, options[i], x.decls, x.h);
      assert v == Str(u.variants[i].name);
    }
    if IsVariant(v, u.variants) {
      var i :| 0 <= i < |u.variants| && u.variants[i].name == v.s;
      assert options[i] in options && Inhabits(v, options[i], x.decls, x.h);
      assert names[i] in names;
    }
  }

  function ValuesOf(k: UnionCase): TypeSpec {
    TupleOf(TypesOf(k.fields))
  }

  predicate HasCase(v: Value, k: UnionCase, x: Context)
    requires Sound(x)
  {
    && v.Obj? && Member(v, "case", x.h) == Some(Str(k.name))
    && (k.fields == [] || HasSlot(v, Slot("values", ValuesOf(k)), x))
  }

  predicate ParsesCase(v: Value, k: UnionCase, x: Context)
    requires Sound(x)
  {
    && v.Obj? && Member(v, "case", x.h) == Some(Str(k.name))
    && (k.fields == [] || ParsesSlot(v, Slot("values", ValuesOf(k)), x))
  }

  lemma {:induction false} NoSuchItem(items: seq<Value>, name: string, first: nat)
    requires name != "" && !IsDigit(name[0])
    ensures ItemNamed(items, name, first) == None
  {
    if items != [] {
      assert AllDigits(Text(Digits(first)));
      NoSuchItem(items[1..], name, first + 1);
    }
  }

  /** Only an object can hold a text under "case". */
  lemma TaggedIsObject(v: Value, x: Context)
    requires Member(v, "case", x.h).Some? && Member(v, "case", x.h).value.Str?
    ensures v.Obj?
  {
    if v.Arr? {
      assert "case"[0] != "length"[0];
      NoSuchItem(v.items, "case", 0);
    }
    assert "case"[0] != "length"[0];
  }

  lemma CaseTsIs(v: Value, k: UnionCase, x: Context)
    requires Sound(x)
    ensures Inhabits(v, CaseTs(k, x.c), x.decls, x.h) <==> HasCase(v, k, x)
  {
    var fields := CaseTs(k, x.c).fields;
    assert fields[0] == TsField("case", TsLiteral(k.name));
    if Inhabits(v, CaseTs(k, x.c), x.decls, x.h) {
      assert Inhabits(Member(v, fields[0].name, x.h).value, fields[0].ty, x.decls, x.h);
      TaggedIsObject(v, x);
      assert k.fields != [] ==> fields[1].name == "values";
    }
  }

  lemma CaseZodIs(v: Value, k: UnionCase, x: Context)
    requires Sound(x)
    ensures Accepts(v, CaseZod(k, x.c), x.schemas, x.h) <==> ParsesCase(v, k, x)
  {
    var fields := CaseZod(k, x.c).fields;
    assert fields[0] == ZField("case", ZLiteral(k.name));
    assert "case"[0] != "values"[0];
    assert Effective(fields, 0);
    assert k.fields != [] ==> Effective(fields, 1) && fields[1].name == "values";
  }

  lemma UnionAsCases(v: Value, u: UserDefinedType, x: Context)
    requires Sound(x) && u.UnionType?
    ensures HasUdt(v, u, x) <==> exists i | 0 <= i < |u.cases| :: HasCase(v, u.cases[i], x)
    ensures ParsesUdt(v, u, x) <==> exists i | 0 <= i < |u.cases| :: ParsesCase(v, u.cases[i], x)
  {
    UnionInhabits(v, u, x);
    UnionAccepts(v, u, x);
  }

  lemma UnionInhabits(v: Value, u: UserDefinedType, x: Context)
    requires Sound(x) && u.UnionType?
    ensures HasUdt(v, u, x) <==> exists i | 0 <= i < |u.cases| :: HasCase(v, u.cases[i], x)
  {
    var ts := seq(|u.cases|, i requires 0 <= i < |u.cases| => CaseTs(u.cases[i], x.c));
    forall i | 0 <= i < |u.cases| ensures ts[i] in ts && (Inhabits(v, ts[i], x.decls, x.h) <==> HasCase(v, u.cases[i], x)) {
      CaseTsIs(v, u.cases[i], x);
    }
    if u.cases != [] && HasUdt(v, u, x) {
      var i :| 0 <= i < |ts| && Inhabits(v, ts[i], x.decls, x.h);
      assert HasCase(v, u.cases[i], x);
    }
  }

  lemma UnionAccepts(v: Value, u: UserDefinedType, x: Context)
    requires Sound(x) && u.UnionType?
    ensures ParsesUdt(v, u, x) <==> exists i | 0 <= i < |u.cases| :: ParsesCase(v, u.cases[i], x)
  {
    var zs := seq(|u.cases|, i requires 0 <= i < |u.cases| => CaseZod(u.cases[i], x.c));
    forall i | 0 <= i < |u.cases| ensures zs[i] in zs && (Accepts(v, zs[i], x.schemas, x.h) <==> ParsesCase(v, u.cases[i], x)) {
      CaseZodIs(v, u.cases[i], x);
    }
    if |u.cases| > 1 && ParsesUdt(v, u, x) {
      var i :| 0 <= i < |zs| && Accepts(v, zs[i], x.schemas, x.h);
      assert ParsesCase(v, u.cases[i], x);
    }
  }
}
