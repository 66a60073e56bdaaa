/** What the generated types and schemas say of each contract type, one constructor at a time. */
module CodegenMeaning {
  import opened Codegen
  import opened CodegenNames
  import opened CodegenShapes
  import opened ContractSpecs
  import opened GeneratedTypes
  import opened Results

  /** The JavaScript values of a primitive: 64-bit and wider integers, bytes, symbols and addresses are texts. */
  predicate IsPrimitiveValue(v: Value, p: Primitive) {
    match p
    case BoolType => v.Bool?
    case U32 | I32 => v.Number?
    case U64 | I64 | U128 | I128 | U256 | I256 => v.Str?
    case Bytes | String | Symbol | Address => v.Str?
    case Void => v == Undefined
    case ErrorType | Val => true
  }

  /** A value has a generated type exactly when its parts have theirs, in the form its constructor asks for. */
  lemma TypeMeaning(v: Value, t: TypeSpec, x: Context)
    requires Valid(x)
    ensures HasType(v, t, x) <==>
            match t
            case Prim(p) => IsPrimitiveValue(v, p)
            case BytesN(_) => v.Str?
            case OptionOf(inner) => v == Null || HasType(v, inner, x)
            case ResultOf(ok, _) => HasType(v, ok, x)
            case VecOf(item) => v.Arr? && forall i | 0 <= i < |v.items| :: HasType(v.items[i], item, x)
            case MapOf(key, value) =>
              v.Arr? && forall i | 0 <= i < |v.items| :: HasSlots(v.items[i], [Slot("key", key), Slot("value", value)], x)
            case TupleOf(elements) =>
              v.Arr? && |v.items| == |elements| && forall i | 0 <= i < |elements| :: HasType(v.items[i], elements[i], x)
            case NamedType(name) =>
              exists u :: Target(name, x) == Some(u) && HasUdt(v, u, x)
  {
    match t
    case MapOf(key, value) => MapAsSlots(v, key, value, x);
    case TupleOf(elements) => TupleAsElements(v, elements, x);
    case NamedType(name) => NamedIsTarget(v, name, x);
    case VecOf(item) => ItemsByPosition(v);
    case _ =>
  }

  lemma ItemsByPosition(v: Value)
    ensures v.Arr? ==> forall y :: y in v.items <==> exists i :: 0 <= i < |v.items| && v.items[i] == y
  {
  }

  /** The same for the values a generated schema accepts. */
  lemma SchemaMeaning(v: Value, t: TypeSpec, x: Context)
    requires Valid(x)
    ensures Parses(v, t, x) <==>
            match t
            case Prim(p) => IsPrimitiveValue(v, p)
            case BytesN(_) => v.Str?
            case OptionOf(inner) => v == Null || Parses(v, inner, x)
            case ResultOf(ok, _) => Parses(v, ok, x)
            case VecOf(item) => v.Arr? && forall i | 0 <= i < |v.items| :: Parses(v.items[i], item, x)
            case MapOf(key, value) =>
              v.Arr? && forall i | 0 <= i < |v.items| :: ParsesSlots(v.items[i], [Slot("key", key), Slot("value", value)], x)
            case TupleOf(elements) =>
              v.Arr? && |v.items| == |elements| && forall i | 0 <= i < |elements| :: Parses(v.items[i], elements[i], x)
            case NamedType(name) =>
              exists u :: Target(name, x) == Some(u) && ParsesUdt(v, u, x)
  {
    match t
    case MapOf(key, value) => MapAsSlots(v, key, value, x);
    case TupleOf(elements) => TupleAsElements(v, elements, x);
    case NamedType(name) => NamedIsTarget(v, name, x);
    case VecOf(item) => ItemsByPosition(v);
    case _ =>
  }

  /**
   A struct is what has all its fields under their cased names, an enum the text of one of its
   variants, a union what is tagged with one of its cases and has that case's values.
   */
  lemma UdtMeaning(v: Value, u: UserDefinedType, x: Context)
    requires Valid(x) && u in x.udts
    ensures HasUdt(v, u, x) <==>
            match u
            case StructType(_, _, fields) =>
              v != Undefined && v != Null &&
              forall i | 0 <= i < |fields| :: HasField(v, fields[i], x)
            case EnumType(_, _, variants) => exists i :: 0 <= i < |variants| && v == Str(variants[i].name)
            case UnionType(_, _, cases) => exists i :: 0 <= i < |cases| && HasCase(v, cases[i], x)
    ensures ParsesUdt(v, u, x) <==>
            match u
            case StructType(_, _, fields) => v.Obj? && forall i | 0 <= i < |fields| :: ParsesField(v, fields[i], x)
            case EnumType(_, _, variants) => exists i :: 0 <= i < |variants| && v == Str(variants[i].name)
            case UnionType(_, _, cases) => exists i :: 0 <= i < |cases| && ParsesCase(v, cases[i], x)
  {
    match u
    case StructType(_, _, fields) =>
      InterfaceMeaning(v, fields, x);
      FieldsMeaning(v, fields, x);
    case EnumType(_, _, _) => EnumIsVariant(v, u, x);
    case UnionType(_, _, _) => UnionAsCases(v, u, x);
  }

  predicate HasField(v: Value, f: FieldSpec, x: Context)
    requires Sound(x)
  {
    var m := Member(v, x.c.camel(f.name), x.h);
    m.Some? && HasType(m.value, f.ty, x)
  }

  predicate ParsesField(v: Value, f: FieldSpec, x: Context)
    requires Sound(x)
  {
    var m := Member(v, x.c.camel(f.name), x.h);
    Parses(if m.Some? then m.value else Undefined, f.ty, x)
  }

  /** An interface asks for every field even where two are cased to the same property. */
  lemma InterfaceMeaning(v: Value, fields: seq<FieldSpec>, x: Context)
    requires Sound(x)
    ensures Inhabits(v, TsObject(TsFields(fields, x.c)), x.decls, x.h)
       <==> v != Undefined && v != Null && forall i | 0 <= i < |fields| :: HasField(v, fields[i], x)
  {
    var slots := SlotsOf(fields, x.c);
    ObjectHasSlots(v, TsFields(fields, x.c), slots, x);
    assert forall i | 0 <= i < |fields| :: HasSlot(v, slots[i], x) <==> HasField(v, fields[i], x);
  }

  lemma FieldsMeaning(v: Value, fields: seq<FieldSpec>, x: Context)
    requires Sound(x) && FieldsDistinct(fields, x.c)
    ensures Accepts(v, ZObject(ZodFields(fields, x.c)), x.schemas, x.h)
       <==> v.Obj? && forall i | 0 <= i < |fields| :: ParsesField(v, fields[i], x)
  {
    var slots := SlotsOf(fields, x.c);
    ObjectParsesSlots(v, ZodFields(fields, x.c), slots, x);
    assert forall i | 0 <= i < |fields| :: ParsesSlot(v, slots[i], x) <==> ParsesField(v, fields[i], x);
  }

  predicate Declares(d: FunctionDecl, f: FunctionSpec, c: Casing) {
    d.params == ParamsOf(f, c) && d.result == TsOf(f.result, c)
  }

  lemma LastDeclaration(functions: seq<FunctionSpec>, c: Casing) returns (last: FunctionDecl)
    requires functions != []
    ensures FunctionDeclarations(functions, c) == FunctionDeclarations(functions[..|functions| - 1], c) + [last]
    ensures Declares(last, functions[|functions| - 1], c)
  {
    last := FunctionDeclarations(functions, c)[|functions| - 1];
  }

  lemma {:induction false} DeclarationOf(functions: seq<FunctionSpec>, k: nat, c: Casing)
    requires k < |functions|
    ensures Declares(FunctionDeclarations(functions, c)[k], functions[k], c)
  {
    var last := LastDeclaration(functions, c);
    if k < |functions| - 1 {
      DeclarationOf(functions[..|functions| - 1], k, c);
    }
  }

  /**
   Each function has one declaration, in order: the arguments it describes are nothing at all
   for a function without parameters and otherwise what has every parameter, and the result is
   of the type the function returns.
   */
  lemma FunctionMeaning(functions: seq<FunctionSpec>, k: nat, v: Value, x: Context)
    requires Sound(x) && k < |functions|
    ensures var d := FunctionDeclarations(functions, x.c)[k];
            && (d.params == RecordOfNever <==> functions[k].params == [])
            && (functions[k].params != [] ==>
                  (Inhabits(v, TsObject(d.params.fields), x.decls, x.h) <==>
                     v != Undefined && v != Null
                     && forall i | 0 <= i < |functions[k].params| :: HasField(v, functions[k].params[i], x)))
            && (Inhabits(v, d.result, x.decls, x.h) <==> HasType(v, functions[k].result, x))
  {
    DeclarationOf(functions, k, x.c);
    InterfaceMeaning(v, functions[k].params, x);
  }

  /** Each event has one interface and one schema, in order, for what has every field of its data. */
  lemma EventMeaning(events: seq<EventSpec>, k: nat, v: Value, x: Context)
    requires Sound(x) && k < |events| && FieldsDistinct(events[k].data, x.c)
    ensures |EventDeclarations(events, x.c)| == |EventSchemas(events, x.c)| == |events|
    ensures Inhabits(v, EventDeclarations(events, x.c)[k].body, x.decls, x.h)
       <==> v != Undefined && v != Null && forall i | 0 <= i < |events[k].data| :: HasField(v, events[k].data[i], x)
    ensures Accepts(v, EventSchemas(events, x.c)[k].body, x.schemas, x.h)
       <==> v.Obj? && forall i | 0 <= i < |events[k].data| :: ParsesField(v, events[k].data[i], x)
  {
    InterfaceMeaning(v, events[k].data, x);
    FieldsMeaning(v, events[k].data, x);
  }

  /**
   The names: a base keeps its name exactly when no earlier base was given it, so the first
   base of a pass always does.
   */
  lemma {:induction false} FirstKeepsItsName(bases: seq<string>, i: nat)
    requires i < |bases|
    ensures PassNames(bases)[i] == bases[i] <==> forall j | 0 <= j < i :: PassNames(bases)[j] != bases[i]
  {
    var n := |bases| - 1;
    var earlier := PassNames(bases[..n]);
    assert forall j | 0 <= j < n :: PassNames(bases)[j] == earlier[j];
    if i < n {
      FirstKeepsItsName(bases[..n], i);
    } else {
      KeptWhenNew(bases[n], earlier);
    }
  }

  lemma KeptWhenNew(base: string, earlier: seq<string>)
    ensures UniqueName(base, Members(earlier)) == base <==> forall j | 0 <= j < |earlier| :: earlier[j] != base
  {
    UniqueNameIsNew(base, Members(earlier));
  }
}
