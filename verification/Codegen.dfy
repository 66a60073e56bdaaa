/** The two compilers from the contract type language, to TypeScript types and to Zod schemas. */
module Codegen {
  import opened CodegenNames
  import opened ContractSpecs
  import opened GeneratedTypes
  import opened Results

  /** The generator's casing of type names and of field names. */
  datatype Casing = Casing(pascal: string -> string, camel: string -> string)

  // ---------------------------------------------------------------- types

  function PrimitiveTs(p: Primitive): TsType {
    match p
    case BoolType => TsBoolean
    case U32 | I32 => TsNumber
    case Void => TsVoid
    case ErrorType | Val => TsUnknown
    case _ => TsString
  }

  function PrimitiveZod(p: Primitive): Zod {
    match p
    case BoolType => ZBoolean
    case U32 | I32 => ZNumber
    case Void => ZVoid
    case ErrorType | Val => ZUnknown
    case _ => ZString
  }

  function TsOf(t: TypeSpec, c: Casing): TsType
    decreases t
  {
    match t
    case Prim(p) => PrimitiveTs(p)
    case BytesN(_) => TsString
    case OptionOf(inner) => TsOrNull(TsOf(inner, c))
    case ResultOf(ok, _) => TsOf(ok, c)
    case VecOf(item) => TsArray(TsOf(item, c))
    case MapOf(key, value) => TsArray(TsObject([TsField("key", TsOf(key, c)), TsField("value", TsOf(value, c))]))
    case TupleOf(elements) =>
      TsTuple(seq(|elements|, i requires 0 <= i < |elements| => TsOf(elements[i], c)))
    case NamedType(name) => TsRef(c.pascal(name))
  }

  function SchemaName(name: string): string {
    name + "Schema"
  }

  function ZodOf(t: TypeSpec, c: Casing): Zod
    decreases t
  {
    match t
    case Prim(p) => PrimitiveZod(p)
    case BytesN(_) => ZString
    case OptionOf(inner) => ZNullable(ZodOf(inner, c))
    case ResultOf(ok, _) => ZodOf(ok, c)
    case VecOf(item) => ZArray(ZodOf(item, c))
    case MapOf(key, value) => ZArray(ZObject([ZField("key", ZodOf(key, c)), ZField("value", ZodOf(value, c))]))
    case TupleOf(elements) =>
      ZTuple(seq(|elements|, i requires 0 <= i < |elements| => ZodOf(elements[i], c)))
    case NamedType(name) => ZRef(SchemaName(c.pascal(name)))
  }

  function TsFields(fields: seq<FieldSpec>, c: Casing): seq<TsField> {
    seq(|fields|, i requires 0 <= i < |fields| => TsField(c.camel(fields[i].name), TsOf(fields[i].ty, c)))
  }

  function ZodFields(fields: seq<FieldSpec>, c: Casing): seq<ZField> {
    seq(|fields|, i requires 0 <= i < |fields| => ZField(c.camel(fields[i].name), ZodOf(fields[i].ty, c)))
  }

  function TypesOf(fields: seq<FieldSpec>): seq<TypeSpec> {
    seq(|fields|, i requires 0 <= i < |fields| => fields[i].ty)
  }

  // ---------------------------------------------------------------- user-defined types

  function CaseTs(k: UnionCase, c: Casing): (t: TsType)
    ensures Spelled(t)
  {
    var tag := TsField("case", TsLiteral(k.name));
    if k.fields == [] then TsObject([tag])
    else TsObject([tag, TsField("values", TsOf(TupleOf(TypesOf(k.fields)), c))])
  }

  function CaseZod(k: UnionCase, c: Casing): (z: Zod)
    ensures Built(z)
  {
    var tag := ZField("case", ZLiteral(k.name));
    if k.fields == [] then ZObject([tag])
    else ZObject([tag, ZField("values", ZodOf(TupleOf(TypesOf(k.fields)), c))])
  }

  function UdtTs(u: UserDefinedType, c: Casing): (t: TsType)
    ensures Spelled(t)
  {
    match u
    case StructType(_, _, fields) => TsObject(TsFields(fields, c))
    case EnumType(_, _, variants) =>
      if variants == [] then TsNever
      else TsUnion(seq(|variants|, i requires 0 <= i < |variants| => TsLiteral(variants[i].name)))
    case UnionType(_, _, cases) =>
      if cases == [] then TsNever
      else TsUnion(seq(|cases|, i requires 0 <= i < |cases| => CaseTs(cases[i], c)))
  }

  function UdtZod(u: UserDefinedType, c: Casing): (z: Zod)
    ensures Built(z)
  {
    match u
    case StructType(_, _, fields) => ZObject(ZodFields(fields, c))
    case EnumType(_, _, variants) =>
      ZEnum(seq(|variants|, i requires 0 <= i < |variants| => variants[i].name))
    case UnionType(_, _, cases) =>
      if |cases| > 1 then ZUnion(seq(|cases|, i requires 0 <= i < |cases| => CaseZod(cases[i], c)))
      else if |cases| == 1 then CaseZod(cases[0], c)
      else ZNever
  }

  function UdtDeclarations(udts: seq<UserDefinedType>, c: Casing): (decls: seq<Decl<TsType>>)
    ensures AllSpelled(decls)
  {
    var decls := seq(|udts|, i requires 0 <= i < |udts| => Decl(c.pascal(udts[i].name), UdtTs(udts[i], c)));
    assert forall i | 0 <= i < |udts| :: decls[i].body == UdtTs(udts[i], c);
    decls
  }

  function UdtSchemas(udts: seq<UserDefinedType>, c: Casing): (decls: seq<Decl<Zod>>)
    ensures AllBuilt(decls)
  {
    var decls := seq(|udts|, i requires 0 <= i < |udts| => Decl(SchemaName(c.pascal(udts[i].name)), UdtZod(udts[i], c)));
    assert forall i | 0 <= i < |udts| :: decls[i].body == UdtZod(udts[i], c);
    decls
  }

  /** The pass over the user-defined types. */
  method GenerateUdtDeclarations(udts: seq<UserDefinedType>, c: Casing)
    returns (declarations: seq<Decl<TsType>>, schemas: seq<Decl<Zod>>)
    ensures declarations == UdtDeclarations(udts, c) && schemas == UdtSchemas(udts, c)
  {
    declarations, schemas := [], [];
    for n := 0 to |udts|
      invariant declarations == UdtDeclarations(udts[..n], c)
      invariant schemas == UdtSchemas(udts[..n], c)
    {
      var name := c.pascal(udts[n].name);
      declarations := declarations + [Decl(name, UdtTs(udts[n], c))];
      schemas := schemas + [Decl(SchemaName(name), UdtZod(udts[n], c))];
    }
    assert udts[..|udts|] == udts;
  }

  // ---------------------------------------------------------------- functions, events and hooks

  function EventBases(events: seq<EventSpec>, c: Casing): seq<string> {
    seq(|events|, i requires 0 <= i < |events| => c.pascal(events[i].name) + "Event")
  }

  function EventNames(events: seq<EventSpec>, c: Casing): (names: seq<string>)
    ensures |names| == |events|
  {
    PassNames(EventBases(events, c))
  }

  function EventDeclarations(events: seq<EventSpec>, c: Casing): (decls: seq<Decl<TsType>>)
    ensures AllSpelled(decls)
  {
    var names := EventNames(events, c);
    seq(|events|, i requires 0 <= i < |events| => Decl(names[i], TsObject(TsFields(events[i].data, c))))
  }

  function EventSchemas(events: seq<EventSpec>, c: Casing): (decls: seq<Decl<Zod>>)
    ensures AllBuilt(decls)
  {
    var names := EventNames(events, c);
    seq(|events|, i requires 0 <= i < |events| => Decl(SchemaName(names[i]), ZObject(ZodFields(events[i].data, c))))
  }

  function NextName(events: seq<EventSpec>, n: nat, c: Casing): string
    requires n < |events|
  {
    UniqueName(c.pascal(events[n].name) + "Event", Members(EventNames(events[..n], c)))
  }

  lemma NextEventName(events: seq<EventSpec>, n: nat, c: Casing)
    requires n < |events|
    ensures EventNames(events[..n + 1], c) == EventNames(events[..n], c) + [NextName(events, n, c)]
  {
    assert EventBases(events[..n + 1], c) == EventBases(events[..n], c) + [c.pascal(events[n].name) + "Event"];
    PassNamesExtend(EventBases(events[..n], c), c.pascal(events[n].name) + "Event");
  }

  lemma NextEventDeclaration(events: seq<EventSpec>, n: nat, c: Casing)
    requires n < |events|
    ensures EventDeclarations(events[..n + 1], c)
         == EventDeclarations(events[..n], c) + [Decl(NextName(events, n, c), TsObject(TsFields(events[n].data, c)))]
  {
    NextEventName(events, n, c);
  }

  lemma NextEventSchema(events: seq<EventSpec>, n: nat, c: Casing)
    requires n < |events|
    ensures EventSchemas(events[..n + 1], c)
         == EventSchemas(events[..n], c)
            + [Decl(SchemaName(NextName(events, n, c)), ZObject(ZodFields(events[n].data, c)))]
  {
    NextEventName(events, n, c);
  }

  method GenerateEventDeclarations(events: seq<EventSpec>, c: Casing)
    returns (declarations: seq<Decl<TsType>>, schemas: seq<Decl<Zod>>)
    ensures declarations == EventDeclarations(events, c) && schemas == EventSchemas(events, c)
  {
    declarations, schemas := [], [];
    var usedNames: set<string> := {};
    for n := 0 to |events|
      invariant declarations == EventDeclarations(events[..n], c)
      invariant schemas == EventSchemas(events[..n], c)
      invariant usedNames == Members(EventNames(events[..n], c))
    {
      NextEventName(events, n, c);
      NextEventDeclaration(events, n, c);
      NextEventSchema(events, n, c);
      var interfaceName;
      interfaceName, usedNames := EnsureUniqueName(c.pascal(events[n].name) + "Event", usedNames);
      declarations := declarations + [Decl(interfaceName, TsObject(TsFields(events[n].data, c)))];
      schemas := schemas + [Decl(SchemaName(interfaceName), ZObject(ZodFields(events[n].data, c)))];
    }
    assert events[..|events|] == events;
  }

  datatype Hook = Hook(name: string, interfaceName: string, schemaName: string)

  function Hooks(events: seq<EventSpec>, c: Casing): seq<Hook> {
    var names := EventNames(events, c);
    seq(|events|, i requires 0 <= i < |events| =>
      Hook("use" + c.pascal(events[i].name), names[i], SchemaName(names[i])))
  }

  lemma NextHook(events: seq<EventSpec>, n: nat, c: Casing)
    requires n < |events|
    ensures var name := NextName(events, n, c);
            Hooks(events[..n + 1], c)
            == Hooks(events[..n], c) + [Hook("use" + c.pascal(events[n].name), name, SchemaName(name))]
  {
    NextEventName(events, n, c);
  }

  /** The pass over the hooks works the names out afresh, without looking at the events pass. */
  method GenerateReactHooks(events: seq<EventSpec>, c: Casing) returns (hooks: seq<Hook>)
    ensures hooks == Hooks(events, c)
  {
    hooks := [];
    var usedNames: set<string> := {};
    for n := 0 to |events|
      invariant hooks == Hooks(events[..n], c)
      invariant usedNames == Members(EventNames(events[..n], c))
    {
      NextEventName(events, n, c);
      NextHook(events, n, c);
      var interfaceName;
      interfaceName, usedNames := EnsureUniqueName(c.pascal(events[n].name) + "Event", usedNames);
      hooks := hooks + [Hook("use" + c.pascal(events[n].name), interfaceName, SchemaName(interfaceName))];
    }
    assert events[..|events|] == events;
  }

  function FunctionBases(functions: seq<FunctionSpec>, c: Casing): seq<string> {
    if functions == [] then []
    else
      var n := |functions| - 1;
      var base := c.pascal(functions[n].name);
      FunctionBases(functions[..n], c) + [base + "Params"] + [base + "Returns"]
  }

  /** A function without parameters gets a record of nothing, any other an interface. */
  datatype Params = RecordOfNever | Interface(fields: seq<TsField>)

  function ParamsOf(f: FunctionSpec, c: Casing): Params {
    if f.params == [] then RecordOfNever else Interface(TsFields(f.params, c))
  }

  datatype FunctionDecl = FunctionDecl(paramsName: string, returnsName: string, params: Params, result: TsType)

  function FunctionDeclarations(functions: seq<FunctionSpec>, c: Casing): (decls: seq<FunctionDecl>)
    ensures |decls| == |functions|
  {
    if functions == [] then []
    else
      var n := |functions| - 1;
      var base := c.pascal(functions[n].name);
      var used := Members(PassNames(FunctionBases(functions[..n], c)));
      var paramsName := UniqueName(base + "Params", used);
      FunctionDeclarations(functions[..n], c)
      + [FunctionDecl(paramsName, UniqueName(base + "Returns", used + {paramsName}),
                      ParamsOf(functions[n], c), TsOf(functions[n].result, c))]
  }

  lemma MembersExtend(names: seq<string>, name: string)
    ensures Members(names + [name]) == Members(names) + {name}
  {
  }

  lemma FunctionNamesExtend(functions: seq<FunctionSpec>, c: Casing)
    requires functions != []
    ensures var n := |functions| - 1;
            var last := FunctionDeclarations(functions, c)[n];
            PassNames(FunctionBases(functions, c))
            == PassNames(FunctionBases(functions[..n], c)) + [last.paramsName] + [last.returnsName]
  {
    var n := |functions| - 1;
    var base := c.pascal(functions[n].name);
    var bases := FunctionBases(functions[..n], c);
    PassNamesExtend(bases, base + "Params");
    PassNamesExtend(bases + [base + "Params"], base + "Returns");
    MembersExtend(PassNames(bases), UniqueName(base + "Params", Members(PassNames(bases))));
  }

  lemma NextFunction(functions: seq<FunctionSpec>, n: nat, c: Casing)
    requires n < |functions|
    ensures var used := Members(PassNames(FunctionBases(functions[..n], c)));
            var base := c.pascal(functions[n].name);
            var p := UniqueName(base + "Params", used);
            var r := UniqueName(base + "Returns", used + {p});
            && FunctionDeclarations(functions[..n + 1], c)
               == FunctionDeclarations(functions[..n], c)
                  + [FunctionDecl(p, r, ParamsOf(functions[n], c), TsOf(functions[n].result, c))]
            && Members(PassNames(FunctionBases(functions[..n + 1], c))) == used + {p} + {r}
  {
    assert functions[..n + 1][..n] == functions[..n];
    FunctionNamesExtend(functions[..n + 1], c);
    var names := PassNames(FunctionBases(functions[..n], c));
    var last := FunctionDeclarations(functions[..n + 1], c)[n];
    MembersExtend(names, last.paramsName);
    MembersExtend(names + [last.paramsName], last.returnsName);
  }

  /** The pass over the functions: two names each, from one pool. */
  method GenerateFunctionDeclarations(functions: seq<FunctionSpec>, c: Casing) returns (decls: seq<FunctionDecl>)
    ensures decls == FunctionDeclarations(functions, c)
  {
    decls := [];
    var usedNames: set<string> := {};
    for n := 0 to |functions|
      invariant decls == FunctionDeclarations(functions[..n], c)
      invariant usedNames == Members(PassNames(FunctionBases(functions[..n], c)))
    {
      NextFunction(functions, n, c);
      var base := c.pascal(functions[n].name);
      var paramsName, returnsName;
      paramsName, usedNames := EnsureUniqueName(base + "Params", usedNames);
      returnsName, usedNames := EnsureUniqueName(base + "Returns", usedNames);
      var params := if functions[n].params == [] then RecordOfNever else Interface(TsFields(functions[n].params, c));
      decls := decls + [FunctionDecl(paramsName, returnsName, params, TsOf(functions[n].result, c))];
    }
    assert functions[..|functions|] == functions;
  }

  /** The names of the declarations, in order. */
  function NamesIn(decls: seq<FunctionDecl>): (names: seq<string>)
    ensures |names| == 2 * |decls|
    ensures forall i | 0 <= i < |decls| :: names[2 * i] == decls[i].paramsName && names[2 * i + 1] == decls[i].returnsName
  {
    if decls == [] then []
    else
      var n := |decls| - 1;
      NamesIn(decls[..n]) + [decls[n].paramsName] + [decls[n].returnsName]
  }

  lemma {:induction false} NamesInAreThePass(functions: seq<FunctionSpec>, c: Casing)
    ensures NamesIn(FunctionDeclarations(functions, c)) == PassNames(FunctionBases(functions, c))
  {
    if functions != [] {
      var n := |functions| - 1;
      NamesInAreThePass(functions[..n], c);
      FunctionNamesExtend(functions, c);
      assert FunctionDeclarations(functions, c)[..n] == FunctionDeclarations(functions[..n], c);
    }
  }

  /** No two of all the parameter and return type names of a spec are the same. */
  lemma FunctionNamesDistinct(functions: seq<FunctionSpec>, c: Casing, i: nat, j: nat)
    requires i < |functions| && j < |functions|
    ensures var decls := FunctionDeclarations(functions, c);
            && decls[i].paramsName != decls[j].returnsName
            && (i != j ==> decls[i].paramsName != decls[j].paramsName && decls[i].returnsName != decls[j].returnsName)
  {
    var names := NamesIn(FunctionDeclarations(functions, c));
    NamesInAreThePass(functions, c);
    PassNamesDistinct(FunctionBases(functions, c));
    assert names[2 * i] != names[2 * j + 1];
    assert i != j ==> names[2 * i] != names[2 * j] && names[2 * i + 1] != names[2 * j + 1];
  }

  /** Interface names, and with them schema names, are distinct; hook names are so exactly when the cased event names are. */
  lemma EventAndHookNames(events: seq<EventSpec>, c: Casing, i: nat, j: nat)
    requires i < j < |events|
    ensures EventDeclarations(events, c)[i].name != EventDeclarations(events, c)[j].name
    ensures EventSchemas(events, c)[i].name != EventSchemas(events, c)[j].name
    ensures Hooks(events, c)[i].schemaName == EventSchemas(events, c)[i].name
    ensures Hooks(events, c)[i].interfaceName == EventDeclarations(events, c)[i].name
    ensures Hooks(events, c)[i].name == Hooks(events, c)[j].name
       <==> c.pascal(events[i].name) == c.pascal(events[j].name)
  {
    PassNamesDistinct(EventBases(events, c));
    var names := EventNames(events, c);
    if SchemaName(names[i]) == SchemaName(names[j]) {
      SchemaNameInjective(names[i], names[j]);
    }
    var p, q := c.pascal(events[i].name), c.pascal(events[j].name);
    assert ("use" + p)[3..] == p && ("use" + q)[3..] == q;
  }

  lemma SchemaNameInjective(a: string, b: string)
    requires SchemaName(a) == SchemaName(b)
    ensures a == b
  {
    assert a == SchemaName(a)[..|SchemaName(a)| - 6] && b == SchemaName(b)[..|SchemaName(b)| - 6];
  }
}
