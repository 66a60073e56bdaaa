/** When the generated schema module loads. */
module CodegenLoading {
  import opened Codegen
  import opened ContractSpecs
  import opened GeneratedTypes
  import opened Results

  /** The user-defined types a schema has to name; an error type is left out of it. */
  function Mentioned(t: TypeSpec): set<string>
    decreases t
  {
    match t
    case OptionOf(inner) => Mentioned(inner)
    case ResultOf(ok, _) => Mentioned(ok)
    case VecOf(item) => Mentioned(item)
    case MapOf(key, value) => Mentioned(key) + Mentioned(value)
    case TupleOf(elements) => set e, n | e in elements && n in Mentioned(e) :: n
    case NamedType(name) => {name}
    case _ => {}
  }

  function MentionedBy(fields: seq<FieldSpec>): set<string> {
    set f, n | f in fields && n in Mentioned(f.ty) :: n
  }

  function MentionedByUdt(u: UserDefinedType): set<string> {
    match u
    case StructType(_, _, fields) => MentionedBy(fields)
    case EnumType(_, _, _) => {}
    case UnionType(_, _, cases) => set k, n | k in cases && n in MentionedBy(k.fields) :: n
  }

  function SchemaNames(names: set<string>, c: Casing): set<string> {
    set n | n in names :: SchemaName(c.pascal(n))
  }

  lemma {:induction false} ReferencesOfType(t: TypeSpec, c: Casing)
    ensures References(ZodOf(t, c)) == SchemaNames(Mentioned(t), c)
    decreases t
  {
    match t
    case OptionOf(inner) => ReferencesOfType(inner, c);
    case ResultOf(ok, _) => ReferencesOfType(ok, c);
    case VecOf(item) => ReferencesOfType(item, c);
    case MapOf(key, value) =>
      ReferencesOfType(key, c);
      ReferencesOfType(value, c);
      ReferencesOfTwo(ZField("key", ZodOf(key, c)), ZField("value", ZodOf(value, c)));
    case TupleOf(elements) =>
      forall i | 0 <= i < |elements| ensures References(ZodOf(elements[i], c)) == SchemaNames(Mentioned(elements[i]), c) {
        ReferencesOfType(elements[i], c);
      }
      ReferencesOfTuple(elements, c);
    case _ =>
  }

  lemma ReferencesOfOne(a: ZField)
    ensures References(ZObject([a])) == References(a.schema)
  {
    assert a in [a] && FieldReferences(a) == References(a.schema);
  }

  lemma ReferencesOfTwo(a: ZField, b: ZField)
    ensures References(ZObject([a, b])) == References(a.schema) + References(b.schema)
  {
    assert a in [a, b] && b in [a, b];
    assert FieldReferences(a) == References(a.schema) && FieldReferences(b) == References(b.schema);
  }

  lemma ReferencesOfTuple(elements: seq<TypeSpec>, c: Casing)
    requires forall i | 0 <= i < |elements| :: References(ZodOf(elements[i], c)) == SchemaNames(Mentioned(elements[i]), c)
    ensures References(ZodOf(TupleOf(elements), c)) == SchemaNames(Mentioned(TupleOf(elements)), c)
  {
    var zs := ZodOf(TupleOf(elements), c).elements;
    forall r | r in References(ZTuple(zs)) ensures r in SchemaNames(Mentioned(TupleOf(elements)), c) {
      var i :| 0 <= i < |zs| && r in References(zs[i]);
      assert elements[i] in elements;
    }
    forall r | r in SchemaNames(Mentioned(TupleOf(elements)), c) ensures r in References(ZTuple(zs)) {
      var n :| n in Mentioned(TupleOf(elements)) && r == SchemaName(c.pascal(n));
      var i :| 0 <= i < |elements| && n in Mentioned(elements[i]);
      assert zs[i] in zs && r in References(zs[i]);
    }
  }

  lemma ReferencesOfFields(fields: seq<FieldSpec>, c: Casing)
    ensures References(ZObject(ZodFields(fields, c))) == SchemaNames(MentionedBy(fields), c)
  {
    var zs := ZodFields(fields, c);
    forall r | r in References(ZObject(zs)) ensures r in SchemaNames(MentionedBy(fields), c) {
      var i :| 0 <= i < |zs| && r in FieldReferences(zs[i]);
      ReferencesOfType(fields[i].ty, c);
      assert fields[i] in fields;
    }
    forall r | r in SchemaNames(MentionedBy(fields), c) ensures r in References(ZObject(zs)) {
      var n :| n in MentionedBy(fields) && r == SchemaName(c.pascal(n));
      var i :| 0 <= i < |fields| && n in Mentioned(fields[i].ty);
      ReferencesOfType(fields[i].ty, c);
      assert zs[i] in zs && r in FieldReferences(zs[i]);
    }
  }

  lemma MentionedByTuple(fields: seq<FieldSpec>)
    ensures Mentioned(TupleOf(TypesOf(fields))) == MentionedBy(fields)
  {
    var types := TypesOf(fields);
    forall n | n in Mentioned(TupleOf(types)) ensures n in MentionedBy(fields) {
      var i :| 0 <= i < |types| && n in Mentioned(types[i]);
      assert fields[i] in fields;
    }
    forall n | n in MentionedBy(fields) ensures n in Mentioned(TupleOf(types)) {
      var i :| 0 <= i < |fields| && n in Mentioned(fields[i].ty);
      assert types[i] in types;
    }
  }

  lemma ReferencesOfCase(k: UnionCase, c: Casing)
    ensures References(CaseZod(k, c)) == SchemaNames(MentionedBy(k.fields), c)
  {
    var tag := ZField("case", ZLiteral(k.name));
    if k.fields == [] {
      ReferencesOfOne(tag);
    } else {
      var values := TupleOf(TypesOf(k.fields));
      ReferencesOfTwo(tag, ZField("values", ZodOf(values, c)));
      ReferencesOfType(values, c);
      MentionedByTuple(k.fields);
    }
  }

  lemma ReferencesOfUdt(u: UserDefinedType, c: Casing)
    ensures References(UdtZod(u, c)) == SchemaNames(MentionedByUdt(u), c)
  {
    match u
    case StructType(_, _, fields) => ReferencesOfFields(fields, c);
    case EnumType(_, _, _) =>
    case UnionType(_, _, cases) => ReferencesOfUnion(u, c);
  }

  lemma ReferencesOfUnion(u: UserDefinedType, c: Casing)
    requires u.UnionType?
    ensures References(UdtZod(u, c)) == SchemaNames(MentionedByUdt(u), c)
  {
    var zs := seq(|u.cases|, i requires 0 <= i < |u.cases| => CaseZod(u.cases[i], c));
    forall r | r in References(UdtZod(u, c)) ensures r in SchemaNames(MentionedByUdt(u), c) {
      var i :| 0 <= i < |zs| && r in References(zs[i]);
      ReferencesOfCase(u.cases[i], c);
      assert u.cases[i] in u.cases;
    }
    forall r | r in SchemaNames(MentionedByUdt(u), c) ensures r in References(UdtZod(u, c)) {
      var n :| n in MentionedByUdt(u) && r == SchemaName(c.pascal(n));
      var i :| 0 <= i < |u.cases| && n in MentionedBy(u.cases[i].fields);
      ReferencesOfCase(u.cases[i], c);
      assert zs[i] in zs && r in References(zs[i]);
    }
  }

  function NamesBefore(decls: seq<Decl<Zod>>, i: nat): set<string>
    requires i <= |decls|
  {
    set j | 0 <= j < i :: decls[j].name
  }

  lemma {:induction false} InitialisedExactly(decls: seq<Decl<Zod>>)
    ensures Initialise(decls).Ok? <==> forall i | 0 <= i < |decls| :: References(decls[i].body) <= NamesBefore(decls, i)
    ensures Initialise(decls).Ok? ==> Initialise(decls).value.Keys == NamesBefore(decls, |decls|)
  {
    if decls != [] {
      var n := |decls| - 1;
      var init := decls[..n];
      InitialisedExactly(init);
      forall i | 0 <= i <= n ensures NamesBefore(init, i) == NamesBefore(decls, i) {
        assert forall j | 0 <= j < i :: init[j].name == decls[j].name;
      }
      assert NamesBefore(decls, n + 1) == NamesBefore(decls, n) + {decls[n].name};
    }
  }

  /** The names of the schemas' types in the generated module, in order: user-defined types, then events. */
  function DeclaredNames(udts: seq<UserDefinedType>, events: seq<EventSpec>, c: Casing): (names: seq<string>)
    ensures |names| == |udts| + |events|
  {
    seq(|udts|, i requires 0 <= i < |udts| => c.pascal(udts[i].name)) + EventNames(events, c)
  }

  function MentionedAt(udts: seq<UserDefinedType>, events: seq<EventSpec>, i: nat): set<string>
    requires i < |udts| + |events|
  {
    if i < |udts| then MentionedByUdt(udts[i]) else MentionedBy(events[i - |udts|].data)
  }

  function SchemaModule(udts: seq<UserDefinedType>, events: seq<EventSpec>, c: Casing): (decls: seq<Decl<Zod>>)
    ensures |decls| == |udts| + |events|
  {
    UdtSchemas(udts, c) + EventSchemas(events, c)
  }

  lemma ModuleAt(udts: seq<UserDefinedType>, events: seq<EventSpec>, c: Casing, i: nat)
    requires i < |udts| + |events|
    ensures SchemaModule(udts, events, c)[i].name == SchemaName(DeclaredNames(udts, events, c)[i])
    ensures References(SchemaModule(udts, events, c)[i].body) == SchemaNames(MentionedAt(udts, events, i), c)
  {
    if i < |udts| {
      ReferencesOfUdt(udts[i], c);
    } else {
      ReferencesOfFields(events[i - |udts|].data, c);
    }
  }

  /** No name is declared twice, and each schema only names schemas declared before it. */
  predicate DeclaredBeforeUse(udts: seq<UserDefinedType>, events: seq<EventSpec>, c: Casing) {
    var names := DeclaredNames(udts, events, c);
    && (forall i, j | 0 <= i < j < |names| :: names[i] != names[j])
    && forall i | 0 <= i < |names| ::
         forall n | n in MentionedAt(udts, events, i) :: c.pascal(n) in names[..i]
  }

  lemma DistinctNames(udts: seq<UserDefinedType>, events: seq<EventSpec>, c: Casing)
    ensures var decls, names := SchemaModule(udts, events, c), DeclaredNames(udts, events, c);
            (exists i, j :: 0 <= i < j < |decls| && decls[i].name == decls[j].name)
            <==> exists i, j :: 0 <= i < j < |names| && names[i] == names[j]
  {
    var decls, names := SchemaModule(udts, events, c), DeclaredNames(udts, events, c);
    forall i | 0 <= i < |decls| ensures decls[i].name == SchemaName(names[i]) {
      ModuleAt(udts, events, c, i);
    }
    if i, j :| 0 <= i < j < |decls| && decls[i].name == decls[j].name {
      SchemaNameInjective(names[i], names[j]);
    }
    if i, j :| 0 <= i < j < |names| && names[i] == names[j] {
      assert decls[i].name == decls[j].name;
    }
  }

  /** What a schema names is bound when it is built exactly when every type it mentions comes earlier. */
  lemma BoundExactly(udts: seq<UserDefinedType>, events: seq<EventSpec>, c: Casing, i: nat)
    requires i < |udts| + |events|
    ensures References(SchemaModule(udts, events, c)[i].body) <= NamesBefore(SchemaModule(udts, events, c), i)
       <==> forall n | n in MentionedAt(udts, events, i) :: c.pascal(n) in DeclaredNames(udts, events, c)[..i]
  {
    var decls, names := SchemaModule(udts, events, c), DeclaredNames(udts, events, c);
    ModuleAt(udts, events, c, i);
    forall n ensures SchemaName(c.pascal(n)) in NamesBefore(decls, i) <==> c.pascal(n) in names[..i] {
      BoundName(udts, events, c, i, c.pascal(n));
    }
    forall n | n in MentionedAt(udts, events, i)
      ensures SchemaName(c.pascal(n)) in References(decls[i].body)
    {
    }
  }

  lemma BoundName(udts: seq<UserDefinedType>, events: seq<EventSpec>, c: Casing, i: nat, name: string)
    requires i < |udts| + |events|
    ensures SchemaName(name) in NamesBefore(SchemaModule(udts, events, c), i)
       <==> name in DeclaredNames(udts, events, c)[..i]
  {
    var decls, names := SchemaModule(udts, events, c), DeclaredNames(udts, events, c);
    if SchemaName(name) in NamesBefore(decls, i) {
      var j :| 0 <= j < i && decls[j].name == SchemaName(name);
      ModuleAt(udts, events, c, j);
      SchemaNameInjective(names[j], name);
      assert names[..i][j] == name;
    }
    if name in names[..i] {
      var j :| 0 <= j < i && names[j] == name;
      ModuleAt(udts, events, c, j);
      assert decls[j].name in NamesBefore(decls, i);
    }
  }

  /** The generated schema module loads exactly when names are distinct and every type is declared before use. */
  lemma LoadsExactly(udts: seq<UserDefinedType>, events: seq<EventSpec>, c: Casing)
    ensures Load(SchemaModule(udts, events, c)).Ok? <==> DeclaredBeforeUse(udts, events, c)
  {
    DistinctNames(udts, events, c);
    InitialisedExactly(SchemaModule(udts, events, c));
    forall i | 0 <= i < |udts| + |events|
      ensures References(SchemaModule(udts, events, c)[i].body) <= NamesBefore(SchemaModule(udts, events, c), i)
         <==> forall n | n in MentionedAt(udts, events, i) :: c.pascal(n) in DeclaredNames(udts, events, c)[..i]
    {
      BoundExactly(udts, events, c, i);
    }
  }

  /** A type that mentions itself has agreeing outputs, but a schema module that cannot be loaded. */
  lemma RecursiveTypesDoNotLoad(udts: seq<UserDefinedType>, events: seq<EventSpec>, c: Casing, k: nat, name: string)
    requires k < |udts| && name in MentionedByUdt(udts[k]) && c.pascal(name) == c.pascal(udts[k].name)
    ensures Load(SchemaModule(udts, events, c)).Err?
  {
    LoadsExactly(udts, events, c);
    var names := DeclaredNames(udts, events, c);
    assert names[k] == c.pascal(udts[k].name);
    assert name in MentionedAt(udts, events, k);
  }
}
