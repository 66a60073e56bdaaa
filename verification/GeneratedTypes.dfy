/**
 What the generated artifacts mean: the values of a TypeScript type and the values a Zod
 schema accepts, each under the declarations generated beside it.
 */
module GeneratedTypes {
  import opened DecimalText
  import opened Decimals
  import opened Results

  /** `Opaque` is a value of which nothing is known but that it is one, such as an inherited method. */
  datatype Value =
    | Undefined
    | Null
    | Bool(b: bool)
    | Number(n: int)
    | Str(s: string)
    | Opaque
    | Arr(items: seq<Value>)
    | Obj(props: seq<Prop>)

  datatype Prop = Prop(name: string, value: Value)

  function Height(v: Value): nat
    decreases v
  {
    match v
    case Undefined | Null | Opaque => 0
    case Bool(_) => 1
    case Number(_) => 1
    case Str(_) => 2
    case Arr(items) => 2 + ItemsHeight(items)
    case Obj(props) => 1 + PropsHeight(props)
  }

  function ItemsHeight(items: seq<Value>): (h: nat)
    ensures forall x | x in items :: Height(x) <= h
    decreases items
  {
    if items == [] then 0
    else
      assert items == [items[0]] + items[1..];
      var rest := ItemsHeight(items[1..]);
      if Height(items[0]) > rest then Height(items[0]) else rest
  }

  function PropsHeight(props: seq<Prop>): (h: nat)
    ensures forall p | p in props :: PropHeight(p) <= h
    decreases props
  {
    if props == [] then 0
    else
      assert props == [props[0]] + props[1..];
      var rest := PropsHeight(props[1..]);
      if PropHeight(props[0]) > rest then PropHeight(props[0]) else rest
  }

  function PropHeight(p: Prop): nat
    decreases p
  {
    Height(p.value)
  }

  lemma ItemIsLower(v: Value, i: nat)
    requires v.Arr? && i < |v.items|
    ensures Height(v.items[i]) < Height(v)
  {
    assert v.items[i] in v.items;
  }

  // ---------------------------------------------------------------- members of values

  /** The names of the members that values of each kind inherit. */
  datatype Builtins = Builtins(
    objects: set<string>, arrays: set<string>, strings: set<string>, numbers: set<string>, booleans: set<string>)

  function Inherited(v: Value, h: Builtins): set<string> {
    match v
    case Obj(_) => h.objects
    case Arr(_) => h.arrays
    case Str(_) => h.strings
    case Number(_) => h.numbers
    case Bool(_) => h.booleans
    case _ => {}
  }

  /** The property an object holds itself. */
  function Own(props: seq<Prop>, name: string): (m: Option<Value>)
    ensures m.Some? ==> Height(m.value) <= PropsHeight(props)
  {
    if props == [] then None
    else if props[0].name == name then Some(props[0].value)
    else Own(props[1..], name)
  }

  /** The item whose index, counted from `first`, is written like the name. */
  function ItemNamed(items: seq<Value>, name: string, first: nat): (m: Option<Value>)
    ensures m.Some? ==> Height(m.value) <= ItemsHeight(items)
  {
    if items == [] then None
    else if name == Text(Digits(first)) then Some(items[0])
    else ItemNamed(items[1..], name, first + 1)
  }

  function OwnMember(v: Value, name: string): (m: Option<Value>)
    ensures m.Some? ==> Height(m.value) < Height(v)
  {
    match v
    case Obj(props) => Own(props, name)
    case Arr(items) => if name == "length" then Some(Number(|items|)) else ItemNamed(items, name, 0)
    case Str(s) => if name == "length" then Some(Number(|s|)) else None
    case _ => None
  }

  /** What `v.name` finds, if anything. Undefined and null have no members. */
  function Member(v: Value, name: string, h: Builtins): (m: Option<Value>)
    ensures m.Some? ==> Height(m.value) < Height(v)
  {
    if OwnMember(v, name).Some? then OwnMember(v, name)
    else if name in Inherited(v, h) then Some(Opaque)
    else None
  }

  /** Reading a member; one that is missing reads as undefined. */
  function Read(v: Value, name: string, h: Builtins): (r: Value)
    ensures v.Obj? ==> Height(r) < Height(v)
  {
    match Member(v, name, h)
    case Some(m) => m
    case None => Undefined
  }

  // ---------------------------------------------------------------- declarations

  datatype Decl<T> = Decl(name: string, body: T)

  function Lookup<T>(decls: seq<Decl<T>>, name: string): (r: Option<T>)
    ensures r.Some? ==> exists i :: 0 <= i < |decls| && decls[i].name == name && decls[i].body == r.value
  {
    if decls == [] then None
    else if decls[0].name == name then Some(decls[0].body)
    else
      var r := Lookup(decls[1..], name);
      assert forall i | 0 <= i < |decls| - 1 :: decls[1..][i] == decls[i + 1];
      r
  }

  // ---------------------------------------------------------------- TypeScript

  datatype TsType =
    | TsBoolean
    | TsNumber
    | TsString
    | TsVoid
    | TsUnknown
    | TsNever
    | TsLiteral(text: string)
    | TsOrNull(inner: TsType)
    | TsArray(item: TsType)
    | TsTuple(elements: seq<TsType>)
    | TsObject(fields: seq<TsField>)
    | TsUnion(options: seq<TsType>)
    | TsRef(name: string)

  datatype TsField = TsField(name: string, ty: TsType)

  /** The type is spelled out down to objects and literals: no chain of references leads on from it. */
  predicate Spelled(t: TsType) {
    match t
    case TsObject(_) | TsLiteral(_) | TsNever => true
    case TsUnion(options) => forall u | u in options :: Spelled(u)
    case _ => false
  }

  predicate AllSpelled(decls: seq<Decl<TsType>>) {
    forall i | 0 <= i < |decls| :: Spelled(decls[i].body)
  }

  /** The value has the type. An object type asks of any value but undefined and null that it have each member. */
  predicate Inhabits(v: Value, t: TsType, decls: seq<Decl<TsType>>, h: Builtins)
    requires AllSpelled(decls)
    decreases Height(v), if Spelled(t) then 0 else 1, t
  {
    match t
    case TsBoolean => v.Bool?
    case TsNumber => v.Number?
    case TsString => v.Str?
    case TsVoid => v.Undefined?
    case TsUnknown => true
    case TsNever => false
    case TsLiteral(text) => v == Str(text)
    case TsOrNull(inner) => v.Null? || Inhabits(v, inner, decls, h)
    case TsArray(item) => v.Arr? && forall x | x in v.items :: Inhabits(x, item, decls, h)
    case TsTuple(elements) =>
      v.Arr? && |v.items| == |elements|
      && forall i | 0 <= i < |elements| :: (ItemIsLower(v, i); Inhabits(v.items[i], elements[i], decls, h))
    case TsObject(fields) =>
      !v.Undefined? && !v.Null? &&
      forall i | 0 <= i < |fields| ::
        var m := Member(v, fields[i].name, h); m.Some? && Inhabits(m.value, fields[i].ty, decls, h)
    case TsUnion(options) => exists u | u in options :: Inhabits(v, u, decls, h)
    case TsRef(name) =>
      var body := Lookup(decls, name);
      body.Some? && Inhabits(v, body.value, decls, h)
  }

  // ---------------------------------------------------------------- Zod

  datatype Zod =
    | ZBoolean
    | ZNumber
    | ZString
    | ZVoid
    | ZUnknown
    | ZNever
    | ZLiteral(text: string)
    | ZEnum(names: seq<string>)
    | ZNullable(inner: Zod)
    | ZArray(item: Zod)
    | ZTuple(elements: seq<Zod>)
    | ZObject(fields: seq<ZField>)
    | ZUnion(options: seq<Zod>)
    | ZRef(name: string)

  datatype ZField = ZField(name: string, schema: Zod)

  /** In an object literal a later entry overrides an earlier one with the same key. */
  predicate Effective(fields: seq<ZField>, i: nat)
    requires i < |fields|
  {
    forall j | i < j < |fields| :: fields[j].name != fields[i].name
  }

  predicate Built(z: Zod) {
    match z
    case ZObject(_) | ZLiteral(_) | ZNever | ZEnum(_) => true
    case ZUnion(options) => forall u | u in options :: Built(u)
    case _ => false
  }

  predicate AllBuilt(decls: seq<Decl<Zod>>) {
    forall i | 0 <= i < |decls| :: Built(decls[i].body)
  }

  /** The schema accepts the value. An object schema takes objects only, and reads a missing member as undefined. */
  predicate Accepts(v: Value, z: Zod, decls: seq<Decl<Zod>>, h: Builtins)
    requires AllBuilt(decls)
    decreases Height(v), if Built(z) then 0 else 1, z
  {
    match z
    case ZBoolean => v.Bool?
    case ZNumber => v.Number?
    case ZString => v.Str?
    case ZVoid => v.Undefined?
    case ZUnknown => true
    case ZNever => false
    case ZLiteral(text) => v == Str(text)
    case ZEnum(names) => v.Str? && v.s in names
    case ZNullable(inner) => v.Null? || Accepts(v, inner, decls, h)
    case ZArray(item) => v.Arr? && forall x | x in v.items :: Accepts(x, item, decls, h)
    case ZTuple(elements) =>
      v.Arr? && |v.items| == |elements|
      && forall i | 0 <= i < |elements| :: (ItemIsLower(v, i); Accepts(v.items[i], elements[i], decls, h))
    case ZObject(fields) =>
      v.Obj? && forall i | 0 <= i < |fields| && Effective(fields, i) ::
                  Accepts(Read(v, fields[i].name, h), fields[i].schema, decls, h)
    case ZUnion(options) => exists u | u in options :: Accepts(v, u, decls, h)
    case ZRef(name) =>
      var body := Lookup(decls, name);
      body.Some? && Accepts(v, body.value, decls, h)
  }

  // ---------------------------------------------------------------- loading the schemas

  /** The constants a schema expression names. */
  function References(z: Zod): set<string>
    decreases z
  {
    match z
    case ZRef(name) => {name}
    case ZNullable(inner) => References(inner)
    case ZArray(item) => References(item)
    case ZTuple(elements) => set e, r | e in elements && r in References(e) :: r
    case ZUnion(options) => set e, r | e in options && r in References(e) :: r
    case ZObject(fields) => set f, r | f in fields && r in FieldReferences(f) :: r
    case _ => {}
  }

  function FieldReferences(f: ZField): set<string>
    decreases f
  {
    References(f.schema)
  }

  datatype LoadError = Redeclared | UsedBeforeDeclared

  /** The module's constants are initialised in order, each from those before it. */
  function Load(decls: seq<Decl<Zod>>): Result<map<string, Zod>, LoadError> {
    if exists i, j :: 0 <= i < j < |decls| && decls[i].name == decls[j].name then Err(Redeclared)
    else Initialise(decls)
  }

  function Initialise(decls: seq<Decl<Zod>>): Result<map<string, Zod>, LoadError> {
    if decls == [] then Ok(map[])
    else
      var last := decls[|decls| - 1];
      match Initialise(decls[..|decls| - 1])
      case Err(e) => Err(e)
      case Ok(bound) =>
        if References(last.body) <= bound.Keys then Ok(bound[last.name := last.body])
        else Err(UsedBeforeDeclared)
  }
}
