/** Comparing a submitted contract interface with the one on chain. */
module VerifySchema {
  import opened Results
  import opened ContractSpecs

  // ---------------------------------------------------------------- recursive comparison

  predicate CompareTypeSpecs(a: TypeSpec, b: TypeSpec) {
    match (a, b)
    case (Prim(p), Prim(q)) => p == q
    case (BytesN(n), BytesN(m)) => n == m
    case (OptionOf(x), OptionOf(y)) => CompareTypeSpecs(x, y)
    case (ResultOf(x, e), ResultOf(y, f)) => CompareTypeSpecs(x, y) && CompareTypeSpecs(e, f)
    case (VecOf(x), VecOf(y)) => CompareTypeSpecs(x, y)
    case (MapOf(k, x), MapOf(l, y)) => CompareTypeSpecs(k, l) && CompareTypeSpecs(x, y)
    case (TupleOf(xs), TupleOf(ys)) =>
      |xs| == |ys| && forall i | 0 <= i < |xs| :: CompareTypeSpecs(xs[i], ys[i])
    case (NamedType(n), NamedType(m)) => n == m
    case _ => false
  }

  /** The comparison decides structural equality. */
  lemma {:induction false} TypeComparisonIsEquality(a: TypeSpec, b: TypeSpec)
    ensures CompareTypeSpecs(a, b) <==> a == b
  {
    match (a, b) {
      case (OptionOf(x), OptionOf(y)) => TypeComparisonIsEquality(x, y);
      case (ResultOf(x, e), ResultOf(y, f)) =>
        TypeComparisonIsEquality(x, y);
        TypeComparisonIsEquality(e, f);
      case (VecOf(x), VecOf(y)) => TypeComparisonIsEquality(x, y);
      case (MapOf(k, x), MapOf(l, y)) =>
        TypeComparisonIsEquality(k, l);
        TypeComparisonIsEquality(x, y);
      case (TupleOf(xs), TupleOf(ys)) =>
        if |xs| == |ys| {
          forall i | 0 <= i < |xs| ensures CompareTypeSpecs(xs[i], ys[i]) <==> xs[i] == ys[i] {
            TypeComparisonIsEquality(xs[i], ys[i]);
          }
        }
      case _ =>
    }
  }

  predicate CompareFieldSpecs(a: seq<FieldSpec>, b: seq<FieldSpec>) {
    |a| == |b| && forall i | 0 <= i < |a| :: a[i].name == b[i].name && CompareTypeSpecs(a[i].ty, b[i].ty)
  }

  predicate CompareVariants(a: EnumVariant, b: EnumVariant) {
    && a.name == b.name && a.discriminant == b.discriminant
    && ((a.value.None? && b.value.None?)
        || (a.value.Some? && b.value.Some? && CompareTypeSpecs(a.value.value, b.value.value)))
  }

  predicate CompareUserDefinedTypes(a: UserDefinedType, b: UserDefinedType) {
    match (a, b)
    case (StructType(n, _, fs), StructType(m, _, gs)) => n == m && CompareFieldSpecs(fs, gs)
    case (EnumType(n, _, vs), EnumType(m, _, ws)) =>
      n == m && |vs| == |ws| && forall i | 0 <= i < |vs| :: CompareVariants(vs[i], ws[i])
    case (UnionType(n, _, cs), UnionType(m, _, ds)) =>
      n == m && |cs| == |ds| &&
      forall i | 0 <= i < |cs| :: cs[i].name == ds[i].name && CompareFieldSpecs(cs[i].fields, ds[i].fields)
    case _ => false
  }

  // ---------------------------------------------------------------- what documentation leaves

  function BareFields(fs: seq<FieldSpec>): (r: seq<FieldSpec>)
    ensures |r| == |fs| && forall i | 0 <= i < |fs| :: r[i] == fs[i].(doc := None)
  {
    seq(|fs|, i requires 0 <= i < |fs| => fs[i].(doc := None))
  }

  function BareVariants(vs: seq<EnumVariant>): (r: seq<EnumVariant>)
    ensures |r| == |vs| && forall i | 0 <= i < |vs| :: r[i] == vs[i].(doc := None)
  {
    seq(|vs|, i requires 0 <= i < |vs| => vs[i].(doc := None))
  }

  function BareCases(cs: seq<UnionCase>): (r: seq<UnionCase>)
    ensures |r| == |cs| && forall i | 0 <= i < |cs| :: r[i] == UnionCase(cs[i].name, None, BareFields(cs[i].fields))
  {
    seq(|cs|, i requires 0 <= i < |cs| => UnionCase(cs[i].name, None, BareFields(cs[i].fields)))
  }

  /** A declaration with every documentation comment removed. */
  function BareType(t: UserDefinedType): UserDefinedType {
    match t
    case StructType(n, _, fs) => StructType(n, None, BareFields(fs))
    case EnumType(n, _, vs) => EnumType(n, None, BareVariants(vs))
    case UnionType(n, _, cs) => UnionType(n, None, BareCases(cs))
  }

  lemma FieldComparisonIsEquality(a: seq<FieldSpec>, b: seq<FieldSpec>)
    ensures CompareFieldSpecs(a, b) <==> BareFields(a) == BareFields(b)
  {
    if |a| == |b| {
      forall i | 0 <= i < |a|
        ensures BareFields(a)[i] == BareFields(b)[i] <==> a[i].name == b[i].name && CompareTypeSpecs(a[i].ty, b[i].ty)
      {
        TypeComparisonIsEquality(a[i].ty, b[i].ty);
      }
    } else {
      assert |BareFields(a)| != |BareFields(b)|;
    }
  }

  lemma VariantComparisonIsEquality(a: seq<EnumVariant>, b: seq<EnumVariant>)
    ensures (|a| == |b| && forall i | 0 <= i < |a| :: CompareVariants(a[i], b[i])) <==> BareVariants(a) == BareVariants(b)
  {
    if |a| == |b| {
      forall i | 0 <= i < |a| ensures BareVariants(a)[i] == BareVariants(b)[i] <==> CompareVariants(a[i], b[i]) {
        if a[i].value.Some? && b[i].value.Some? {
          TypeComparisonIsEquality(a[i].value.value, b[i].value.value);
        }
      }
    } else {
      assert |BareVariants(a)| != |BareVariants(b)|;
    }
  }

  lemma CaseComparisonIsEquality(a: seq<UnionCase>, b: seq<UnionCase>)
    ensures (|a| == |b| && forall i | 0 <= i < |a| ::
              a[i].name == b[i].name && CompareFieldSpecs(a[i].fields, b[i].fields))
       <==> BareCases(a) == BareCases(b)
  {
    if |a| == |b| {
      forall i | 0 <= i < |a|
        ensures BareCases(a)[i] == BareCases(b)[i]
           <==> a[i].name == b[i].name && CompareFieldSpecs(a[i].fields, b[i].fields)
      {
        FieldComparisonIsEquality(a[i].fields, b[i].fields);
      }
    } else {
      assert |BareCases(a)| != |BareCases(b)|;
    }
  }

  /** Comparing two declarations decides equality up to documentation. */
  lemma DeclarationComparisonIsEquality(a: UserDefinedType, b: UserDefinedType)
    ensures CompareUserDefinedTypes(a, b) <==> BareType(a) == BareType(b)
  {
    match (a, b)
    case (StructType(_, _, fs), StructType(_, _, gs)) => FieldComparisonIsEquality(fs, gs);
    case (EnumType(_, _, vs), EnumType(_, _, ws)) => VariantComparisonIsEquality(vs, ws);
    case (UnionType(_, _, cs), UnionType(_, _, ds)) => CaseComparisonIsEquality(cs, ds);
    case _ =>
  }

  // ---------------------------------------------------------------- the diff collector

  /** A function or an event: a name and two parts that are compared separately. */
  datatype Signature = Function(f: FunctionSpec) | Event(e: EventSpec)

  function NameOf(s: Signature): string {
    match s
    case Function(f) => f.name
    case Event(e) => e.name
  }

  /** `params` of a function, `topics` of an event. */
  predicate SameFirst(a: Signature, b: Signature) {
    match (a, b)
    case (Function(f), Function(g)) => CompareFieldSpecs(f.params, g.params)
    case (Event(e), Event(d)) => CompareFieldSpecs(e.topics, d.topics)
    case _ => false
  }

  /** `returns` of a function, `data` of an event. */
  predicate SameSecond(a: Signature, b: Signature) {
    match (a, b)
    case (Function(f), Function(g)) => CompareTypeSpecs(f.result, g.result)
    case (Event(e), Event(d)) => CompareFieldSpecs(e.data, d.data)
    case _ => false
  }

  function BareSignature(s: Signature): Signature {
    match s
    case Function(f) => Function(FunctionSpec(f.name, None, BareFields(f.params), f.result))
    case Event(e) => Event(EventSpec(e.name, None, BareFields(e.topics), BareFields(e.data)))
  }

  lemma SignatureComparisonIsEquality(a: Signature, b: Signature)
    ensures NameOf(a) == NameOf(b) && SameFirst(a, b) && SameSecond(a, b) <==> BareSignature(a) == BareSignature(b)
  {
    match (a, b)
    case (Function(f), Function(g)) =>
      FieldComparisonIsEquality(f.params, g.params);
      TypeComparisonIsEquality(f.result, g.result);
    case (Event(e), Event(d)) =>
      FieldComparisonIsEquality(e.topics, d.topics);
      FieldComparisonIsEquality(e.data, d.data);
    case _ =>
  }

  /** The signature a name stands for: a later one replaces an earlier one of the same name. */
  function ByName(ss: seq<Signature>): map<string, Signature> {
    if ss == [] then map[]
    else
      var last := ss[|ss| - 1];
      ByName(ss[..|ss| - 1])[NameOf(last) := last]
  }

  datatype Part = First | Second

  datatype Diff =
    | LengthDiffers
    | OnlySubmitted(name: string)
    | OnlyOnChain(name: string)
    | PartDiffers(name: string, part: Part)

  /** The difference is there. */
  predicate Holds(d: Diff, a: seq<Signature>, b: seq<Signature>) {
    match d
    case LengthDiffers => |a| != |b|
    case OnlySubmitted(n) => n in ByName(a) && n !in ByName(b)
    case OnlyOnChain(n) => n in ByName(b) && n !in ByName(a)
    case PartDiffers(n, part) =>
      n in ByName(a) && n in ByName(b) &&
      !(if part == First then SameFirst(ByName(a)[n], ByName(b)[n]) else SameSecond(ByName(a)[n], ByName(b)[n]))
  }

  /** No element occurs twice. */
  ghost predicate Once<T>(s: seq<T>) {
    forall i, j | 0 <= i < j < |s| :: s[i] != s[j]
  }

  lemma NextIsNew<T>(s: seq<T>, i: nat)
    requires Once(s) && i < |s|
    ensures s[i] !in s[..i] && s[i] in s
    ensures forall x :: x in s[..i + 1] <==> x in s[..i] || x == s[i]
  {
  }

  method IndexByName(ss: seq<Signature>) returns (byName: map<string, Signature>, names: seq<string>)
    ensures byName == ByName(ss)
    ensures Once(names) && forall n :: n in names <==> n in byName
  {
    byName, names := map[], [];
    for i := 0 to |ss|
      invariant byName == ByName(ss[..i])
      invariant Once(names) && forall n :: n in names <==> n in byName
    {
      assert ss[..i + 1][..i] == ss[..i];
      if NameOf(ss[i]) !in byName {
        names := names + [NameOf(ss[i])];
      }
      byName := byName[NameOf(ss[i]) := ss[i]];
    }
    assert ss[..|ss|] == ss;
  }

  /** The comparison of the names both sides have. */
  method PartDiffs(a: seq<Signature>, b: seq<Signature>,
                   aByName: map<string, Signature>, bByName: map<string, Signature>, aNames: seq<string>)
    returns (diffs: seq<Diff>)
    requires aByName == ByName(a) && bByName == ByName(b)
    requires Once(aNames) && forall n :: n in aNames <==> n in aByName
    ensures Once(diffs) && forall d :: d in diffs <==> d.PartDiffers? && Holds(d, a, b)
  {
    diffs := [];
    for i := 0 to |aNames|
      invariant Once(diffs)
      invariant forall d :: d in diffs <==> d.PartDiffers? && Holds(d, a, b) && d.name in aNames[..i]
    {
      var n := aNames[i];
      NextIsNew(aNames, i);
      if n in bByName {
        if !SameFirst(aByName[n], bByName[n]) {
          diffs := diffs + [PartDiffers(n, First)];
        }
        if !SameSecond(aByName[n], bByName[n]) {
          diffs := diffs + [PartDiffers(n, Second)];
        }
      }
    }
    assert aNames[..|aNames|] == aNames;
  }

  /** One section of the collector, functions or events: it reports exactly the differences that hold, each once. */
  method SectionDiffs(a: seq<Signature>, b: seq<Signature>) returns (diffs: seq<Diff>)
    ensures Once(diffs) && forall d :: d in diffs <==> Holds(d, a, b)
  {
    diffs := [];
    if |a| != |b| {
      diffs := diffs + [LengthDiffers];
    }
    var aByName, aNames := IndexByName(a);
    var bByName, bNames := IndexByName(b);
    for i := 0 to |aNames|
      invariant Once(diffs)
      invariant forall d :: d in diffs <==>
                  Holds(d, a, b) && (d.LengthDiffers? || (d.OnlySubmitted? && d.name in aNames[..i]))
    {
      var n := aNames[i];
      NextIsNew(aNames, i);
      if n !in bByName {
        diffs := diffs + [OnlySubmitted(n)];
      }
    }
    assert aNames[..|aNames|] == aNames;
    for i := 0 to |bNames|
      invariant Once(diffs)
      invariant forall d :: d in diffs <==>
                  Holds(d, a, b) && (d.LengthDiffers? || d.OnlySubmitted? || (d.OnlyOnChain? && d.name in bNames[..i]))
    {
      var n := bNames[i];
      NextIsNew(bNames, i);
      if n !in aByName {
        diffs := diffs + [OnlyOnChain(n)];
      }
    }
    assert bNames[..|bNames|] == bNames;
    var common := PartDiffs(a, b, aByName, bByName, aNames);
    assert forall d | d in diffs :: d !in common;
    diffs := diffs + common;
  }

  // ---------------------------------------------------------------- what an empty report means

  function BareAll(ss: seq<Signature>): (r: seq<Signature>)
    ensures |r| == |ss| && forall i | 0 <= i < |ss| :: r[i] == BareSignature(ss[i])
  {
    seq(|ss|, i requires 0 <= i < |ss| => BareSignature(ss[i]))
  }

  lemma BareKeepsName(s: Signature)
    ensures NameOf(BareSignature(s)) == NameOf(s)
  {
  }

  lemma {:induction false} ByNameOfBare(ss: seq<Signature>)
    ensures ByName(BareAll(ss)).Keys == ByName(ss).Keys
    ensures forall n | n in ByName(ss) :: ByName(BareAll(ss))[n] == BareSignature(ByName(ss)[n])
  {
    if ss != [] {
      var m := |ss| - 1;
      ByNameOfBare(ss[..m]);
      assert BareAll(ss)[..m] == BareAll(ss[..m]);
    }
  }

  lemma {:induction false} NamesAreRight(ss: seq<Signature>)
    ensures forall n | n in ByName(ss) :: NameOf(ByName(ss)[n]) == n && ByName(ss)[n] in ss
    ensures forall s | s in ss :: NameOf(s) in ByName(ss)
  {
    if ss != [] {
      var m := |ss| - 1;
      NamesAreRight(ss[..m]);
      assert ss == ss[..m] + [ss[m]];
    }
  }

  /** The lists agree name by name, up to documentation. */
  predicate SameByName(a: seq<Signature>, b: seq<Signature>) {
    && ByName(a).Keys == ByName(b).Keys
    && forall n | n in ByName(a) :: BareSignature(ByName(a)[n]) == BareSignature(ByName(b)[n])
  }

  lemma SameByNameIsBareEquality(a: seq<Signature>, b: seq<Signature>)
    ensures SameByName(a, b) <==> ByName(BareAll(a)) == ByName(BareAll(b))
  {
    ByNameOfBare(a);
    ByNameOfBare(b);
    if ByName(BareAll(a)) == ByName(BareAll(b)) {
      assert ByName(a).Keys == ByName(b).Keys;
    }
  }

  lemma AgreementLeavesNoDiff(a: seq<Signature>, b: seq<Signature>, d: Diff)
    requires |a| == |b| && SameByName(a, b)
    ensures !Holds(d, a, b)
  {
    var p, q := ByName(a), ByName(b);
    if d.PartDiffers? && d.name in p {
      SignatureComparisonIsEquality(p[d.name], q[d.name]);
    }
  }

  lemma DisagreementGivesDiff(a: seq<Signature>, b: seq<Signature>) returns (d: Diff)
    requires !(|a| == |b| && SameByName(a, b))
    ensures Holds(d, a, b)
  {
    var p, q := ByName(a), ByName(b);
    if |a| != |b| {
      return LengthDiffers;
    }
    if n :| n in p && n !in q {
      return OnlySubmitted(n);
    }
    if n :| n in q && n !in p {
      return OnlyOnChain(n);
    }
    assert p.Keys == q.Keys;
    NamesAreRight(a);
    NamesAreRight(b);
    var n :| n in p && BareSignature(p[n]) != BareSignature(q[n]);
    SignatureComparisonIsEquality(p[n], q[n]);
    return PartDiffers(n, if SameFirst(p[n], q[n]) then Second else First);
  }

  /** No difference holds exactly when the lists are equally long and agree name by name, up to documentation. */
  lemma NoDiffsExactly(a: seq<Signature>, b: seq<Signature>)
    ensures (forall d :: !Holds(d, a, b)) <==> |a| == |b| && ByName(BareAll(a)) == ByName(BareAll(b))
  {
    SameByNameIsBareEquality(a, b);
    if |a| == |b| && SameByName(a, b) {
      forall d ensures !Holds(d, a, b) {
        AgreementLeavesNoDiff(a, b, d);
      }
    } else {
      var d := DisagreementGivesDiff(a, b);
    }
  }

  predicate UniqueNames(ss: seq<Signature>) {
    forall i, j | 0 <= i < j < |ss| :: NameOf(ss[i]) != NameOf(ss[j])
  }

  lemma {:induction false} UniqueCounts(ss: seq<Signature>, s: Signature)
    requires UniqueNames(ss)
    ensures multiset(ss)[s] == if NameOf(s) in ByName(ss) && ByName(ss)[NameOf(s)] == s then 1 else 0
  {
    if ss != [] {
      var m := |ss| - 1;
      var init := ss[..m];
      UniqueCounts(init, s);
      NamesAreRight(init);
      LastNameIsNew(ss);
      assert ss == init + [ss[m]];
      assert multiset(ss)[s] == multiset(init)[s] + if ss[m] == s then 1 else 0;
    }
  }

  lemma LastNameIsNew(ss: seq<Signature>)
    requires UniqueNames(ss) && ss != []
    ensures NameOf(ss[|ss| - 1]) !in ByName(ss[..|ss| - 1])
  {
    var m := |ss| - 1;
    NamesAreRight(ss[..m]);
    forall s | s in ss[..m] ensures NameOf(s) != NameOf(ss[m]) {
      var k :| 0 <= k < m && ss[..m][k] == s;
    }
  }

  /** With unique names, agreement name by name is agreement up to order. */
  lemma UniqueNamesUpToOrder(a: seq<Signature>, b: seq<Signature>)
    requires UniqueNames(a) && UniqueNames(b)
    ensures |a| == |b| && ByName(a) == ByName(b) <==> multiset(a) == multiset(b)
  {
    NamesAreRight(a);
    NamesAreRight(b);
    forall s ensures ByName(a) == ByName(b) ==> multiset(a)[s] == multiset(b)[s] {
      UniqueCounts(a, s);
      UniqueCounts(b, s);
    }
    if multiset(a) == multiset(b) {
      assert |a| == |multiset(a)| == |multiset(b)| == |b|;
      forall n ensures n in ByName(a) <==> n in ByName(b)
        ensures n in ByName(a) ==> ByName(a)[n] == ByName(b)[n]
      {
        if n in ByName(a) {
          UniqueCounts(a, ByName(a)[n]);
          UniqueCounts(b, ByName(a)[n]);
        }
        if n in ByName(b) {
          UniqueCounts(a, ByName(b)[n]);
          UniqueCounts(b, ByName(b)[n]);
        }
      }
    }
  }

  /** Without unique names the report can be empty although the lists differ in more than order. */
  lemma RepeatedNamesHideDifferences(x: Signature, y: Signature)
    requires NameOf(x) != NameOf(y)
    ensures forall d :: !Holds(d, [x, x, y], [x, y, y])
    ensures multiset(BareAll([x, x, y])) != multiset(BareAll([x, y, y]))
  {
    SameIndex(x, y);
    forall d ensures !Holds(d, [x, x, y], [x, y, y]) {
      AgreementLeavesNoDiff([x, x, y], [x, y, y], d);
    }
    DifferentCounts(x, y);
  }

  lemma AppendedByName(ss: seq<Signature>, s: Signature)
    ensures ByName(ss + [s]) == ByName(ss)[NameOf(s) := s]
  {
    assert (ss + [s])[..|ss|] == ss;
  }

  lemma SameIndex(x: Signature, y: Signature)
    requires NameOf(x) != NameOf(y)
    ensures ByName([x, x, y]) == ByName([x, y, y])
  {
    AppendedByName([], x);
    AppendedByName([x], x);
    AppendedByName([x], y);
    AppendedByName([x, x], y);
    AppendedByName([x, y], y);
    assert [] + [x] == [x] && [x] + [x] == [x, x] && [x] + [y] == [x, y];
    assert [x, x] + [y] == [x, x, y] && [x, y] + [y] == [x, y, y];
  }

  lemma DifferentCounts(x: Signature, y: Signature)
    requires NameOf(x) != NameOf(y)
    ensures multiset(BareAll([x, x, y])) != multiset(BareAll([x, y, y]))
  {
    var p, q := BareSignature(x), BareSignature(y);
    BareKeepsName(x);
    BareKeepsName(y);
    assert BareAll([x, x, y]) == [p, p, q] && BareAll([x, y, y]) == [p, q, q];
    assert multiset([p, p, q])[p] == 2 && multiset([p, q, q])[p] == 1;
  }

  // ---------------------------------------------------------------- whole interfaces

  datatype Interface = Interface(functions: seq<FunctionSpec>, events: seq<EventSpec>, types: map<string, UserDefinedType>)

  function Functions(fs: seq<FunctionSpec>): (r: seq<Signature>)
    ensures |r| == |fs| && forall i | 0 <= i < |fs| :: r[i] == Function(fs[i])
  {
    seq(|fs|, i requires 0 <= i < |fs| => Function(fs[i]))
  }

  function Events(es: seq<EventSpec>): (r: seq<Signature>)
    ensures |r| == |es| && forall i | 0 <= i < |es| :: r[i] == Event(es[i])
  {
    seq(|es|, i requires 0 <= i < |es| => Event(es[i]))
  }

  /** The names every object inherits: a lookup of one finds something although the object does not hold it. */
  const INHERITED: set<string> := {
    "constructor", "hasOwnProperty", "isPrototypeOf", "propertyIsEnumerable", "toLocaleString", "toString", "valueOf",
    "__defineGetter__", "__defineSetter__", "__lookupGetter__", "__lookupSetter__", "__proto__"
  }

  /** What looking up a name in a record of types finds. */
  datatype Slot = Own(declaration: UserDefinedType) | Inherited | Missing

  function TypeAt(types: map<string, UserDefinedType>, n: string): Slot {
    if n in types then Own(types[n]) else if n in INHERITED then Inherited else Missing
  }

  /** An inherited member has no kind, so it compares equal to no declaration. */
  predicate SameAsSlot(t: UserDefinedType, slot: Slot) {
    slot.Own? && CompareUserDefinedTypes(t, slot.declaration)
  }

  datatype AnyDiff =
    | FunctionDiff(diff: Diff)
    | EventDiff(diff: Diff)
    | TypeOnlySubmitted(name: string)
    | TypeOnlyOnChain(name: string)
    | TypeDiffers(name: string)

  predicate IsTypeDiff(d: AnyDiff) {
    !d.FunctionDiff? && !d.EventDiff?
  }

  predicate AnyHolds(d: AnyDiff, a: Interface, b: Interface) {
    match d
    case FunctionDiff(x) => Holds(x, Functions(a.functions), Functions(b.functions))
    case EventDiff(x) => Holds(x, Events(a.events), Events(b.events))
    case TypeOnlySubmitted(n) => n in a.types && TypeAt(b.types, n).Missing?
    case TypeOnlyOnChain(n) => n in b.types && TypeAt(a.types, n).Missing?
    case TypeDiffers(n) =>
      n in a.types && !TypeAt(b.types, n).Missing? && !SameAsSlot(a.types[n], TypeAt(b.types, n))
  }

  /** The types section of the collector; the names are the keys of each record. */
  method TypeDiffs(a: Interface, b: Interface, aNames: seq<string>, bNames: seq<string>) returns (diffs: seq<AnyDiff>)
    requires Once(aNames) && forall n :: n in aNames <==> n in a.types
    requires Once(bNames) && forall n :: n in bNames <==> n in b.types
    ensures Once(diffs) && forall d :: d in diffs <==> IsTypeDiff(d) && AnyHolds(d, a, b)
  {
    diffs := [];
    for i := 0 to |aNames|
      invariant Once(diffs)
      invariant forall d :: d in diffs <==> AnyHolds(d, a, b) && d.TypeOnlySubmitted? && d.name in aNames[..i]
    {
      NextIsNew(aNames, i);
      if TypeAt(b.types, aNames[i]).Missing? {
        diffs := diffs + [TypeOnlySubmitted(aNames[i])];
      }
    }
    assert aNames[..|aNames|] == aNames;
    for i := 0 to |bNames|
      invariant Once(diffs)
      invariant forall d :: d in diffs <==>
                  AnyHolds(d, a, b) && (d.TypeOnlySubmitted? || (d.TypeOnlyOnChain? && d.name in bNames[..i]))
    {
      NextIsNew(bNames, i);
      if TypeAt(a.types, bNames[i]).Missing? {
        diffs := diffs + [TypeOnlyOnChain(bNames[i])];
      }
    }
    assert bNames[..|bNames|] == bNames;
    for i := 0 to |aNames|
      invariant Once(diffs)
      invariant forall d :: d in diffs <==>
                  AnyHolds(d, a, b) && IsTypeDiff(d) && (d.TypeDiffers? ==> d.name in aNames[..i])
    {
      NextIsNew(aNames, i);
      var onChain := TypeAt(b.types, aNames[i]);
      if !onChain.Missing? && !SameAsSlot(a.types[aNames[i]], onChain) {
        diffs := diffs + [TypeDiffers(aNames[i])];
      }
    }
    assert aNames[..|aNames|] == aNames;
  }

  /** The collector over a whole interface reports exactly the differences that hold, each once. */
  method CollectDiffs(a: Interface, b: Interface, aNames: seq<string>, bNames: seq<string>) returns (diffs: seq<AnyDiff>)
    requires Once(aNames) && forall n :: n in aNames <==> n in a.types
    requires Once(bNames) && forall n :: n in bNames <==> n in b.types
    ensures Once(diffs) && forall d :: d in diffs <==> AnyHolds(d, a, b)
    ensures diffs == [] <==> forall d :: !AnyHolds(d, a, b)
  {
    var fs := SectionDiffs(Functions(a.functions), Functions(b.functions));
    var es := SectionDiffs(Events(a.events), Events(b.events));
    diffs := [];
    for i := 0 to |fs|
      invariant Once(diffs)
      invariant forall d :: d in diffs <==> d.FunctionDiff? && d.diff in fs[..i]
    {
      NextIsNew(fs, i);
      diffs := diffs + [FunctionDiff(fs[i])];
    }
    assert fs[..|fs|] == fs;
    for i := 0 to |es|
      invariant Once(diffs)
      invariant forall d :: d in diffs <==> (d.FunctionDiff? && d.diff in fs) || (d.EventDiff? && d.diff in es[..i])
    {
      NextIsNew(es, i);
      diffs := diffs + [EventDiff(es[i])];
    }
    assert es[..|es|] == es;
    var ts := TypeDiffs(a, b, aNames, bNames);
    assert forall d | d in diffs :: d !in ts;
    diffs := diffs + ts;
    assert diffs != [] ==> diffs[0] in diffs;
  }

  function BareTypes(ts: map<string, UserDefinedType>): (r: map<string, UserDefinedType>)
    ensures r.Keys == ts.Keys && forall n | n in ts :: r[n] == BareType(ts[n])
  {
    map n | n in ts :: BareType(ts[n])
  }

  /** Functions and events agree name by name, in equal numbers, up to documentation. */
  predicate SameEntryPoints(a: Interface, b: Interface) {
    && |a.functions| == |b.functions|
    && ByName(BareAll(Functions(a.functions))) == ByName(BareAll(Functions(b.functions)))
    && |a.events| == |b.events|
    && ByName(BareAll(Events(a.events))) == ByName(BareAll(Events(b.events)))
  }

  /** The on-chain types that go unnoticed: the submission lacks them, and looking them up finds an inherited member. */
  function Unnoticed(a: Interface, b: Interface): set<string> {
    b.types.Keys * INHERITED - a.types.Keys
  }

  /**
   The report is empty exactly when the interfaces agree up to documentation once the
   unnoticed types are taken out of the on-chain side.
   */
  lemma EmptyReportExactly(a: Interface, b: Interface)
    ensures (forall d :: !AnyHolds(d, a, b))
       <==> SameEntryPoints(a, b) && BareTypes(a.types) == BareTypes(b.types - Unnoticed(a, b))
  {
    SectionsExactly(a, b);
    NoTypeDiffExactly(a, b);
  }

  lemma SectionsExactly(a: Interface, b: Interface)
    ensures (forall d :: !IsTypeDiff(d) ==> !AnyHolds(d, a, b)) <==> SameEntryPoints(a, b)
  {
    NoDiffsExactly(Functions(a.functions), Functions(b.functions));
    NoDiffsExactly(Events(a.events), Events(b.events));
    if forall d :: !IsTypeDiff(d) ==> !AnyHolds(d, a, b) {
      forall d ensures !Holds(d, Functions(a.functions), Functions(b.functions)) {
        assert !AnyHolds(FunctionDiff(d), a, b);
      }
      forall d ensures !Holds(d, Events(a.events), Events(b.events)) {
        assert !AnyHolds(EventDiff(d), a, b);
      }
    }
  }

  lemma NoTypeDiffExactly(a: Interface, b: Interface)
    ensures (forall d | IsTypeDiff(d) :: !AnyHolds(d, a, b))
       <==> BareTypes(a.types) == BareTypes(b.types - Unnoticed(a, b))
  {
    var noticed := b.types - Unnoticed(a, b);
    if forall d | IsTypeDiff(d) :: !AnyHolds(d, a, b) {
      forall n | n in a.types || n in noticed
        ensures n in a.types && n in noticed && BareType(a.types[n]) == BareType(noticed[n])
      {
        NoTypeDiffAt(a, b, n);
      }
    }
    if BareTypes(a.types) == BareTypes(noticed) {
      forall d | IsTypeDiff(d) ensures !AnyHolds(d, a, b) {
        assert BareTypes(a.types).Keys == BareTypes(noticed).Keys;
        if d.name in a.types {
          assert BareTypes(a.types)[d.name] == BareTypes(noticed)[d.name];
          DeclarationComparisonIsEquality(a.types[d.name], b.types[d.name]);
        } else {
          assert d.name in b.types ==> d.name in noticed || d.name in Unnoticed(a, b);
        }
      }
    }
  }

  lemma NoTypeDiffAt(a: Interface, b: Interface, n: string)
    requires n in a.types || (n in b.types && n !in Unnoticed(a, b))
    requires !AnyHolds(TypeOnlySubmitted(n), a, b) && !AnyHolds(TypeOnlyOnChain(n), a, b) && !AnyHolds(TypeDiffers(n), a, b)
    ensures n in a.types && n in b.types && BareType(a.types[n]) == BareType(b.types[n])
  {
    if n in a.types && n in b.types {
      DeclarationComparisonIsEquality(a.types[n], b.types[n]);
    }
  }

  /** With unique names, an empty report means equal up to order and documentation, beside the unnoticed types. */
  lemma EmptyReportUpToOrder(a: Interface, b: Interface)
    requires UniqueNames(Functions(a.functions)) && UniqueNames(Functions(b.functions))
    requires UniqueNames(Events(a.events)) && UniqueNames(Events(b.events))
    ensures (forall d :: !AnyHolds(d, a, b)) <==>
            && multiset(BareAll(Functions(a.functions))) == multiset(BareAll(Functions(b.functions)))
            && multiset(BareAll(Events(a.events))) == multiset(BareAll(Events(b.events)))
            && BareTypes(a.types) == BareTypes(b.types - Unnoticed(a, b))
  {
    EmptyReportExactly(a, b);
    UniqueNamesUpToOrder(BareAll(Functions(a.functions)), BareAll(Functions(b.functions)));
    UniqueNamesUpToOrder(BareAll(Events(a.events)), BareAll(Events(b.events)));
  }

  /** A submission without types matches a contract that declares one named like an inherited member; not the other way round. */
  lemma InheritedNameUnnoticed(fields: seq<FieldSpec>)
    ensures var a := Interface([], [], map[]);
            var b := Interface([], [], map["constructor" := StructType("constructor", None, fields)]);
            && (forall d :: !AnyHolds(d, a, b))
            && AnyHolds(TypeDiffers("constructor"), b, a)
  {
    var a := Interface([], [], map[]);
    var b := Interface([], [], map["constructor" := StructType("constructor", None, fields)]);
    assert b.types - Unnoticed(a, b) == map[];
    EmptyReportExactly(a, b);
  }

  /** An empty report both ways round is agreement of the whole interfaces, types included. */
  lemma EmptyBothWays(a: Interface, b: Interface)
    ensures (forall d :: !AnyHolds(d, a, b)) && (forall d :: !AnyHolds(d, b, a))
       <==> SameEntryPoints(a, b) && BareTypes(a.types) == BareTypes(b.types)
  {
    EmptyReportExactly(a, b);
    EmptyReportExactly(b, a);
    if BareTypes(a.types) == BareTypes(b.types) {
      assert BareTypes(a.types).Keys == BareTypes(b.types).Keys;
      assert b.types - Unnoticed(a, b) == b.types && a.types - Unnoticed(b, a) == a.types;
    }
    if BareTypes(a.types) == BareTypes(b.types - Unnoticed(a, b)) && BareTypes(b.types) == BareTypes(a.types - Unnoticed(b, a)) {
      SameKeysBothWays(a, b);
      assert b.types - Unnoticed(a, b) == b.types;
    }
  }

  lemma SameKeysBothWays(a: Interface, b: Interface)
    requires BareTypes(a.types) == BareTypes(b.types - Unnoticed(a, b))
    requires BareTypes(b.types) == BareTypes(a.types - Unnoticed(b, a))
    ensures Unnoticed(a, b) == {}
  {
    assert BareTypes(b.types).Keys == BareTypes(a.types - Unnoticed(b, a)).Keys;
    forall n | n in b.types ensures n in a.types {
      assert n in BareTypes(b.types).Keys;
    }
  }

  /** The match verdict is reflexive and transitive; a match is symmetric exactly when no type went unnoticed. */
  lemma MatchIsPreorder(a: Interface, b: Interface, c: Interface)
    ensures forall d :: !AnyHolds(d, a, a)
    ensures (forall d :: !AnyHolds(d, a, b)) && (forall d :: !AnyHolds(d, b, c)) ==> (forall d :: !AnyHolds(d, a, c))
    ensures (forall d :: !AnyHolds(d, a, b)) ==> ((forall d :: !AnyHolds(d, b, a)) <==> Unnoticed(a, b) == {})
  {
    EmptyBothWays(a, a);
    EmptyBothWays(a, b);
    EmptyReportExactly(a, b);
    if (forall d :: !AnyHolds(d, a, b)) && (forall d :: !AnyHolds(d, b, c)) {
      MatchIsTransitive(a, b, c);
    }
    if Unnoticed(a, b) == {} {
      assert b.types - Unnoticed(a, b) == b.types;
    } else {
      var n :| n in Unnoticed(a, b);
      assert n in BareTypes(b.types).Keys && n !in BareTypes(a.types).Keys;
    }
  }

  lemma MatchIsTransitive(a: Interface, b: Interface, c: Interface)
    requires (forall d :: !AnyHolds(d, a, b)) && (forall d :: !AnyHolds(d, b, c))
    ensures forall d :: !AnyHolds(d, a, c)
  {
    EmptyReportExactly(a, b);
    EmptyReportExactly(b, c);
    EmptyReportExactly(a, c);
    NoticedTransitively(a, b, c);
  }

  lemma NoticedTransitively(a: Interface, b: Interface, c: Interface)
    requires BareTypes(a.types) == BareTypes(b.types - Unnoticed(a, b))
    requires BareTypes(b.types) == BareTypes(c.types - Unnoticed(b, c))
    ensures BareTypes(a.types) == BareTypes(c.types - Unnoticed(a, c))
  {
    var ab, bc, ac := b.types - Unnoticed(a, b), c.types - Unnoticed(b, c), c.types - Unnoticed(a, c);
    assert BareTypes(a.types).Keys == BareTypes(ab).Keys && BareTypes(b.types).Keys == BareTypes(bc).Keys;
    forall n ensures n in a.types <==> n in ac
      ensures n in a.types && n in ac ==> BareType(a.types[n]) == BareType(ac[n])
    {
      assert n in a.types <==> n in BareTypes(a.types).Keys;
      assert n in b.types <==> n in BareTypes(b.types).Keys;
      if n in a.types {
        assert BareTypes(a.types)[n] == BareTypes(ab)[n] && BareTypes(b.types)[n] == BareTypes(bc)[n];
      }
    }
  }
}
