/** What each line of a comparison report says of the two interfaces. */
module SchemaReport {
  import opened Results
  import opened ContractSpecs
  import opened VerifySchema

  /** Signature i is the last of the list with the name. */
  predicate LastNamed(ss: seq<Signature>, n: string, i: nat) {
    i < |ss| && NameOf(ss[i]) == n && forall j | i < j < |ss| :: NameOf(ss[j]) != n
  }

  predicate Named(ss: seq<Signature>, n: string) {
    exists i | 0 <= i < |ss| :: NameOf(ss[i]) == n
  }

  /** A name stands for the last signature that bears it. */
  lemma {:induction false} ByNameIsLast(ss: seq<Signature>, n: string)
    ensures n in ByName(ss) <==> Named(ss, n)
    ensures forall i: nat | LastNamed(ss, n, i) :: n in ByName(ss) && ByName(ss)[n] == ss[i]
  {
    if ss != [] {
      var m := |ss| - 1;
      var before := ss[..m];
      ByNameIsLast(before, n);
      if NameOf(ss[m]) != n {
        forall i: nat | LastNamed(ss, n, i) ensures LastNamed(before, n, i) && before[i] == ss[i] {
        }
        if Named(ss, n) {
          var i :| 0 <= i < |ss| && NameOf(ss[i]) == n;
          assert NameOf(before[i]) == n;
        }
        if Named(before, n) {
          var i :| 0 <= i < |before| && NameOf(before[i]) == n;
          assert NameOf(ss[i]) == n;
        }
      }
    }
  }

  /** The lines on one section as a whole: its length, and the names that one side alone has. */
  lemma MissingMeans(a: seq<Signature>, b: seq<Signature>, n: string)
    ensures Holds(LengthDiffers, a, b) <==> |a| != |b|
    ensures Holds(OnlySubmitted(n), a, b) <==> Named(a, n) && !Named(b, n)
    ensures Holds(OnlyOnChain(n), a, b) <==> Named(b, n) && !Named(a, n)
  {
    ByNameIsLast(a, n);
    ByNameIsLast(b, n);
  }

  /** A line on a function both sides have: its parameters, or its result, differ, documentation apart. */
  lemma FunctionLinesMean(fs: seq<FunctionSpec>, gs: seq<FunctionSpec>, n: string, i: nat, j: nat)
    requires LastNamed(Functions(fs), n, i) && LastNamed(Functions(gs), n, j)
    ensures Holds(PartDiffers(n, First), Functions(fs), Functions(gs)) <==> BareFields(fs[i].params) != BareFields(gs[j].params)
    ensures Holds(PartDiffers(n, Second), Functions(fs), Functions(gs)) <==> fs[i].result != gs[j].result
  {
    ByNameIsLast(Functions(fs), n);
    ByNameIsLast(Functions(gs), n);
    FieldComparisonIsEquality(fs[i].params, gs[j].params);
    TypeComparisonIsEquality(fs[i].result, gs[j].result);
  }

  /** A line on an event both sides have: its topics, or its data, differ. */
  lemma EventLinesMean(es: seq<EventSpec>, ds: seq<EventSpec>, n: string, i: nat, j: nat)
    requires LastNamed(Events(es), n, i) && LastNamed(Events(ds), n, j)
    ensures Holds(PartDiffers(n, First), Events(es), Events(ds)) <==> BareFields(es[i].topics) != BareFields(ds[j].topics)
    ensures Holds(PartDiffers(n, Second), Events(es), Events(ds)) <==> BareFields(es[i].data) != BareFields(ds[j].data)
  {
    ByNameIsLast(Events(es), n);
    ByNameIsLast(Events(ds), n);
    FieldComparisonIsEquality(es[i].topics, ds[j].topics);
    FieldComparisonIsEquality(es[i].data, ds[j].data);
  }

  /** The lines on types. A type missing on one side goes unreported when every object inherits its name. */
  lemma TypeLinesMean(a: Interface, b: Interface, n: string)
    ensures AnyHolds(TypeOnlySubmitted(n), a, b) <==> n in a.types && n !in b.types && n !in INHERITED
    ensures AnyHolds(TypeOnlyOnChain(n), a, b) <==> n in b.types && n !in a.types && n !in INHERITED
    ensures AnyHolds(TypeDiffers(n), a, b) <==>
            n in a.types && if n in b.types then BareType(a.types[n]) != BareType(b.types[n]) else n in INHERITED
  {
    if n in a.types && n in b.types {
      DeclarationComparisonIsEquality(a.types[n], b.types[n]);
    }
  }
}
