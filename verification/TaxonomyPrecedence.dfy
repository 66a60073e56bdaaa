/** Which entry answers for an event: live before superseded, contract before hash before interface, current before retired. */
module TaxonomyPrecedence {
  import opened Results
  import opened Taxonomy
  import opened TaxonomyResolver
  import opened TaxonomyAmbiguity

  /** Some entry of the set replaces the entry. */
  ghost predicate Replaced(r: Resolver, x: Entry) {
    exists y | y in r.entries :: x.id in y.supersedes
  }

  /** The entry covers the event and is live, or no live entry covers it. */
  ghost predicate InPlay(r: Resolver, e: Event, x: Entry) {
    && x in r.entries && Covers(x, e)
    && (Replaced(r, x) ==> forall y | y in r.entries && Covers(y, e) :: Replaced(r, y))
  }

  /** The entry answers for the event, beside others like it. */
  ghost predicate Answers(r: Resolver, e: Event, x: Entry) {
    && InPlay(r, e, x)
    && (x.scope.WasmHash? ==> forall y | InPlay(r, e, y) :: !y.scope.Contract?)
    && (x.scope.Interface? ==> forall y | InPlay(r, e, y) :: !y.scope.Contract? && !y.scope.WasmHash?)
    && (x.deprecated ==> forall y | InPlay(r, e, y) && SameKind(x.scope, y.scope) :: y.deprecated)
  }

  predicate SameKind(a: Scope, b: Scope) {
    (a.Contract? && b.Contract?) || (a.WasmHash? && b.WasmHash?) || (a.Interface? && b.Interface?)
  }

  predicate KindMatches(k: Kind, s: Scope) {
    (k.ContractKind? && s.Contract?) || (k.WasmHashKind? && s.WasmHash?) || (k.InterfaceKind? && s.Interface?)
  }

  lemma InPlayIsPool(r: Resolver, e: Event, x: Entry)
    requires r.superseded == SupersededIds(r.entries)
    ensures InPlay(r, e, x) <==> x in Pool(r, e)
  {
    forall y ensures Replaced(r, y) <==> y.id in r.superseded {
      ReplacedById(r, y);
    }
    PoolExactly(r, e, x);
  }

  lemma ReplacedById(r: Resolver, x: Entry)
    requires r.superseded == SupersededIds(r.entries)
    ensures Replaced(r, x) <==> x.id in r.superseded
  {
  }

  /** A scope's rank is highest in a pool exactly when no kind before its own occurs there. */
  lemma HighestRank(pool: seq<Entry>, s: Scope)
    ensures (forall y | y in pool :: ScopeRank(y.scope) <= ScopeRank(s))
       <==> && (s.WasmHash? ==> forall y | y in pool :: !y.scope.Contract?)
            && (s.Interface? ==> forall y | y in pool :: !y.scope.Contract? && !y.scope.WasmHash?)
  {
  }

  lemma SameRank(a: Scope, b: Scope)
    ensures SameKind(a, b) <==> ScopeRank(a) == ScopeRank(b)
  {
  }

  /** What answers, in terms of the pool. */
  ghost predicate AnswersIn(pool: seq<Entry>, x: Entry) {
    && x in pool
    && (x.scope.WasmHash? ==> forall y | y in pool :: !y.scope.Contract?)
    && (x.scope.Interface? ==> forall y | y in pool :: !y.scope.Contract? && !y.scope.WasmHash?)
    && (x.deprecated ==> forall y | y in pool && SameKind(x.scope, y.scope) :: y.deprecated)
  }

  lemma AnswersInIsTop(r: Resolver, e: Event, x: Entry)
    requires Pool(r, e) != []
    ensures AnswersIn(Pool(r, e), x) <==> x in Top(r, e)
  {
    HighestRank(Pool(r, e), x.scope);
    forall y: Entry ensures SameKind(x.scope, y.scope) <==> ScopeRank(y.scope) == ScopeRank(x.scope) {
      SameRank(x.scope, y.scope);
    }
    TopExactly(r, e, x);
  }

  lemma AnswersIsTop(r: Resolver, e: Event, x: Entry)
    requires r.superseded == SupersededIds(r.entries) && Pool(r, e) != []
    ensures Answers(r, e, x) <==> x in Top(r, e)
  {
    var pool := Pool(r, e);
    forall y ensures InPlay(r, e, y) <==> y in pool {
      InPlayIsPool(r, e, y);
    }
    AnswersInPool(r, e, pool, x);
    AnswersInIsTop(r, e, x);
  }

  lemma AnswersInPool(r: Resolver, e: Event, pool: seq<Entry>, x: Entry)
    requires forall y :: InPlay(r, e, y) <==> y in pool
    ensures Answers(r, e, x) <==> AnswersIn(pool, x)
  {
  }

  /** Nothing answers exactly when nothing covers the event. */
  lemma SomeoneAnswers(r: Resolver, e: Event)
    requires r.superseded == SupersededIds(r.entries)
    ensures Pool(r, e) == [] <==> forall x | x in r.entries :: !Covers(x, e)
  {
    forall y ensures InPlay(r, e, y) <==> y in Pool(r, e) {
      InPlayIsPool(r, e, y);
    }
    if Pool(r, e) != [] {
      assert InPlay(r, e, Pool(r, e)[0]);
    }
    if x :| x in r.entries && Covers(x, e) {
      CoveredInPlay(r, e, x);
    }
  }

  lemma CoveredInPlay(r: Resolver, e: Event, x: Entry)
    requires x in r.entries && Covers(x, e)
    ensures exists y :: InPlay(r, e, y)
  {
    if Replaced(r, x) {
      if y :| y in r.entries && Covers(y, e) && !Replaced(r, y) {
        assert InPlay(r, e, y);
      } else {
        assert InPlay(r, e, x);
      }
    } else {
      assert InPlay(r, e, x);
    }
  }

  /** These are the entries that answer for the event. */
  ghost predicate AllThatAnswer(r: Resolver, e: Event, top: seq<Entry>) {
    forall x :: Answers(r, e, x) <==> x in top
  }

  ghost predicate NamedRightly(r: Resolver, e: Event, name: string, id: string, version: string, kind: Kind, deprecated: bool) {
    && (exists x | Answers(r, e, x) ::
          x.name == name && x.id == id && x.version == version && KindMatches(kind, x.scope) && x.deprecated == deprecated)
    && forall x | Answers(r, e, x) :: x.name == name
  }

  ghost predicate AmbiguousRightly(r: Resolver, e: Event, ids: seq<string>) {
    && (exists x, y | Answers(r, e, x) && Answers(r, e, y) :: x.name != y.name)
    && forall id :: id in ids <==> exists x | Answers(r, e, x) :: x.id == id
  }

  /**
   The answer for an event. It is unmapped exactly when nothing covers it. A name comes with the
   id, version, kind and flag of one entry that answers, and every entry that answers bears it;
   it is ambiguous exactly when two that answer bear different names, and then lists those that answer.
   */
  lemma ResolvedByPrecedence(r: Resolver, e: Event)
    requires r.superseded == SupersededIds(r.entries)
    ensures match Resolve(r, e)
            case Unmapped => forall x | x in r.entries :: !Covers(x, e)
            case Named(name, id, version, kind, deprecated) => NamedRightly(r, e, name, id, version, kind, deprecated)
            case AmbiguousTaxonomy(ids) => AmbiguousRightly(r, e, ids)
  {
    SomeoneAnswers(r, e);
    if Pool(r, e) != [] {
      forall x ensures Answers(r, e, x) <==> x in Top(r, e) {
        AnswersIsTop(r, e, x);
      }
      TopNotEmpty(r, e);
      TopNamesRightly(r, e);
    }
  }

  lemma TopNamesRightly(r: Resolver, e: Event)
    requires Pool(r, e) != [] && Top(r, e) != [] && AllThatAnswer(r, e, Top(r, e))
    ensures match Resolve(r, e)
            case Unmapped => false
            case Named(name, id, version, kind, deprecated) => NamedRightly(r, e, name, id, version, kind, deprecated)
            case AmbiguousTaxonomy(ids) => AmbiguousRightly(r, e, ids)
  {
    NamedFromTop(Top(r, e));
    AnswerOfTop(r, e);
    if Resolve(r, e).Named? {
      assert Answers(r, e, Top(r, e)[0]);
    }
  }

  lemma NamedFromTop(top: seq<Entry>)
    requires top != []
    ensures top[0] in top
    ensures |Names(top)| > 1 <==> exists a, b | a in top && b in top :: a.name != b.name
    ensures |Names(top)| <= 1 ==> forall x | x in top :: x.name == top[0].name
  {
    SeveralNames(top);
    assert top[0] in top;
  }

  lemma AnswerOfTop(r: Resolver, e: Event)
    requires Pool(r, e) != [] && Top(r, e) != []
    ensures Resolve(r, e).AmbiguousTaxonomy? ==>
              forall id :: id in Resolve(r, e).entryIds <==> exists x | x in Top(r, e) :: x.id == id
  {
    var top := Top(r, e);
    if Resolve(r, e).AmbiguousTaxonomy? {
      var ids := Resolve(r, e).entryIds;
      forall x | x in top ensures x.id in ids {
        var i :| 0 <= i < |top| && top[i] == x;
        assert ids[i] == x.id;
      }
    }
  }

  /** A live entry for the very contract is never passed over for one by hash or interface. */
  lemma ContractEntryComesFirst(r: Resolver, e: Event, x: Entry)
    requires r.superseded == SupersededIds(r.entries)
    requires x in r.entries && Covers(x, e) && x.scope.Contract? && !Replaced(r, x)
    ensures Resolve(r, e).Named? ==> Resolve(r, e).scope.ContractKind?
    ensures !Resolve(r, e).Unmapped?
  {
    ResolvedByPrecedence(r, e);
    assert InPlay(r, e, x);
    match Resolve(r, e)
    case Named(name, id, version, kind, deprecated) =>
      assert NamedRightly(r, e, name, id, version, kind, deprecated);
      var y :| Answers(r, e, y) && KindMatches(kind, y.scope);
      NothingBeforeContract(r, e, x, y);
    case _ =>
  }

  lemma NothingBeforeContract(r: Resolver, e: Event, x: Entry, y: Entry)
    requires InPlay(r, e, x) && x.scope.Contract? && Answers(r, e, y)
    ensures y.scope.Contract?
  {
  }
}
