/** When a loaded taxonomy can be ambiguous: exact conditions on the entries, and the ways it happens. */
module TaxonomyAmbiguity {
  import opened Results
  import opened Strings
  import opened Taxonomy
  import opened TaxonomyResolver

  // ---------------------------------------------------------------- the winners, as maximal entries

  /** A covering entry that keeps another from winning: it is live, or ranks higher, or is current, in that order. */
  predicate Outranks(r: Resolver, y: Entry, x: Entry) {
    || (x.id in r.superseded && y.id !in r.superseded)
    || ((x.id in r.superseded <==> y.id in r.superseded)
        && (ScopeRank(y.scope) > ScopeRank(x.scope)
            || (ScopeRank(y.scope) == ScopeRank(x.scope) && x.deprecated && !y.deprecated)))
  }

  ghost predicate Wins(r: Resolver, e: Event, x: Entry) {
    x in r.entries && Covers(x, e) && forall y | y in r.entries && Covers(y, e) :: !Outranks(r, y, x)
  }

  ghost predicate InPool(r: Resolver, e: Event, x: Entry) {
    && x in r.entries && Covers(x, e)
    && (x.id in r.superseded ==> forall y | y in r.entries && Covers(y, e) :: y.id in r.superseded)
  }

  lemma PoolExactly(r: Resolver, e: Event, x: Entry)
    ensures x in Pool(r, e) <==> InPool(r, e, x)
  {
    var candidates := Filter((y: Entry) => Covers(y, e), r.entries);
    var live := Filter((y: Entry) => y.id !in r.superseded, candidates);
    if live == [] {
      forall y | y in r.entries && Covers(y, e) ensures y.id in r.superseded {
        assert y in candidates;
        assert y !in live;
      }
    } else {
      assert live[0] in live;
    }
  }

  lemma TopExactly(r: Resolver, e: Event, x: Entry)
    requires Pool(r, e) != []
    ensures x in Top(r, e)
       <==> && x in Pool(r, e)
            && (forall y | y in Pool(r, e) :: ScopeRank(y.scope) <= ScopeRank(x.scope))
            && (x.deprecated ==> forall y | y in Pool(r, e) && ScopeRank(y.scope) == ScopeRank(x.scope) :: y.deprecated)
  {
    var pool := Pool(r, e);
    var best := BestRank(pool);
    var top := Filter((y: Entry) => ScopeRank(y.scope) == best, pool);
    var current := Filter((y: Entry) => !y.deprecated, top);
    var highest :| highest in pool && ScopeRank(highest.scope) == best;
    if current == [] {
      forall y | y in pool && ScopeRank(y.scope) == best ensures y.deprecated {
        assert y in top;
        assert y !in current;
      }
    } else {
      assert current[0] in current;
    }
  }

  lemma WinnersAreTop(r: Resolver, e: Event, x: Entry)
    ensures Wins(r, e, x) <==> Pool(r, e) != [] && x in Top(r, e)
  {
    forall y ensures y in Pool(r, e) <==> InPool(r, e, y) {
      PoolExactly(r, e, y);
    }
    if Pool(r, e) != [] {
      TopExactly(r, e, x);
      SomeInPool(r, e);
    }
    if Wins(r, e, x) {
      assert InPool(r, e, x);
    }
  }

  /** Every covering entry of the pool's standing is in the pool. */
  lemma SomeInPool(r: Resolver, e: Event)
    requires Pool(r, e) != []
    ensures InPool(r, e, Pool(r, e)[0])
  {
    assert Pool(r, e)[0] in Pool(r, e);
    PoolExactly(r, e, Pool(r, e)[0]);
  }

  /** An event is ambiguous exactly when two entries with different names cover it and nothing covering it outranks them. */
  lemma AmbiguousForExactly(r: Resolver, e: Event)
    ensures Resolve(r, e).AmbiguousTaxonomy? <==> exists a, b | Wins(r, e, a) && Wins(r, e, b) :: a.name != b.name
  {
    forall x ensures Wins(r, e, x) <==> Pool(r, e) != [] && x in Top(r, e) {
      WinnersAreTop(r, e, x);
    }
    if Pool(r, e) != [] {
      AmbiguousExactly(r, e);
    }
  }

  // ---------------------------------------------------------------- patterns that some event matches both

  /** Some topic satisfies both matchers. */
  predicate MatchersMeet(m: Matcher, n: Matcher) {
    match (m, n)
    case (SymbolIs(s), SymbolIs(t)) => s == t
    case (SymbolIs(_), Any(ty)) => ty.None? || ty.value == "symbol"
    case (Any(ty), SymbolIs(_)) => ty.None? || ty.value == "symbol"
    case (Any(ty), Any(ty')) => ty.None? || ty'.None? || ty == ty'
  }

  predicate Unifiable(m: Match, n: Match) {
    && (forall i | 0 <= i < |m.topics| && i < |n.topics| :: MatchersMeet(m.topics[i], n.topics[i]))
    && (|m.topics| < |n.topics| ==> Trailing(m) != "forbidden")
    && (|n.topics| < |m.topics| ==> Trailing(n) != "forbidden")
    && (m.dataShape.Some? && n.dataShape.Some? ==> m.dataShape == n.dataShape)
  }

  function SharedTopic(m: Matcher, n: Matcher): Topic {
    if m.SymbolIs? then SampleTopic(m) else if n.SymbolIs? then SampleTopic(n)
    else if m.ty.Some? then SampleTopic(m) else SampleTopic(n)
  }

  lemma SharedTopicMatches(m: Matcher, n: Matcher)
    requires MatchersMeet(m, n)
    ensures MatchesTopic(m, SharedTopic(m, n)) && MatchesTopic(n, SharedTopic(m, n))
  {
  }

  function SharedTopics(m: Match, n: Match): (ts: seq<Topic>)
    ensures |ts| == if |m.topics| < |n.topics| then |n.topics| else |m.topics|
  {
    seq(if |m.topics| < |n.topics| then |n.topics| else |m.topics|,
        i requires 0 <= i && (i < |m.topics| || i < |n.topics|) =>
          if i < |m.topics| && i < |n.topics| then SharedTopic(m.topics[i], n.topics[i])
          else if i < |m.topics| then SampleTopic(m.topics[i]) else SampleTopic(n.topics[i]))
  }

  /** Topics and data that match both patterns. */
  function SharedEvent(m: Match, n: Match): Event {
    Event("", SharedTopics(m, n), if m.dataShape.Some? then m.dataShape else n.dataShape, None, None, [])
  }

  /** Two patterns are unifiable exactly when some event matches both. */
  lemma UnifiableExactly(m: Match, n: Match)
    ensures Unifiable(m, n) <==> exists e :: MatchesPattern(m, e) && MatchesPattern(n, e)
  {
    if Unifiable(m, n) {
      SharedEventMatches(m, n);
    } else if e :| MatchesPattern(m, e) && MatchesPattern(n, e) {
      forall i | 0 <= i < |m.topics| && i < |n.topics| ensures MatchersMeet(m.topics[i], n.topics[i]) {
        assert MatchesTopic(m.topics[i], e.topics[i]) && MatchesTopic(n.topics[i], e.topics[i]);
      }
    }
  }

  lemma SharedEventMatches(m: Match, n: Match)
    requires Unifiable(m, n)
    ensures MatchesPattern(m, SharedEvent(m, n)) && MatchesPattern(n, SharedEvent(m, n))
  {
    var topics := SharedTopics(m, n);
    forall i | 0 <= i < |topics|
      ensures (i < |m.topics| ==> MatchesTopic(m.topics[i], topics[i])) && (i < |n.topics| ==> MatchesTopic(n.topics[i], topics[i]))
    {
      if i < |m.topics| && i < |n.topics| {
        SharedTopicMatches(m.topics[i], n.topics[i]);
      }
    }
  }

  // ---------------------------------------------------------------- scopes that apply together

  /** Scopes of one kind that one event can be in; a contract may implement any two interfaces. */
  predicate CanApplyTogether(a: Scope, b: Scope) {
    NetworksOverlap(a, b) &&
    match (a, b)
    case (Contract(ids, _), Contract(ids', _)) => Overlap(ids, ids')
    case (WasmHash(hs, _), WasmHash(hs', _)) => Overlap(hs, hs')
    case (Interface(_, _), Interface(_, _)) => true
    case _ => false
  }

  /** The event placed where both scopes apply, and no scope of another kind does. */
  function Placed(e: Event, a: Scope, b: Scope): Event
    requires ValidScope(a) && ValidScope(b) && CanApplyTogether(a, b)
  {
    var network := SharedNetwork(a, b);
    match a
    case Contract(ids, _) => Event(FirstShared(ids, b.contractIds), e.topics, e.dataShape, network, None, [])
    case WasmHash(hs, _) => Event("", e.topics, e.dataShape, network, Some(FirstShared(hs, b.wasmHashes)), [])
    case Interface(name, _) => Event("", e.topics, e.dataShape, network, None, [name, b.name])
  }

  lemma PlacedApplies(e: Event, a: Scope, b: Scope)
    requires ValidScope(a) && ValidScope(b) && CanApplyTogether(a, b)
    ensures ScopeApplies(a, Placed(e, a, b)) && ScopeApplies(b, Placed(e, a, b))
  {
    if a.WasmHash? {
      LowerCaseUnchanged(FirstShared(a.wasmHashes, b.wasmHashes));
    }
  }

  lemma ApplyTogetherExactly(a: Scope, b: Scope)
    requires ValidScope(a) && ValidScope(b)
    ensures CanApplyTogether(a, b) <==> ScopeRank(a) == ScopeRank(b) && exists e :: ScopeApplies(a, e) && ScopeApplies(b, e)
  {
    if CanApplyTogether(a, b) {
      PlacedApplies(Event("", [], None, None, None, []), a, b);
    } else if e :| ScopeRank(a) == ScopeRank(b) && ScopeApplies(a, e) && ScopeApplies(b, e) {
      ApplyingScopesOverlap(a, b, e);
      NetworksAgree(a, b, e);
    }
  }

  lemma NetworksAgree(a: Scope, b: Scope, e: Event)
    requires ValidScope(a) && ValidScope(b) && ScopeApplies(a, e) && ScopeApplies(b, e)
    ensures NetworksOverlap(a, b)
  {
    if a.networks.Some? && b.networks.Some? {
      assert e.network.value in a.networks.value && e.network.value in b.networks.value;
    }
  }

  /** One event both entries can cover, by patterns and scopes alone. */
  predicate Rivals(a: Entry, b: Entry) {
    CanApplyTogether(a.scope, b.scope) && Unifiable(a.match_, b.match_)
  }

  lemma RivalsExactly(a: Entry, b: Entry)
    requires ValidEntry(a) && ValidEntry(b)
    ensures Rivals(a, b) <==> ScopeRank(a.scope) == ScopeRank(b.scope) && exists e :: Covers(a, e) && Covers(b, e)
  {
    if Rivals(a, b) {
      SharedEventMatches(a.match_, b.match_);
      PlacedApplies(SharedEvent(a.match_, b.match_), a.scope, b.scope);
      var e := Placed(SharedEvent(a.match_, b.match_), a.scope, b.scope);
      assert Covers(a, e) && Covers(b, e);
    } else if e :| ScopeRank(a.scope) == ScopeRank(b.scope) && Covers(a, e) && Covers(b, e) {
      ApplyTogetherExactly(a.scope, b.scope);
      UnifiableExactly(a.match_, b.match_);
    }
  }

  // ---------------------------------------------------------------- higher ranks never shield a pair

  /** The event as seen by one kind of scope only. */
  function Focused(e: Event, kind: Scope): Event {
    match kind
    case Contract(_, _) => e.(wasmHash := None, interfaces := [])
    case WasmHash(_, _) => e.(contractId := "", interfaces := [])
    case Interface(_, _) => e.(contractId := "", wasmHash := None)
  }

  /** A focused event is covered by the same entries of that kind, and by no other. */
  lemma FocusedCovers(x: Entry, e: Event, kind: Scope)
    requires ValidEntry(x)
    ensures Covers(x, Focused(e, kind)) <==> Covers(x, e) && ScopeRank(x.scope) == ScopeRank(kind)
  {
    if x.scope.Contract? {
      assert forall id | id in x.scope.contractIds :: ValidContractId(id);
    }
  }

  /** An entry of the same kind that keeps another from winning: live against superseded, or current against retired. */
  predicate BetterStanding(r: Resolver, y: Entry, x: Entry) {
    ScopeRank(y.scope) == ScopeRank(x.scope) && Outranks(r, y, x)
  }

  ghost predicate Exposed(r: Resolver, a: Entry, b: Entry, e: Event) {
    && Covers(a, e) && Covers(b, e)
    && forall y | y in r.entries && Covers(y, e) :: !BetterStanding(r, y, a) && !BetterStanding(r, y, b)
  }

  /** Different names for one event of one scope kind, with no better entry of that kind in the way. */
  ghost predicate Clash(r: Resolver, a: Entry, b: Entry) {
    && a in r.entries && b in r.entries && a.name != b.name && ScopeRank(a.scope) == ScopeRank(b.scope)
    && exists e :: Exposed(r, a, b, e)
  }

  /**
   Some event is ambiguous exactly when two entries clash. Entries of other scope kinds
   have no say: the event can be moved out of their reach.
   */
  lemma AmbiguousSomewhereExactly(r: Resolver)
    requires Loaded(r)
    ensures (exists e :: Resolve(r, e).AmbiguousTaxonomy?) <==> exists a, b :: Clash(r, a, b)
  {
    if e :| Resolve(r, e).AmbiguousTaxonomy? {
      AmbiguousForExactly(r, e);
      var a, b :| Wins(r, e, a) && Wins(r, e, b) && a.name != b.name;
      assert !Outranks(r, a, b) && !Outranks(r, b, a);
      assert Exposed(r, a, b, e);
      assert Clash(r, a, b);
    }
    if a, b :| Clash(r, a, b) {
      var e :| Exposed(r, a, b, e);
      ClashIsAmbiguous(r, a, b, e);
    }
  }

  lemma ClashIsAmbiguous(r: Resolver, a: Entry, b: Entry, e: Event)
    requires Loaded(r) && Clash(r, a, b) && Exposed(r, a, b, e)
    ensures Resolve(r, Focused(e, a.scope)).AmbiguousTaxonomy?
  {
    var f := Focused(e, a.scope);
    forall y | y in r.entries
      ensures Covers(y, f) <==> Covers(y, e) && ScopeRank(y.scope) == ScopeRank(a.scope)
    {
      FocusedCovers(y, e, a.scope);
    }
    assert Wins(r, f, a) && Wins(r, f, b);
    AmbiguousForExactly(r, f);
  }

  /** Nothing is superseded and nothing retired. */
  ghost predicate Plain(r: Resolver) {
    forall x | x in r.entries :: x.supersedes == [] && !x.deprecated
  }

  /**
   A loaded set without supersession and deprecation is ambiguous for some event exactly
   when two entries with different names have scopes of one kind that can apply together
   and unifiable patterns: a condition on pairs of entries, with no event in it.
   */
  lemma PlainSetAmbiguousExactly(r: Resolver)
    requires Loaded(r) && Plain(r)
    ensures (exists e :: Resolve(r, e).AmbiguousTaxonomy?)
       <==> exists a, b | a in r.entries && b in r.entries :: a.name != b.name && Rivals(a, b)
  {
    AmbiguousSomewhereExactly(r);
    assert r.superseded == {};
    if a, b :| Clash(r, a, b) {
      AcceptedPair(r.entries, a, b);
      RivalsExactly(a, b);
    }
    if a, b :| a in r.entries && b in r.entries && a.name != b.name && Rivals(a, b) {
      AcceptedPair(r.entries, a, b);
      RivalsExactly(a, b);
      var e :| Covers(a, e) && Covers(b, e);
      assert Exposed(r, a, b, e);
      assert Clash(r, a, b);
    }
  }

  /** In any loaded set, two entries that nothing of their kind can displace clash exactly when they are rivals. */
  lemma BestStandingClashExactly(r: Resolver, a: Entry, b: Entry)
    requires Loaded(r) && a in r.entries && b in r.entries && a.name != b.name
    requires forall y | y in r.entries :: !BetterStanding(r, y, a) && !BetterStanding(r, y, b)
    ensures Clash(r, a, b) <==> Rivals(a, b)
  {
    AcceptedPair(r.entries, a, b);
    RivalsExactly(a, b);
    if Rivals(a, b) {
      var e :| Covers(a, e) && Covers(b, e);
      assert Exposed(r, a, b, e);
    }
  }

  // ---------------------------------------------------------------- a search over the entries' own terms

  function ContractIds(entries: seq<Entry>): set<string> {
    set x, id | x in entries && x.scope.Contract? && id in x.scope.contractIds :: id
  }

  function Hashes(entries: seq<Entry>): set<string> {
    set x, h | x in entries && x.scope.WasmHash? && h in x.scope.wasmHashes :: h
  }

  function InterfaceNames(entries: seq<Entry>): set<string> {
    set x | x in entries && x.scope.Interface? :: x.scope.name
  }

  function Symbols(entries: seq<Entry>): set<string> {
    set x, m | x in entries && m in x.match_.topics && m.SymbolIs? :: m.symbol
  }

  function Longest(entries: seq<Entry>): (n: nat)
    ensures forall x | x in entries :: |x.match_.topics| <= n
  {
    if entries == [] then 0
    else
      var rest := Longest(entries[1..]);
      assert forall x :: x in entries <==> x == entries[0] || x in entries[1..];
      if |entries[0].match_.topics| > rest then |entries[0].match_.topics| else rest
  }

  /** The event is made of terms the entries use, with the empty text for any other. There are finitely many of these. */
  predicate FromEntries(entries: seq<Entry>, e: Event) {
    && e.contractId in ContractIds(entries) + {""}
    && (e.wasmHash.Some? ==> e.wasmHash.value in Hashes(entries))
    && (forall n | n in e.interfaces :: n in InterfaceNames(entries))
    && (forall i, j | 0 <= i < j < |e.interfaces| :: e.interfaces[i] != e.interfaces[j])
    && (e.network.Some? ==> e.network.value in NETWORKS)
    && (e.dataShape.Some? ==> e.dataShape.value in DATA_SHAPES)
    && |e.topics| <= Longest(entries) + 1
    && forall t | t in e.topics :: TopicFromEntries(entries, t)
  }

  predicate TopicFromEntries(entries: seq<Entry>, t: Topic) {
    match t
    case SymbolTopic(s) => s in Symbols(entries) + {""}
    case ValueTopic(ty) => ty.Some? ==> ty.value in PRIMITIVE_TYPES
  }

  /** The value if it is a known one. */
  function Known(known: set<string>, value: Option<string>): Option<string> {
    if value.Some? && value.value in known then value else None
  }

  function KnownNames(known: set<string>, names: seq<string>): (r: seq<string>)
    ensures forall n :: n in r <==> n in names && n in known
    ensures forall i, j | 0 <= i < j < |r| :: r[i] != r[j]
  {
    if names == [] then []
    else
      var rest := KnownNames(known, names[1..]);
      assert forall n :: n in names <==> n == names[0] || n in names[1..];
      if names[0] in known && names[0] !in rest then [names[0]] + rest else rest
  }

  function SimplerTopic(entries: seq<Entry>, t: Topic): (r: Topic)
    ensures TopicFromEntries(entries, r)
  {
    match t
    case SymbolTopic(s) => if s in Symbols(entries) then t else SymbolTopic("")
    case ValueTopic(ty) => ValueTopic(Known(PRIMITIVE_TYPES, ty))
  }

  function SimplerTopics(entries: seq<Entry>, ts: seq<Topic>): (r: seq<Topic>)
    ensures |r| == |ts| && forall i | 0 <= i < |ts| :: r[i] == SimplerTopic(entries, ts[i])
  {
    seq(|ts|, i requires 0 <= i < |ts| => SimplerTopic(entries, ts[i]))
  }

  function Shortened(ts: seq<Topic>, n: nat): (r: seq<Topic>)
    ensures |r| == if |ts| < n then |ts| else n
    ensures r <= ts
  {
    if |ts| <= n then ts else ts[..n]
  }

  /** The event with every term the entries do not use forgotten. */
  function Simpler(entries: seq<Entry>, e: Event): Event {
    Event(if e.contractId in ContractIds(entries) then e.contractId else "",
          SimplerTopics(entries, Shortened(e.topics, Longest(entries) + 1)),
          Known(DATA_SHAPES, e.dataShape),
          Known(NETWORKS, e.network),
          Known(Hashes(entries), if e.wasmHash.Some? then Some(ToLowerCase(e.wasmHash.value)) else None),
          KnownNames(InterfaceNames(entries), e.interfaces))
  }

  lemma SimplerIsFromEntries(entries: seq<Entry>, e: Event)
    ensures FromEntries(entries, Simpler(entries, e))
  {
    forall t | t in Simpler(entries, e).topics ensures TopicFromEntries(entries, t) {
      var i :| 0 <= i < |Simpler(entries, e).topics| && Simpler(entries, e).topics[i] == t;
    }
  }

  lemma SimplerTopicMatches(entries: seq<Entry>, x: Entry, m: Matcher, t: Topic)
    requires x in entries && m in x.match_.topics && ValidMatcher(m)
    ensures MatchesTopic(m, SimplerTopic(entries, t)) <==> MatchesTopic(m, t)
  {
    if m.SymbolIs? {
      assert m.symbol in Symbols(entries);
    }
  }

  lemma SimplerMatches(entries: seq<Entry>, x: Entry, e: Event)
    requires x in entries && ValidEntry(x)
    ensures MatchesPattern(x.match_, Simpler(entries, e)) <==> MatchesPattern(x.match_, e)
  {
    var topics := Simpler(entries, e).topics;
    forall i | 0 <= i < |x.match_.topics| && i < |e.topics|
      ensures i < |topics| && (MatchesTopic(x.match_.topics[i], topics[i]) <==> MatchesTopic(x.match_.topics[i], e.topics[i]))
    {
      SimplerTopicMatches(entries, x, x.match_.topics[i], e.topics[i]);
    }
  }

  lemma SimplerApplies(entries: seq<Entry>, x: Entry, e: Event)
    requires x in entries && ValidEntry(x)
    ensures ScopeApplies(x.scope, Simpler(entries, e)) <==> ScopeApplies(x.scope, e)
  {
    match x.scope
    case Contract(ids, _) => SimplerContract(entries, x, e);
    case WasmHash(hs, _) => SimplerHash(entries, x, e);
    case Interface(name, _) => assert name in InterfaceNames(entries);
  }

  lemma SimplerContract(entries: seq<Entry>, x: Entry, e: Event)
    requires x in entries && x.scope.Contract? && forall id | id in x.scope.contractIds :: ValidContractId(id)
    ensures Simpler(entries, e).contractId in x.scope.contractIds <==> e.contractId in x.scope.contractIds
  {
    if e.contractId in x.scope.contractIds {
      assert e.contractId in ContractIds(entries);
    }
  }

  lemma SimplerHash(entries: seq<Entry>, x: Entry, e: Event)
    requires x in entries && x.scope.WasmHash? && forall h | h in x.scope.wasmHashes :: LowerHex(h)
    ensures var s := Simpler(entries, e).wasmHash;
            s.Some? && ToLowerCase(s.value) in x.scope.wasmHashes
            <==> e.wasmHash.Some? && ToLowerCase(e.wasmHash.value) in x.scope.wasmHashes
  {
    if e.wasmHash.Some? {
      var h := ToLowerCase(e.wasmHash.value);
      if h in x.scope.wasmHashes {
        assert h in Hashes(entries);
      }
      LowerCaseTwice(e.wasmHash.value);
    }
  }

  lemma {:induction false} LowerCaseTwice(s: string)
    ensures ToLowerCase(ToLowerCase(s)) == ToLowerCase(s)
  {
    if s != "" {
      LowerCaseTwice(s[1..]);
    }
  }

  /** Whether any event is ambiguous is decided by the finitely many events made of the entries' own terms. */
  lemma SearchIsComplete(r: Resolver)
    requires Loaded(r)
    ensures (exists e :: Resolve(r, e).AmbiguousTaxonomy?)
       <==> exists e :: FromEntries(r.entries, e) && Resolve(r, e).AmbiguousTaxonomy?
  {
    if e :| Resolve(r, e).AmbiguousTaxonomy? {
      var s := Simpler(r.entries, e);
      SimplerIsFromEntries(r.entries, e);
      forall x | x in r.entries ensures Covers(x, s) <==> Covers(x, e) {
        SimplerMatches(r.entries, x, e);
        SimplerApplies(r.entries, x, e);
      }
      forall x ensures Wins(r, s, x) <==> Wins(r, e, x) {}
      AmbiguousForExactly(r, e);
      AmbiguousForExactly(r, s);
    }
  }

  // ---------------------------------------------------------------- the three ways it happens

  lemma SampleNames() returns (n: string, n': string)
    ensures ValidName(n) && ValidName(n') && n != n'
  {
    n, n' := "payment.sent", "payment.moved";
    assert n[..7] == "payment" && n[8..] == "sent" && n[7] == '.';
    assert n'[..7] == "payment" && n'[8..] == "moved" && n'[7] == '.';
    assert Segment("sent") && Segment("moved");
    assert n[8] != n'[8];
  }

  lemma SampleVersion() returns (v: string)
    ensures ValidVersion(v)
  {
    v := "1.0.0";
    assert v[1] == '.' && v[3] == '.' && v[..1] == "1" && v[2..3] == "0" && v[4..] == "0";
    assert Digits("1") && Digits("0");
  }

  lemma SampleIds() returns (x: string, y: string, z: string)
    ensures ValidId(x) && ValidId(y) && ValidId(z) && x != y && y != z && x != z
  {
    x, y, z := "a", "b", "c";
    assert x[0] != y[0] && y[0] != z[0] && x[0] != z[0];
  }

  /** Contract ids: the letter C and 55 more. */
  lemma SampleContracts() returns (c: string, c': string)
    ensures ValidContractId(c) && ValidContractId(c') && c != c'
  {
    c, c' := "C" + seq(55, _ => 'A'), "C" + seq(55, _ => 'B');
    assert c[1] != c'[1];
  }

  lemma SampleInterfaces() returns (n: string, n': string)
    ensures ValidInterface(n) && ValidInterface(n') && n != n'
  {
    n, n' := "SEP-41", "SEP-45";
    assert n[..4] == "SEP-" && n[4..] == "41" && n'[..4] == "SEP-" && n'[4..] == "45";
    assert n[5] != n'[5];
  }

  /** An untyped and a typed matcher in the second place. */
  lemma SamplePatterns() returns (m: Match, m': Match)
    ensures ValidMatch(m) && ValidMatch(m') && Unifiable(m, m') && NormalizedMatchKey(m) != NormalizedMatchKey(m')
  {
    var transfer := SymbolIs("transfer");
    m, m' := Match([transfer, Any(None)], None, None), Match([transfer, Any(Some("address"))], None, None);
    assert NormalizedMatchKey(m).topics[1] == "any:*" && NormalizedMatchKey(m').topics[1] == "any:address";
    assert "any:*"[4] != "any:address"[4];
  }

  lemma SameUnifies(m: Match)
    ensures Unifiable(m, m)
  {
  }

  lemma PairLoads(a: Entry, b: Entry)
    requires ValidEntry(a) && ValidEntry(b) && Compatible(a, b)
    ensures Accepted([a, b])
  {
    assert [a, b][0] == a && [a, b][1] == b;
  }

  lemma PlainPairIsAmbiguous(a: Entry, b: Entry)
    requires ValidEntry(a) && ValidEntry(b) && Compatible(a, b) && Rivals(a, b) && a.name != b.name
    requires a.supersedes == [] && b.supersedes == [] && !a.deprecated && !b.deprecated
    ensures var r := Resolver([a, b], SupersededIds([a, b]));
            Loaded(r) && exists e :: Resolve(r, e).AmbiguousTaxonomy?
  {
    var r := Resolver([a, b], SupersededIds([a, b]));
    PairLoads(a, b);
    assert a in r.entries && b in r.entries;
    PlainSetAmbiguousExactly(r);
  }

  /** Two different patterns in one scope can cover one event. */
  lemma DifferentPatternsClash() returns (a: Entry, b: Entry)
    ensures a.scope == b.scope && a.scope.Contract? && NormalizedMatchKey(a.match_) != NormalizedMatchKey(b.match_)
    ensures var r := Resolver([a, b], SupersededIds([a, b]));
            Loaded(r) && exists e :: Resolve(r, e).AmbiguousTaxonomy?
  {
    var x, y, _ := SampleIds();
    var n, n' := SampleNames();
    var v := SampleVersion();
    var m, m' := SamplePatterns();
    var c, _ := SampleContracts();
    a := ContractEntry(x, v, n, m, c, []);
    b := ContractEntry(y, v, n', m', c, []);
    assert c in a.scope.contractIds;
    PlainPairIsAmbiguous(a, b);
  }

  /** One pattern for two interfaces, and a contract that implements both. */
  lemma DifferentInterfacesClash() returns (a: Entry, b: Entry)
    ensures a.match_ == b.match_ && a.scope.Interface? && b.scope.Interface? && a.scope.name != b.scope.name
    ensures var r := Resolver([a, b], SupersededIds([a, b]));
            Loaded(r) && exists e :: Resolve(r, e).AmbiguousTaxonomy?
  {
    var x, y, _ := SampleIds();
    var n, n' := SampleNames();
    var v := SampleVersion();
    var m, _ := SamplePatterns();
    var s, s' := SampleInterfaces();
    SameUnifies(m);
    a, b := Entry(x, v, n, m, Interface(s, None), [], false), Entry(y, v, n', m, Interface(s', None), [], false);
    PlainPairIsAmbiguous(a, b);
  }

  lemma TripleLoads(a: Entry, b: Entry, c: Entry)
    requires ValidEntry(a) && ValidEntry(b) && ValidEntry(c) && Compatible(a, b) && Compatible(a, c) && Compatible(b, c)
    ensures Accepted([a, b, c])
  {
    assert [a, b, c][0] == a && [a, b, c][1] == b && [a, b, c][2] == c;
  }

  /**
   One pattern and one scope, an overlap that supersession made legal: b is superseded by
   a, and a in turn by c, which is about another contract. For an event of the first
   contract only the two superseded entries are left.
   */
  lemma AllSupersededClash() returns (a: Entry, b: Entry, c: Entry)
    ensures a.match_ == b.match_ && a.scope == b.scope && b.id in a.supersedes && a.id in c.supersedes
    ensures var r := Resolver([a, b, c], SupersededIds([a, b, c]));
            Loaded(r) && exists e :: Resolve(r, e).AmbiguousTaxonomy?
  {
    var x, y, z := SampleIds();
    var n, n' := SampleNames();
    var v := SampleVersion();
    var m, _ := SamplePatterns();
    var k, k' := SampleContracts();
    a := ContractEntry(x, v, n, m, k, [y]);
    b := ContractEntry(y, v, n', m, k, []);
    c := ContractEntry(z, v, n, m, k', [x]);
    SamePlaceRivals(a, b);
    SupersededTripleLoads(a, b, c);
    SupersededPairIsAmbiguous(a, b, c);
  }

  lemma ContractEntry(id: string, v: string, n: string, m: Match, k: string, supersedes: seq<string>) returns (x: Entry)
    requires ValidId(id) && ValidVersion(v) && ValidName(n) && ValidMatch(m) && ValidContractId(k)
    requires forall s | s in supersedes :: ValidId(s)
    ensures ValidEntry(x) && x == Entry(id, v, n, m, Contract([k], None), supersedes, false)
  {
    x := Entry(id, v, n, m, Contract([k], None), supersedes, false);
  }

  lemma SamePlaceRivals(a: Entry, b: Entry)
    requires a.match_ == b.match_ && a.scope == b.scope && a.scope.Contract?
    requires a.scope.contractIds != [] && a.scope.networks == None
    ensures Rivals(a, b)
  {
    SameUnifies(a.match_);
    assert a.scope.contractIds[0] in b.scope.contractIds;
  }

  lemma SupersededTripleLoads(a: Entry, b: Entry, c: Entry)
    requires ValidEntry(a) && ValidEntry(b) && ValidEntry(c) && a.id != b.id && a.id != c.id && b.id != c.id
    requires b.id in a.supersedes && a.id in c.supersedes
    requires b.scope.Contract? && c.scope.Contract? && !Overlap(b.scope.contractIds, c.scope.contractIds)
    ensures Accepted([a, b, c])
  {
    TripleLoads(a, b, c);
  }

  lemma SupersededPairIsAmbiguous(a: Entry, b: Entry, c: Entry)
    requires Accepted([a, b, c]) && b.id in a.supersedes && a.id in c.supersedes
    requires a.name != b.name && !a.deprecated && !b.deprecated && Rivals(a, b)
    requires a.scope == b.scope && a.scope.Contract? && c.scope.Contract?
    requires !Overlap(a.scope.contractIds, c.scope.contractIds)
    ensures var r := Resolver([a, b, c], SupersededIds([a, b, c])); exists e :: Resolve(r, e).AmbiguousTaxonomy?
  {
    var r := Resolver([a, b, c], SupersededIds([a, b, c]));
    BothSuperseded(a, b, c);
    RivalsExactly(a, b);
    var e :| Covers(a, e) && Covers(b, e);
    assert e.contractId !in c.scope.contractIds;
    OnlySupersededLeft(r, a, b, e);
    AmbiguousSomewhereExactly(r);
  }

  lemma BothSuperseded(a: Entry, b: Entry, c: Entry)
    requires b.id in a.supersedes && a.id in c.supersedes
    ensures var entries := [a, b, c];
            && a in entries && b in entries && c in entries && (forall x | x in entries :: x == a || x == b || x == c)
            && a.id in SupersededIds(entries) && b.id in SupersededIds(entries)
  {
    var entries := [a, b, c];
    assert entries[0] == a && entries[1] == b && entries[2] == c;
  }

  lemma OnlySupersededLeft(r: Resolver, a: Entry, b: Entry, e: Event)
    requires a in r.entries && b in r.entries && a.name != b.name && ScopeRank(a.scope) == ScopeRank(b.scope)
    requires Covers(a, e) && Covers(b, e) && forall y | y in r.entries && Covers(y, e) :: y == a || y == b
    requires a.id in r.superseded && b.id in r.superseded && !a.deprecated && !b.deprecated
    ensures Clash(r, a, b)
  {
    assert Exposed(r, a, b, e);
  }
}
