/** Resolving one event against a loaded entry set, and what the static check guarantees about it. */
module TaxonomyResolver {
  import opened Results
  import opened Strings
  import opened Taxonomy

  datatype Topic = SymbolTopic(symbol: string) | ValueTopic(ty: Option<string>)

  datatype Event = Event(
    contractId: string,
    topics: seq<Topic>,
    dataShape: Option<string>,
    network: Option<string>,
    wasmHash: Option<string>,
    interfaces: seq<string>)

  datatype Kind = ContractKind | WasmHashKind | InterfaceKind

  function KindOf(s: Scope): Kind {
    match s
    case Contract(_, _) => ContractKind
    case WasmHash(_, _) => WasmHashKind
    case Interface(_, _) => InterfaceKind
  }

  datatype Outcome =
    | Unmapped
    | Named(name: string, entryId: string, entryVersion: string, scope: Kind, deprecated: bool)
    | AmbiguousTaxonomy(entryIds: seq<string>)

  function ScopeRank(s: Scope): int {
    match s
    case Contract(_, _) => 3
    case WasmHash(_, _) => 2
    case Interface(_, _) => 1
  }

  predicate NetworkApplies(s: Scope, network: Option<string>) {
    || s.networks == None
    || s.networks.value == []
    || (network.Some? && network.value in s.networks.value)
  }

  predicate ScopeApplies(s: Scope, e: Event) {
    NetworkApplies(s, e.network) &&
    match s
    case Contract(ids, _) => e.contractId in ids
    case WasmHash(hashes, _) => e.wasmHash.Some? && ToLowerCase(e.wasmHash.value) in hashes
    case Interface(name, _) => name in e.interfaces
  }

  predicate MatchesTopic(m: Matcher, t: Topic) {
    match m
    case SymbolIs(s) => t == SymbolTopic(s)
    case Any(None) => true
    case Any(Some(ty)) => if t.SymbolTopic? then ty == "symbol" else t.ty == Some(ty)
  }

  predicate MatchesPattern(m: Match, e: Event) {
    && |e.topics| >= |m.topics|
    && (Trailing(m) == "forbidden" ==> |e.topics| == |m.topics|)
    && (forall i | 0 <= i < |m.topics| :: MatchesTopic(m.topics[i], e.topics[i]))
    && (m.dataShape.Some? ==> e.dataShape == m.dataShape)
  }

  /** The matcher in the source's form: length checks, then a loop over the topics. */
  method MatchPattern(m: Match, e: Event) returns (matches: bool)
    ensures matches == MatchesPattern(m, e)
  {
    if |e.topics| < |m.topics| {
      return false;
    }
    if Trailing(m) == "forbidden" && |e.topics| != |m.topics| {
      return false;
    }
    for i := 0 to |m.topics|
      invariant forall k | 0 <= k < i :: MatchesTopic(m.topics[k], e.topics[k])
    {
      if !MatchesTopic(m.topics[i], e.topics[i]) {
        return false;
      }
    }
    if m.dataShape.Some? {
      if e.dataShape == None {
        return false;
      }
      if e.dataShape != m.dataShape {
        return false;
      }
    }
    return true;
  }

  predicate Covers(entry: Entry, e: Event) {
    ScopeApplies(entry.scope, e) && MatchesPattern(entry.match_, e)
  }

  function Filter(p: Entry -> bool, entries: seq<Entry>): (r: seq<Entry>)
    ensures forall x :: x in r <==> x in entries && p(x)
  {
    if entries == [] then []
    else
      var rest := Filter(p, entries[1..]);
      assert forall x :: x in entries <==> x == entries[0] || x in entries[1..];
      if p(entries[0]) then [entries[0]] + rest else rest
  }

  function BestRank(pool: seq<Entry>): (r: int)
    requires pool != []
    ensures forall x | x in pool :: ScopeRank(x.scope) <= r
    ensures exists x | x in pool :: ScopeRank(x.scope) == r
  {
    var first := ScopeRank(pool[0].scope);
    if |pool| == 1 then
      assert pool[0] in pool;
      first
    else
      var rest := BestRank(pool[1..]);
      assert forall x :: x in pool <==> x == pool[0] || x in pool[1..];
      if first < rest then rest else first
  }

  /** The entries that cover the event, without the superseded ones if any remain. */
  function Pool(r: Resolver, e: Event): seq<Entry> {
    var candidates := Filter((x: Entry) => Covers(x, e), r.entries);
    var live := Filter((x: Entry) => x.id !in r.superseded, candidates);
    if live != [] then live else candidates
  }

  /** The pool's entries of the best scope rank, without the deprecated ones if any remain. */
  function Top(r: Resolver, e: Event): seq<Entry>
    requires Pool(r, e) != []
  {
    var pool := Pool(r, e);
    var best := BestRank(pool);
    var top := Filter((x: Entry) => ScopeRank(x.scope) == best, pool);
    var current := Filter((x: Entry) => !x.deprecated, top);
    if current != [] then current else top
  }

  function Names(entries: seq<Entry>): set<string> {
    set x | x in entries :: x.name
  }

  function Resolve(r: Resolver, e: Event): Outcome {
    if Pool(r, e) == [] then Unmapped
    else
      var top := Top(r, e);
      TopNotEmpty(r, e);
      if |Names(top)| > 1 then AmbiguousTaxonomy(seq(|top|, i requires 0 <= i < |top| => top[i].id))
      else Named(top[0].name, top[0].id, top[0].version, KindOf(top[0].scope), top[0].deprecated)
  }

  lemma TopNotEmpty(r: Resolver, e: Event)
    requires Pool(r, e) != []
    ensures Top(r, e) != []
  {
    var best := BestRank(Pool(r, e));
    var x :| x in Pool(r, e) && ScopeRank(x.scope) == best;
    assert x in Filter((y: Entry) => ScopeRank(y.scope) == best, Pool(r, e));
  }

  // ---------------------------------------------------------------- what an ambiguity means

  ghost predicate Loaded(r: Resolver) {
    Accepted(r.entries) && r.superseded == SupersededIds(r.entries)
  }

  lemma TopMembers(r: Resolver, e: Event, x: Entry)
    requires Pool(r, e) != [] && x in Top(r, e)
    ensures x in r.entries && Covers(x, e) && ScopeRank(x.scope) == BestRank(Pool(r, e))
    ensures x.id in r.superseded ==> forall y | y in r.entries && Covers(y, e) :: y.id in r.superseded
  {
    var candidates := Filter((y: Entry) => Covers(y, e), r.entries);
    var live := Filter((y: Entry) => y.id !in r.superseded, candidates);
    forall y | y in r.entries && Covers(y, e) && y.id !in r.superseded ensures live != [] {
      assert y in live;
    }
  }

  /** Every entry that covers the event has been superseded. */
  ghost predicate AllCoveringSuperseded(r: Resolver, e: Event) {
    forall y | y in r.entries && Covers(y, e) :: y.id in r.superseded
  }

  /** Two scopes of one kind that both apply to an event overlap, unless they name different interfaces. */
  lemma ApplyingScopesOverlap(a: Scope, b: Scope, e: Event)
    requires ValidScope(a) && ValidScope(b) && ScopeApplies(a, e) && ScopeApplies(b, e)
    requires ScopeRank(a) == ScopeRank(b)
    ensures ScopesOverlap(a, b) || (a.Interface? && b.Interface? && a.name != b.name)
  {
    if a.networks.Some? && b.networks.Some? {
      assert e.network.value in a.networks.value && e.network.value in b.networks.value;
    }
    match a
    case Contract(_, _) => assert e.contractId in a.contractIds && e.contractId in b.contractIds;
    case WasmHash(_, _) =>
      assert ToLowerCase(e.wasmHash.value) in a.wasmHashes && ToLowerCase(e.wasmHash.value) in b.wasmHashes;
    case Interface(_, _) =>
  }

  /**
   When a loaded set is ambiguous for an event, every two winners with different names
   have different patterns, or are scoped to different interfaces, or nothing that
   covers the event is still live.
   */
  lemma AmbiguityExplained(r: Resolver, e: Event, a: Entry, b: Entry)
    requires Loaded(r) && Resolve(r, e).AmbiguousTaxonomy?
    requires a in Top(r, e) && b in Top(r, e) && a.name != b.name
    ensures || NormalizedMatchKey(a.match_) != NormalizedMatchKey(b.match_)
            || (a.scope.Interface? && b.scope.Interface? && a.scope.name != b.scope.name)
            || AllCoveringSuperseded(r, e)
  {
    TopMembers(r, e, a);
    TopMembers(r, e, b);
    AcceptedPair(r.entries, a, b);
    NoConflictBetween(a, b, e);
    if b.id in a.supersedes || a.id in b.supersedes {
      SupersededByMember(r, a, b);
    }
  }

  /** Two compatible entries of one kind with different names that cover one event. */
  lemma NoConflictBetween(a: Entry, b: Entry, e: Event)
    requires ValidScope(a.scope) && ValidScope(b.scope) && Compatible(a, b) && a.name != b.name
    requires Covers(a, e) && Covers(b, e) && ScopeRank(a.scope) == ScopeRank(b.scope)
    ensures || b.id in a.supersedes || a.id in b.supersedes
            || NormalizedMatchKey(a.match_) != NormalizedMatchKey(b.match_)
            || (a.scope.Interface? && b.scope.Interface? && a.scope.name != b.scope.name)
  {
    ApplyingScopesOverlap(a.scope, b.scope, e);
  }

  lemma SupersededByMember(r: Resolver, a: Entry, b: Entry)
    requires r.superseded == SupersededIds(r.entries) && a in r.entries && b in r.entries
    requires b.id in a.supersedes || a.id in b.supersedes
    ensures a.id in r.superseded || b.id in r.superseded
  {
  }

  /** Any two different members of an accepted set are valid and compatible, whichever comes first. */
  lemma AcceptedPair(entries: seq<Entry>, a: Entry, b: Entry)
    requires Accepted(entries) && a in entries && b in entries && a != b
    ensures ValidEntry(a) && ValidEntry(b) && Compatible(a, b)
  {
    var i :| 0 <= i < |entries| && entries[i] == a;
    var j :| 0 <= j < |entries| && entries[j] == b;
    ConflictSymmetric(a, b);
  }

  lemma ConflictSymmetric(a: Entry, b: Entry)
    ensures ConflictOf(a, b) == ConflictOf(b, a)
  {
    OverlapSymmetric(a.scope, b.scope);
  }

  lemma OverlapSymmetric(a: Scope, b: Scope)
    ensures ScopesOverlap(a, b) <==> ScopesOverlap(b, a)
  {
    forall x: seq<string>, y: seq<string> ensures Overlap(x, y) <==> Overlap(y, x) {
      if z :| z in x && z in y {
        assert Overlap(x, y) && Overlap(y, x);
      }
    }
  }

  lemma SeveralNames(top: seq<Entry>)
    requires top != []
    ensures |Names(top)| > 1 <==> exists a, b | a in top && b in top :: a.name != b.name
  {
    var names := Names(top);
    assert top[0] in top && top[0].name in names;
    if |names| > 1 {
      assert names != {top[0].name};
      var n :| n in names && n != top[0].name;
      var x :| x in top && x.name == n;
    }
    if a, b :| a in top && b in top && a.name != b.name {
      assert {a.name, b.name} <= names;
      SubsetSize({a.name, b.name}, names);
    }
  }

  /** Ambiguity is reported exactly when two winners carry different names. */
  lemma AmbiguousExactly(r: Resolver, e: Event)
    requires Pool(r, e) != []
    ensures Resolve(r, e).AmbiguousTaxonomy? <==> exists a, b | a in Top(r, e) && b in Top(r, e) :: a.name != b.name
  {
    TopNotEmpty(r, e);
    SeveralNames(Top(r, e));
  }

  lemma SubsetSize(a: set<string>, b: set<string>)
    requires a <= b
    ensures |a| <= |b|
  {
    assert b == a + (b - a);
  }

  // ---------------------------------------------------------------- order of entries is irrelevant

  lemma SamePool(p: Resolver, q: Resolver, e: Event)
    requires (forall x :: x in p.entries <==> x in q.entries) && p.superseded == q.superseded
    ensures forall x :: x in Pool(p, e) <==> x in Pool(q, e)
    ensures Pool(p, e) == [] <==> Pool(q, e) == []
  {
    var cp, cq := Filter((y: Entry) => Covers(y, e), p.entries), Filter((y: Entry) => Covers(y, e), q.entries);
    var lp, lq := Filter((y: Entry) => y.id !in p.superseded, cp), Filter((y: Entry) => y.id !in q.superseded, cq);
    SameEmptiness(cp, cq);
    SameEmptiness(lp, lq);
  }

  lemma SameEmptiness(a: seq<Entry>, b: seq<Entry>)
    requires forall x :: x in a <==> x in b
    ensures a == [] <==> b == []
  {
    if a != [] {
      assert a[0] in b;
    }
    if b != [] {
      assert b[0] in a;
    }
  }

  lemma SameTop(p: Resolver, q: Resolver, e: Event)
    requires (forall x :: x in p.entries <==> x in q.entries) && p.superseded == q.superseded
    requires Pool(p, e) != [] && Pool(q, e) != []
    ensures forall x :: x in Top(p, e) <==> x in Top(q, e)
    ensures forall x, y | x in Top(p, e) && y in Top(p, e) ::
              ScopeRank(x.scope) == ScopeRank(y.scope) && x.deprecated == y.deprecated
  {
    SamePool(p, q, e);
    var bp, bq := BestRank(Pool(p, e)), BestRank(Pool(q, e));
    assert bp == bq;
    var tp := Filter((x: Entry) => ScopeRank(x.scope) == bp, Pool(p, e));
    var tq := Filter((x: Entry) => ScopeRank(x.scope) == bq, Pool(q, e));
    var np, nq := Filter((x: Entry) => !x.deprecated, tp), Filter((x: Entry) => !x.deprecated, tq);
    SameEmptiness(np, nq);
    forall x | x in tp && !x.deprecated ensures x in np {}
  }

  /** Same name, scope kind and deprecation, or the same failure to resolve. */
  predicate SameMeaning(a: Outcome, b: Outcome) {
    match (a, b)
    case (Named(n, _, _, s, d), Named(n', _, _, s', d')) => n == n' && s == s' && d == d'
    case (Unmapped, Unmapped) => true
    case (AmbiguousTaxonomy(_), AmbiguousTaxonomy(_)) => true
    case _ => false
  }

  lemma SameMembership(a: seq<Entry>, b: seq<Entry>)
    requires multiset(a) == multiset(b)
    ensures forall x :: x in a <==> x in b
    ensures SupersededIds(a) == SupersededIds(b)
  {
    forall x ensures x in a <==> x in b {
      assert x in a <==> x in multiset(a);
      assert x in b <==> x in multiset(b);
    }
  }

  /** Reordering the entries changes neither the name, scope and deprecation nor whether resolution fails. */
  lemma EntryOrderIrrelevant(p: Resolver, q: Resolver, e: Event)
    requires multiset(p.entries) == multiset(q.entries)
    requires p.superseded == SupersededIds(p.entries) && q.superseded == SupersededIds(q.entries)
    ensures SameMeaning(Resolve(p, e), Resolve(q, e))
  {
    SameMembership(p.entries, q.entries);
    SamePool(p, q, e);
    if Pool(p, e) != [] {
      SameTop(p, q, e);
      TopNotEmpty(p, e);
      TopNotEmpty(q, e);
      SameAnswer(p, q, e);
    }
  }

  lemma SameAnswer(p: Resolver, q: Resolver, e: Event)
    requires Pool(p, e) != [] && Pool(q, e) != [] && Top(p, e) != [] && Top(q, e) != []
    requires forall x :: x in Top(p, e) <==> x in Top(q, e)
    requires forall x, y | x in Top(p, e) && y in Top(p, e) ::
               ScopeRank(x.scope) == ScopeRank(y.scope) && x.deprecated == y.deprecated
    ensures SameMeaning(Resolve(p, e), Resolve(q, e))
  {
    var a, b := Top(p, e), Top(q, e);
    SameWinners(a, b);
    assert a[0] in a && b[0] in a;
    RankIsKind(a[0].scope, b[0].scope);
  }

  lemma RankIsKind(a: Scope, b: Scope)
    requires ScopeRank(a) == ScopeRank(b)
    ensures KindOf(a) == KindOf(b)
  {
  }

  lemma SameWinners(a: seq<Entry>, b: seq<Entry>)
    requires a != [] && b != [] && forall x :: x in a <==> x in b
    ensures Names(a) == Names(b)
    ensures a[0] in b && b[0] in a
    ensures |Names(a)| <= 1 ==> a[0].name == b[0].name
  {
    assert a[0] in a && b[0] in b;
    assert Names(a) == Names(b);
    SeveralNames(a);
  }

  // ---------------------------------------------------------------- match keys decide matching

  /** A topic that the matcher accepts. */
  function SampleTopic(m: Matcher): Topic {
    match m
    case SymbolIs(s) => SymbolTopic(s)
    case Any(ty) => ValueTopic(ty)
  }

  function SampleEvent(m: Match): (e: Event)
    ensures MatchesPattern(m, e) && |e.topics| == |m.topics| && e.dataShape == m.dataShape
  {
    Event("", seq(|m.topics|, i requires 0 <= i < |m.topics| => SampleTopic(m.topics[i])), m.dataShape, None, None, [])
  }

  lemma MatcherTextInjective(a: Matcher, b: Matcher)
    requires ValidMatcher(a) && ValidMatcher(b) && MatcherText(a) == MatcherText(b)
    ensures a == b
  {
    var s, t := MatcherText(a), MatcherText(b);
    assert a.SymbolIs? ==> s[0] == 's' && s[7..] == a.symbol;
    assert b.SymbolIs? ==> t[0] == 's' && t[7..] == b.symbol;
    assert a.Any? && a.ty.Some? ==> s[0] == 'a' && s[4..] == a.ty.value;
    assert b.Any? && b.ty.Some? ==> t[0] == 'a' && t[4..] == b.ty.value;
    assert a.Any? && a.ty.None? ==> s[0] == 'a' && s[4..] == "*";
    assert b.Any? && b.ty.None? ==> t[0] == 'a' && t[4..] == "*";
    assert "*" !in PRIMITIVE_TYPES by {
      assert forall p | p in PRIMITIVE_TYPES :: |p| > 1;
    }
  }

  /** Different keys are told apart by some event. */
  lemma DifferentKeysDiffer(a: Match, b: Match) returns (e: Event)
    requires ValidMatch(a) && ValidMatch(b) && NormalizedMatchKey(a) != NormalizedMatchKey(b)
    ensures MatchesPattern(a, e) != MatchesPattern(b, e)
  {
    var ea, eb := SampleEvent(a), SampleEvent(b);
    if MatchesPattern(a, ea) != MatchesPattern(b, ea) {
      return ea;
    }
    if MatchesPattern(a, eb) != MatchesPattern(b, eb) {
      return eb;
    }
    // Each sample satisfies both patterns, so they differ only in whether more topics may follow.
    return ea.(topics := ea.topics + [ValueTopic(None)]);
  }

  lemma EqualKeysEqualTopics(a: Match, b: Match)
    requires ValidMatch(a) && ValidMatch(b) && NormalizedMatchKey(a) == NormalizedMatchKey(b)
    ensures a.topics == b.topics && Trailing(a) == Trailing(b) && a.dataShape == b.dataShape
  {
    var ka, kb := NormalizedMatchKey(a), NormalizedMatchKey(b);
    assert |ka.topics| == |a.topics| && |kb.topics| == |b.topics|;
    forall i | 0 <= i < |a.topics| ensures a.topics[i] == b.topics[i] {
      assert ka.topics[i] == kb.topics[i];
      MatcherTextInjective(a.topics[i], b.topics[i]);
    }
    assert "*" !in DATA_SHAPES by {
      assert forall p | p in DATA_SHAPES :: |p| > 1;
    }
  }

  /** Two valid patterns have the same key exactly when they match the same events. */
  lemma KeyDecidesMatching(a: Match, b: Match)
    requires ValidMatch(a) && ValidMatch(b)
    ensures NormalizedMatchKey(a) == NormalizedMatchKey(b)
       <==> forall e: Event :: MatchesPattern(a, e) == MatchesPattern(b, e)
  {
    if NormalizedMatchKey(a) == NormalizedMatchKey(b) {
      EqualKeysEqualTopics(a, b);
    } else {
      var e := DifferentKeysDiffer(a, b);
    }
  }

  // ---------------------------------------------------------------- the static check is not spurious

  function SharedNetwork(a: Scope, b: Scope): (n: Option<string>)
    requires ValidScope(a) && ValidScope(b) && NetworksOverlap(a, b)
    ensures NetworkApplies(a, n) && NetworkApplies(b, n)
  {
    match (a.networks, b.networks)
    case (None, None) => None
    case (Some(ns), None) => Some(ns[0])
    case (None, Some(ns)) => Some(ns[0])
    case (Some(ns), Some(ms)) => Some(FirstShared(ns, ms))
  }

  function FirstShared(a: seq<string>, b: seq<string>): (x: string)
    requires Overlap(a, b)
    ensures x in a && x in b
  {
    if a[0] in b then a[0]
    else
      assert forall x :: x in a <==> x == a[0] || x in a[1..];
      FirstShared(a[1..], b)
  }

  /** A conflict the check reports between two mappings is witnessed by an event that both cover. */
  lemma ConflictHasWitness(a: Entry, b: Entry) returns (e: Event)
    requires ValidEntry(a) && ValidEntry(b)
    requires ConflictOf(a, b) in {Some(AmbiguousMapping), Some(DuplicateMapping)}
    ensures Covers(a, e) && Covers(b, e) && ScopeRank(a.scope) == ScopeRank(b.scope)
  {
    EqualKeysEqualTopics(a.match_, b.match_);
    e := SampleEvent(a.match_).(network := SharedNetwork(a.scope, b.scope));
    match a.scope
    case Contract(ids, _) => e := e.(contractId := FirstShared(ids, b.scope.contractIds));
    case WasmHash(hashes, _) =>
      var h := FirstShared(hashes, b.scope.wasmHashes);
      LowerCaseUnchanged(h);
      e := e.(wasmHash := Some(h));
    case Interface(name, _) => e := e.(interfaces := [name]);
  }
}
