/**
 Which conflict two entries are in, by the events their patterns and scopes admit, and what
 an entry does not cover.
 */
module TaxonomyConflicts {
  import opened Results
  import opened Strings
  import opened Taxonomy
  import opened TaxonomyResolver
  import opened TaxonomyAmbiguity
  import opened TaxonomyPrecedence

  /** Both scopes are of one kind, of one interface if that is the kind, and apply to some event together. */
  ghost predicate Meet(a: Scope, b: Scope) {
    && SameKind(a, b) && (a.Interface? ==> a.name == b.name)
    && exists e :: ScopeApplies(a, e) && ScopeApplies(b, e)
  }

  lemma OverlapExactly(a: Scope, b: Scope)
    requires ValidScope(a) && ValidScope(b)
    ensures ScopesOverlap(a, b) <==> Meet(a, b)
  {
    SameRank(a, b);
    if ScopesOverlap(a, b) {
      ApplyTogetherExactly(a, b);
    } else if Meet(a, b) {
      var e :| ScopeApplies(a, e) && ScopeApplies(b, e);
      ApplyingScopesOverlap(a, b, e);
    }
  }

  /** Neither entry replaces the other. */
  predicate Independent(a: Entry, b: Entry) {
    a.id !in b.supersedes && b.id !in a.supersedes
  }

  /**
   Two entries with one id are duplicates. Two others are in conflict exactly when neither
   replaces the other, their patterns match the same events, and their scopes meet: a
   harmless conflict, which does not keep the set from loading, when they bear one name.
   */
  lemma ConflictExactly(a: Entry, b: Entry)
    requires ValidEntry(a) && ValidEntry(b)
    ensures var same := forall e: Event :: MatchesPattern(a.match_, e) == MatchesPattern(b.match_, e);
            ConflictOf(a, b) == if a.id == b.id then Some(DuplicateId)
                                else if !(Independent(a, b) && same && Meet(a.scope, b.scope)) then None
                                else if a.name == b.name then Some(DuplicateMapping)
                                else Some(AmbiguousMapping)
    ensures Compatible(a, b) <==> ConflictOf(a, b) !in {Some(DuplicateId), Some(AmbiguousMapping)}
  {
    KeyDecidesMatching(a.match_, b.match_);
    OverlapExactly(a.scope, b.scope);
  }

  // ---------------------------------------------------------------- what an entry does not cover

  /**
   A topic more keeps a match exactly where the pattern allows trailing topics, and a topic
   less than the pattern names never matches; a data shape that differs, or is unknown, does
   not match a pattern that names one.
   */
  lemma LengthAndShapeDecide(m: Match, e: Event, t: Topic)
    requires ValidMatch(m) && MatchesPattern(m, e)
    ensures MatchesPattern(m, e.(topics := e.topics + [t])) <==> m.trailing == Some("allowed")
    ensures MatchesPattern(m, e.(topics := e.topics[..|e.topics| - 1]))
       <==> m.trailing == Some("allowed") && |e.topics| > |m.topics|
    ensures forall shape | shape != e.dataShape :: MatchesPattern(m, e.(dataShape := shape)) <==> m.dataShape == None
  {
    assert e.topics != [];
  }

  /**
   Replacing one topic that the pattern names keeps the match exactly for the same symbol, for
   any topic where the pattern asks for none in particular, or for one of the type asked for;
   a topic of unknown type is not of any type.
   */
  lemma TopicDecides(m: Match, e: Event, i: nat, t: Topic)
    requires MatchesPattern(m, e) && i < |m.topics|
    ensures i < |e.topics|
    ensures MatchesPattern(m, e.(topics := e.topics[i := t])) <==>
            match m.topics[i]
            case SymbolIs(s) => t == SymbolTopic(s)
            case Any(ty) => ty.None? || (t.SymbolTopic? && ty == Some("symbol")) || (!t.SymbolTopic? && t.ty == ty)
  {
    assert forall j | 0 <= j < |m.topics| && j != i :: e.topics[i := t][j] == e.topics[j];
    assert e.topics[i := t][i] == t;
  }

  /**
   What is not known of an event never lets an entry apply: without a hash no entry by hash
   does, without interfaces none by interface, and without a network none that names networks.
   The case of the hash's letters does not matter.
   */
  lemma UnknownNeverApplies(s: Scope, e: Event)
    requires ValidScope(s) && ScopeApplies(s, e)
    ensures s.WasmHash? ==> e.wasmHash.Some? && ScopeApplies(s, e.(wasmHash := Some(ToLowerCase(e.wasmHash.value))))
    ensures s.Interface? ==> s.name in e.interfaces
    ensures s.Contract? ==> e.contractId in s.contractIds
    ensures s.networks.Some? ==> e.network.Some? && e.network.value in s.networks.value
  {
    if s.WasmHash? {
      LowerCaseTwice(e.wasmHash.value);
    }
  }
}
