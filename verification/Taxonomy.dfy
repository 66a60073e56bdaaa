/** Taxonomy entries, their validation, and the static conflict check over a set of them. */
module Taxonomy {
  import opened Results

  datatype Matcher = SymbolIs(symbol: string) | Any(ty: Option<string>)

  datatype Match = Match(topics: seq<Matcher>, trailing: Option<string>, dataShape: Option<string>)

  datatype Scope =
    | Contract(contractIds: seq<string>, networks: Option<seq<string>>)
    | WasmHash(wasmHashes: seq<string>, networks: Option<seq<string>>)
    | Interface(name: string, networks: Option<seq<string>>)

  datatype Entry = Entry(
    id: string,
    version: string,
    name: string,
    match_: Match,
    scope: Scope,
    supersedes: seq<string>,
    deprecated: bool)

  const PRIMITIVE_TYPES: set<string> :=
    {"bool", "u32", "i32", "u64", "i64", "u128", "i128", "u256", "i256",
     "bytes", "string", "symbol", "address", "void", "error", "val"}

  const DATA_SHAPES: set<string> := {"void", "scalar", "map", "vec"}

  const NAMESPACE_ROOTS: set<string> :=
    {"account", "asset", "bridge", "claimable", "contract", "data", "governance", "loan", "lp", "nft", "offer",
     "oracle", "payment", "stake", "swap", "trustline", "vault"}

  const NETWORKS: set<string> := {"mainnet", "testnet", "futurenet"}

  // ---------------------------------------------------------------- validation

  predicate Lower(c: char) {
    'a' <= c <= 'z'
  }

  predicate Upper(c: char) {
    'A' <= c <= 'Z'
  }

  predicate DecimalDigit(c: char) {
    '0' <= c <= '9'
  }

  predicate Digits(s: string) {
    s != "" && forall i | 0 <= i < |s| :: DecimalDigit(s[i])
  }

  /** A lowercase kebab-case slug. */
  predicate ValidId(s: string) {
    && s != "" && (Lower(s[0]) || DecimalDigit(s[0]))
    && forall i | 0 <= i < |s| :: Lower(s[i]) || DecimalDigit(s[i]) || s[i] == '-'
  }

  /** Three numbers separated by dots. */
  predicate ValidVersion(s: string) {
    exists i, j | 0 <= i < j < |s| :: s[i] == '.' && s[j] == '.' && Digits(s[..i]) && Digits(s[i + 1..j]) && Digits(s[j + 1..])
  }

  /** One lowercase snake-case segment of a name. */
  predicate Segment(s: string) {
    s != "" && Lower(s[0]) && forall i | 0 <= i < |s| :: Lower(s[i]) || DecimalDigit(s[i]) || s[i] == '_'
  }

  predicate OneOrTwoSegments(s: string) {
    Segment(s) || exists j | 0 <= j < |s| :: s[j] == '.' && Segment(s[..j]) && Segment(s[j + 1..])
  }

  predicate ValidName(s: string) {
    exists i | 0 <= i < |s| :: s[i] == '.' && s[..i] in NAMESPACE_ROOTS && OneOrTwoSegments(s[i + 1..])
  }

  predicate ValidSymbol(s: string) {
    && s != "" && !DecimalDigit(s[0])
    && forall i | 0 <= i < |s| :: Lower(s[i]) || Upper(s[i]) || DecimalDigit(s[i]) || s[i] == '_'
  }

  predicate ValidContractId(s: string) {
    |s| == 56 && s[0] == 'C' && forall i | 1 <= i < 56 :: Upper(s[i]) || '2' <= s[i] <= '7'
  }

  predicate ValidInterface(s: string) {
    5 <= |s| <= 8 && s[..4] == "SEP-" && Digits(s[4..])
  }

  predicate ValidMatcher(m: Matcher) {
    match m
    case SymbolIs(s) => ValidSymbol(s)
    case Any(ty) => ty.Some? ==> ty.value in PRIMITIVE_TYPES
  }

  predicate ValidMatch(m: Match) {
    && m.topics != []
    && (forall i | 0 <= i < |m.topics| :: ValidMatcher(m.topics[i]))
    && (m.trailing.Some? ==> m.trailing.value in {"forbidden", "allowed"})
    && (m.dataShape.Some? ==> m.dataShape.value in DATA_SHAPES)
  }

  predicate LowerHex(h: string) {
    |h| == 64 && forall i | 0 <= i < |h| :: '0' <= h[i] <= '9' || 'a' <= h[i] <= 'f'
  }

  predicate ValidScope(s: Scope) {
    && (s.networks.Some? ==> s.networks.value != [] && forall n | n in s.networks.value :: n in NETWORKS)
    && match s
       case Contract(ids, _) => ids != [] && forall id | id in ids :: ValidContractId(id)
       case WasmHash(hashes, _) => hashes != [] && forall h | h in hashes :: LowerHex(h)
       case Interface(name, _) => ValidInterface(name)
  }

  predicate ValidEntry(e: Entry) {
    && ValidId(e.id) && ValidVersion(e.version) && ValidName(e.name)
    && ValidMatch(e.match_) && ValidScope(e.scope)
    && forall id | id in e.supersedes :: ValidId(id)
  }

  // ---------------------------------------------------------------- conflicts

  /** The object whose JSON text is the normalized key; equal texts are equal keys. */
  datatype MatchKey = MatchKey(topics: seq<string>, trailing: string, dataShape: string)

  function MatcherText(m: Matcher): string {
    match m
    case SymbolIs(s) => "symbol:" + s
    case Any(None) => "any:*"
    case Any(Some(t)) => "any:" + t
  }

  function Trailing(m: Match): string {
    match m.trailing
    case Some(t) => t
    case None => "forbidden"
  }

  function NormalizedMatchKey(m: Match): MatchKey {
    MatchKey(
      seq(|m.topics|, i requires 0 <= i < |m.topics| => MatcherText(m.topics[i])),
      Trailing(m),
      if m.dataShape.Some? then m.dataShape.value else "*")
  }

  predicate Overlap(a: seq<string>, b: seq<string>) {
    exists x | x in a :: x in b
  }

  predicate NetworksOverlap(a: Scope, b: Scope) {
    a.networks.Some? && b.networks.Some? ==> Overlap(a.networks.value, b.networks.value)
  }

  predicate ScopesOverlap(a: Scope, b: Scope) {
    NetworksOverlap(a, b) &&
    match (a, b)
    case (Contract(ids, _), Contract(ids', _)) => Overlap(ids, ids')
    case (WasmHash(hs, _), WasmHash(hs', _)) => Overlap(hs, hs')
    case (Interface(n, _), Interface(n', _)) => n == n'
    case _ => false
  }

  datatype ConflictKind = DuplicateId | AmbiguousMapping | DuplicateMapping

  datatype Conflict = Conflict(kind: ConflictKind, first: string, second: string)

  function ConflictOf(a: Entry, b: Entry): Option<ConflictKind> {
    if a.id == b.id then Some(DuplicateId)
    else if b.id in a.supersedes || a.id in b.supersedes then None
    else if NormalizedMatchKey(a.match_) != NormalizedMatchKey(b.match_) then None
    else if !ScopesOverlap(a.scope, b.scope) then None
    else if a.name == b.name then Some(DuplicateMapping)
    else Some(AmbiguousMapping)
  }

  /** The pair at positions i < j collides, and how. */
  ghost predicate Collide(entries: seq<Entry>, i: nat, j: nat, c: Conflict) {
    && i < j < |entries|
    && ConflictOf(entries[i], entries[j]) == Some(c.kind)
    && c.first == entries[i].id && c.second == entries[j].id
  }

  /** The pairs of positions are met in this order. */
  predicate MetBefore(p: (nat, nat), q: (nat, nat)) {
    p.0 < q.0 || (p.0 == q.0 && p.1 < q.1)
  }

  ghost predicate InOrder(at: seq<(nat, nat)>) {
    forall k, l | 0 <= k < l < |at| :: MetBefore(at[k], at[l])
  }

  /** `at` holds the positions of the conflicts, in the order they are met, and every colliding pair before `next`. */
  ghost predicate FoundBefore(entries: seq<Entry>, conflicts: seq<Conflict>, at: seq<(nat, nat)>, next: (nat, nat)) {
    && |at| == |conflicts| && InOrder(at)
    && (forall k | 0 <= k < |at| :: MetBefore(at[k], next) && Collide(entries, at[k].0, at[k].1, conflicts[k]))
    && forall i: nat, j: nat | i < j < |entries| && MetBefore((i, j), next) && ConflictOf(entries[i], entries[j]).Some? ::
         (i, j) in at
  }

  /** Between the rows of the nested loops there is no pair to meet. */
  lemma NextRow(entries: seq<Entry>, conflicts: seq<Conflict>, at: seq<(nat, nat)>, i: nat)
    requires i < |entries|
    ensures FoundBefore(entries, conflicts, at, (i, 0)) ==> FoundBefore(entries, conflicts, at, (i, i + 1))
    ensures FoundBefore(entries, conflicts, at, (i, |entries|)) ==> FoundBefore(entries, conflicts, at, (i + 1, 0))
  {
  }

  lemma NothingAt(entries: seq<Entry>, conflicts: seq<Conflict>, at: seq<(nat, nat)>, i: nat, j: nat)
    requires FoundBefore(entries, conflicts, at, (i, j)) && i < j < |entries|
    requires ConflictOf(entries[i], entries[j]) == None
    ensures FoundBefore(entries, conflicts, at, (i, j + 1))
  {
  }

  lemma FoundAt(entries: seq<Entry>, conflicts: seq<Conflict>, at: seq<(nat, nat)>, i: nat, j: nat, c: Conflict)
    requires FoundBefore(entries, conflicts, at, (i, j)) && Collide(entries, i, j, c)
    ensures FoundBefore(entries, conflicts + [c], at + [(i, j)], (i, j + 1))
  {
    var more := at + [(i, j)];
    forall x: nat, y: nat | x < y < |entries| && MetBefore((x, y), (i, j + 1)) && ConflictOf(entries[x], entries[y]).Some?
      ensures (x, y) in more
    {
      if (x, y) == (i, j) {
        assert more[|at|] == (i, j);
      } else {
        assert (x, y) in at;
      }
    }
  }

  /** The nested loops: each colliding pair is reported once, in discovery order. */
  method FindTaxonomyConflicts(entries: seq<Entry>) returns (conflicts: seq<Conflict>, ghost at: seq<(nat, nat)>)
    ensures FoundBefore(entries, conflicts, at, (|entries|, 0))
    ensures forall c :: c in conflicts <==> exists i: nat, j: nat :: Collide(entries, i, j, c)
  {
    conflicts, at := [], [];
    for i := 0 to |entries|
      invariant FoundBefore(entries, conflicts, at, (i, 0))
    {
      conflicts, at := FindInRow(entries, i, conflicts, at);
    }
    AllFound(entries, conflicts, at);
  }

  /** The inner loop: an entry against those after it. */
  method FindInRow(entries: seq<Entry>, i: nat, found: seq<Conflict>, ghost foundAt: seq<(nat, nat)>)
    returns (conflicts: seq<Conflict>, ghost at: seq<(nat, nat)>)
    requires i < |entries| && FoundBefore(entries, found, foundAt, (i, 0))
    ensures FoundBefore(entries, conflicts, at, (i + 1, 0))
  {
    conflicts, at := found, foundAt;
    NextRow(entries, conflicts, at, i);
    for j := i + 1 to |entries|
      invariant FoundBefore(entries, conflicts, at, (i, j))
    {
      var kind := ConflictOf(entries[i], entries[j]);
      if kind.Some? {
        var conflict := Conflict(kind.value, entries[i].id, entries[j].id);
        FoundAt(entries, conflicts, at, i, j, conflict);
        conflicts := conflicts + [conflict];
        at := at + [(i, j)];
      } else {
        NothingAt(entries, conflicts, at, i, j);
      }
    }
    NextRow(entries, conflicts, at, i);
  }

  lemma AllFound(entries: seq<Entry>, conflicts: seq<Conflict>, at: seq<(nat, nat)>)
    requires FoundBefore(entries, conflicts, at, (|entries|, 0))
    ensures forall c :: c in conflicts <==> exists i: nat, j: nat :: Collide(entries, i, j, c)
  {
    forall c | c in conflicts ensures exists i: nat, j: nat :: Collide(entries, i, j, c) {
      var k :| 0 <= k < |conflicts| && conflicts[k] == c;
      assert Collide(entries, at[k].0, at[k].1, c);
    }
    forall c, i: nat, j: nat | Collide(entries, i, j, c) ensures c in conflicts {
      assert (i, j) in at;
      var k :| 0 <= k < |at| && at[k] == (i, j);
      assert conflicts[k] == c;
    }
  }

  /** The entry set loads: every entry valid, no two in a conflict that blocks loading. */
  ghost predicate Accepted(entries: seq<Entry>) {
    && (forall e | e in entries :: ValidEntry(e))
    && forall i, j | 0 <= i < j < |entries| :: Compatible(entries[i], entries[j])
  }

  /** No conflict, or only the harmless kind: two entries that agree. */
  predicate Compatible(a: Entry, b: Entry) {
    ConflictOf(a, b) == None || ConflictOf(a, b) == Some(DuplicateMapping)
  }

  datatype Problem = Invalid(index: nat) | Blocked(conflict: Conflict)

  datatype Resolver = Resolver(entries: seq<Entry>, superseded: set<string>)

  function SupersededIds(entries: seq<Entry>): set<string> {
    set e, id | e in entries && id in e.supersedes :: id
  }

  /** The constructor of the resolver: it succeeds on exactly the accepted sets. */
  method Load(entries: seq<Entry>) returns (r: Result<Resolver, seq<Problem>>)
    ensures r.Ok? <==> Accepted(entries)
    ensures r.Ok? ==> r.value == Resolver(entries, SupersededIds(entries))
    ensures r.Err? ==> r.error != []
  {
    var problems: seq<Problem> := [];
    for i := 0 to |entries|
      invariant problems == [] <==> forall k | 0 <= k < i :: ValidEntry(entries[k])
    {
      if !ValidEntry(entries[i]) {
        problems := problems + [Invalid(i)];
      }
    }
    var conflicts, _ := FindTaxonomyConflicts(entries);
    var invalid := problems;
    for i := 0 to |conflicts|
      invariant problems == [] <==> invalid == [] && forall k | 0 <= k < i :: conflicts[k].kind == DuplicateMapping
    {
      if conflicts[i].kind != DuplicateMapping {
        problems := problems + [Blocked(conflicts[i])];
      }
    }
    BlockingConflicts(entries, conflicts);
    if problems != [] {
      return Err(problems);
    }
    return Ok(Resolver(entries, SupersededIds(entries)));
  }

  lemma BlockingConflicts(entries: seq<Entry>, conflicts: seq<Conflict>)
    requires forall c :: c in conflicts <==> exists i: nat, j: nat :: Collide(entries, i, j, c)
    ensures (forall k | 0 <= k < |conflicts| :: conflicts[k].kind == DuplicateMapping)
       <==> forall i, j | 0 <= i < j < |entries| :: Compatible(entries[i], entries[j])
  {
    if forall k | 0 <= k < |conflicts| :: conflicts[k].kind == DuplicateMapping {
      forall i, j | 0 <= i < j < |entries| ensures Compatible(entries[i], entries[j]) {
        var kind := ConflictOf(entries[i], entries[j]);
        if kind.Some? {
          var c := Conflict(kind.value, entries[i].id, entries[j].id);
          assert Collide(entries, i, j, c);
          assert c in conflicts;
        }
      }
    } else {
      var k :| 0 <= k < |conflicts| && conflicts[k].kind != DuplicateMapping;
      assert conflicts[k] in conflicts;
      var i: nat, j: nat :| Collide(entries, i, j, conflicts[k]);
      assert !Compatible(entries[i], entries[j]);
    }
  }
}
