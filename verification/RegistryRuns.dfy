/** Runs of the registry: what every action keeps, and that history is append-only. */
module RegistryRuns {
  import opened Results
  import opened RegistryContract

  /** One event in the life of the registry. `Close` lets ledgers and time pass. */
  datatype Action =
    | PublishBy(pair: Pair, version: Version, specHash: string, pointer: string)
    | TouchBy(pair: Pair, versions: seq<Version>)
    | Close(ledgers: nat, seconds: nat)

  function Step(s: State, a: Action): State {
    match a
    case PublishBy(p, v, h, ptr) => Publish(s, p, v, h, ptr).0
    case TouchBy(p, vs) => Touch(s, p, vs).0
    case Close(n, t) => s.(ledger := s.ledger + n, time := s.time + t)
  }

  function Run(s: State, actions: seq<Action>): State
    decreases |actions|
  {
    if actions == [] then s else Run(Step(s, actions[0]), actions[1..])
  }

  ghost predicate Distinct(vs: seq<Version>) {
    forall i, j | 0 <= i < j < |vs| :: vs[i] != vs[j]
  }

  /** The records of one pair: a duplicate-free list, one record each, in ledger order. */
  ghost predicate PairInv(s: State, p: Pair) {
    var vs := VersionsOf(s, p);
    && Distinct(vs)
    && (forall v :: v in vs <==> (p, v) in s.specs)
    && (p in s.latest <==> vs != [])
    && (p in s.latest ==> s.latest[p] == vs[|vs| - 1])
    && (forall v | v in vs :: s.specs[(p, v)].version == v && s.specs[(p, v)].publishedAtLedger <= s.ledger)
    && (forall i, j | 0 <= i <= j < |vs| ::
          s.specs[(p, vs[i])].publishedAtLedger <= s.specs[(p, vs[j])].publishedAtLedger)
  }

  /** The entries with a lifetime are exactly the ones stored. */
  ghost predicate StorageInv(s: State) {
    && (forall p, v :: SpecKey(p, v) in s.liveUntil <==> (p, v) in s.specs)
    && (forall p :: VersionsKey(p) in s.liveUntil <==> p in s.versions)
    && (forall p :: LatestKey(p) in s.liveUntil <==> p in s.latest)
    && (forall p :: p in s.versions <==> p in s.latest)
    && (forall k | k in s.liveUntil :: s.liveUntil[k] <= s.ledger + MAX_ENTRY_TTL)
  }

  ghost predicate Inv(s: State) {
    StorageInv(s) && (forall p :: PairInv(s, p)) && s.minTtl <= MAX_ENTRY_TTL
  }

  function Empty(minTtl: nat): State {
    State(map[], map[], map[], map[], 0, 0, minTtl)
  }

  lemma InitialInv(minTtl: nat)
    requires minTtl <= MAX_ENTRY_TTL
    ensures Inv(Empty(minTtl))
  {
  }

  // ---------------------------------------------------------------- preservation

  lemma WrittenEffect(live: map<Key, int>, k: Key, ledger: nat, minTtl: nat)
    requires minTtl <= MAX_ENTRY_TTL && (k in live ==> live[k] <= ledger + MAX_ENTRY_TTL)
    ensures var after := Written(live, k, ledger, minTtl);
            && after.Keys == live.Keys + {k}
            && (forall x | x in live && x != k :: after[x] == live[x])
            && Refreshed(after[k], ledger)
            && (k in live ==> after[k] >= live[k])
  {
  }

  lemma TwoWritten(live: map<Key, int>, a: Key, b: Key, ledger: nat, minTtl: nat)
    requires minTtl <= MAX_ENTRY_TTL && a != b
    requires forall k | k in live :: live[k] <= ledger + MAX_ENTRY_TTL
    ensures var after := Written(Written(live, a, ledger, minTtl), b, ledger, minTtl);
            && after.Keys == live.Keys + {a, b}
            && Refreshed(after[a], ledger) && Refreshed(after[b], ledger)
            && (forall k | k in live && k != a && k != b :: after[k] == live[k])
  {
    WrittenEffect(live, a, ledger, minTtl);
    WrittenEffect(Written(live, a, ledger, minTtl), b, ledger, minTtl);
  }

  /** Writing three entries in turn refreshes those three and leaves every other lifetime alone. */
  lemma ThreeWritten(live: map<Key, int>, a: Key, b: Key, c: Key, ledger: nat, minTtl: nat)
    requires minTtl <= MAX_ENTRY_TTL && a != b && a != c && b != c
    requires forall k | k in live :: live[k] <= ledger + MAX_ENTRY_TTL
    ensures var after := Written(Written(Written(live, a, ledger, minTtl), b, ledger, minTtl), c, ledger, minTtl);
            && after.Keys == live.Keys + {a, b, c}
            && (forall k | k in {a, b, c} :: Refreshed(after[k], ledger))
            && (forall k | k in live && k !in {a, b, c} :: after[k] == live[k])
  {
    TwoWritten(live, a, b, ledger, minTtl);
    WrittenEffect(Written(Written(live, a, ledger, minTtl), b, ledger, minTtl), c, ledger, minTtl);
  }

  lemma PublishRefreshes(s: State, p: Pair, v: Version, h: string, ptr: string)
    requires StorageInv(s) && s.minTtl <= MAX_ENTRY_TTL && Publish(s, p, v, h, ptr).1.Ok?
    ensures var t := Publish(s, p, v, h, ptr).0;
            var written := {SpecKey(p, v), VersionsKey(p), LatestKey(p)};
            && t.liveUntil.Keys == s.liveUntil.Keys + written
            && (forall k | k in written :: Refreshed(t.liveUntil[k], s.ledger))
            && (forall k | k in s.liveUntil && k !in written :: t.liveUntil[k] == s.liveUntil[k])
  {
    ThreeWritten(s.liveUntil, SpecKey(p, v), VersionsKey(p), LatestKey(p), s.ledger, s.minTtl);
  }

  lemma PublishKeepsStorage(s: State, p: Pair, v: Version, h: string, ptr: string)
    requires StorageInv(s) && s.minTtl <= MAX_ENTRY_TTL
    ensures StorageInv(Publish(s, p, v, h, ptr).0)
  {
    if Publish(s, p, v, h, ptr).1.Ok? {
      PublishRefreshes(s, p, v, h, ptr);
    }
  }

  lemma AppendKeepsPair(s: State, t: State, p: Pair, v: Version)
    requires PairInv(s, p) && v !in VersionsOf(s, p) && t.ledger >= s.ledger
    requires VersionsOf(t, p) == VersionsOf(s, p) + [v] && p in t.latest && t.latest[p] == v
    requires (p, v) in t.specs && t.specs[(p, v)].version == v && t.specs[(p, v)].publishedAtLedger == s.ledger
    requires forall w | w != v :: ((p, w) in t.specs <==> (p, w) in s.specs)
                                  && ((p, w) in s.specs ==> t.specs[(p, w)] == s.specs[(p, w)])
    ensures PairInv(t, p)
  {
    var before := VersionsOf(s, p);
    forall w ensures w in before + [v] <==> w in before || w == v {}
  }

  lemma PairUnaffected(s: State, t: State, q: Pair)
    requires PairInv(s, q) && t.ledger >= s.ledger && VersionsOf(t, q) == VersionsOf(s, q)
    requires (q in t.latest <==> q in s.latest) && (q in s.latest ==> t.latest[q] == s.latest[q])
    requires forall v :: ((q, v) in t.specs <==> (q, v) in s.specs)
                         && ((q, v) in s.specs ==> t.specs[(q, v)] == s.specs[(q, v)])
    ensures PairInv(t, q)
  {
  }

  lemma PublishKeepsPair(s: State, p: Pair, v: Version, h: string, ptr: string, q: Pair)
    requires PairInv(s, q)
    ensures PairInv(Publish(s, p, v, h, ptr).0, q)
  {
    if Publish(s, p, v, h, ptr).1.Ok? {
      if p == q {
        AppendKeepsPair(s, Publish(s, p, v, h, ptr).0, p, v);
      } else {
        PairUnaffected(s, Publish(s, p, v, h, ptr).0, q);
      }
    }
  }

  lemma TouchKeepsStorage(s: State, p: Pair, vs: seq<Version>)
    requires StorageInv(s)
    ensures StorageInv(Touch(s, p, vs).0)
  {
    var t := Touch(s, p, vs).0;
    SameKeys(s.liveUntil, TouchedKeys(p, vs), s.ledger);
    forall k | k in s.liveUntil ensures t.liveUntil[k] <= t.ledger + MAX_ENTRY_TTL {
      ExtendAllEffect(s.liveUntil, TouchedKeys(p, vs), s.ledger, k);
    }
  }

  lemma StepKeepsInv(s: State, a: Action)
    requires Inv(s)
    ensures Inv(Step(s, a))
  {
    match a
    case PublishBy(p, v, h, ptr) =>
      PublishKeepsStorage(s, p, v, h, ptr);
      forall q ensures PairInv(Step(s, a), q) {
        assert PairInv(s, q);
        PublishKeepsPair(s, p, v, h, ptr, q);
      }
    case TouchBy(p, vs) =>
      TouchKeepsStorage(s, p, vs);
      forall q ensures PairInv(Step(s, a), q) {
        assert PairInv(s, q);
        PairUnaffected(s, Step(s, a), q);
      }
    case Close(_, _) =>
      forall q ensures PairInv(Step(s, a), q) {
        assert PairInv(s, q);
        PairUnaffected(s, Step(s, a), q);
      }
  }

  lemma {:induction false} RunKeepsInv(s: State, actions: seq<Action>)
    requires Inv(s)
    ensures Inv(Run(s, actions))
    decreases |actions|
  {
    if actions != [] {
      StepKeepsInv(s, actions[0]);
      RunKeepsInv(Step(s, actions[0]), actions[1..]);
    }
  }

  // ---------------------------------------------------------------- history

  /** `t` is a later state: lists only grow at the end, records never change, new records are not older. */
  ghost predicate Later(s: State, t: State) {
    && s.ledger <= t.ledger
    && (forall p :: VersionsOf(s, p) <= VersionsOf(t, p))
    && (forall k | k in s.specs :: k in t.specs && t.specs[k] == s.specs[k])
    && (forall k | k in t.specs && k !in s.specs :: t.specs[k].publishedAtLedger >= s.ledger)
  }

  lemma StepIsLater(s: State, a: Action)
    requires Inv(s)
    ensures Later(s, Step(s, a))
  {
  }

  lemma LaterTransitive(s: State, t: State, u: State)
    requires Later(s, t) && Later(t, u)
    ensures Later(s, u)
  {
    forall p ensures VersionsOf(s, p) <= VersionsOf(u, p) {
      assert VersionsOf(s, p) <= VersionsOf(t, p) <= VersionsOf(u, p);
    }
  }

  lemma {:induction false} RunIsLater(s: State, actions: seq<Action>)
    requires Inv(s)
    ensures Later(s, Run(s, actions))
    decreases |actions|
  {
    if actions != [] {
      StepIsLater(s, actions[0]);
      StepKeepsInv(s, actions[0]);
      RunIsLater(Step(s, actions[0]), actions[1..]);
      LaterTransitive(s, Step(s, actions[0]), Run(s, actions));
    }
  }

  lemma LastOfPair(s: State, p: Pair)
    requires PairInv(s, p)
    ensures var vs := VersionsOf(s, p);
            Latest(s, p) == if vs == [] then None else GetVersion(s, p, vs[|vs| - 1])
  {
  }

  /** In every reachable state `latest` answers with the record of the last version listed. */
  lemma LatestIsLast(s: State, p: Pair)
    requires Inv(s)
    ensures var vs := VersionsOf(s, p);
            Latest(s, p) == if vs == [] then None else GetVersion(s, p, vs[|vs| - 1])
  {
    assert PairInv(s, p);
  }

  /** A published triple is rejected on every later attempt, and its record never changes. */
  lemma PublishedOnce(s: State, p: Pair, v: Version, h: string, ptr: string, actions: seq<Action>, h': string, ptr': string)
    requires Inv(s) && Publish(s, p, v, h, ptr).1.Ok?
    ensures var t := Run(Publish(s, p, v, h, ptr).0, actions);
            && GetVersion(t, p, v) == Some(Record(v, h, ptr, p.publisher, s.time, s.ledger))
            && Publish(t, p, v, h', ptr').1.Err?
  {
    var s1 := Publish(s, p, v, h, ptr).0;
    StepKeepsInv(s, PublishBy(p, v, h, ptr));
    RunIsLater(s1, actions);
    assert (p, v) in s1.specs;
  }
}
