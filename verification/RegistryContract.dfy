/**
 The on-chain ABI registry: an append-only list of versions for each (contract, publisher)
 pair, immutable records, and the time-to-live of every persistent storage entry.
 */
module RegistryContract {
  import opened Results

  type Address = string
  type Version = string

  const DAY_IN_LEDGERS: nat := 17_280
  const MAX_ENTRY_TTL: nat := 3_110_400
  const BUMP_AMOUNT: nat := MAX_ENTRY_TTL
  const LIFETIME_THRESHOLD: nat := BUMP_AMOUNT - 30 * DAY_IN_LEDGERS
  const MAX_PAGE_SIZE: nat := 25

  datatype Pair = Pair(contractId: Address, publisher: Address)

  datatype Record = Record(
    version: Version,
    specHash: string,
    pointer: string,
    publisher: Address,
    publishedAt: nat,
    publishedAtLedger: nat)

  /** `Archived` is the host refusing an invocation that reaches an expired entry. */
  datatype Error = AlreadyPublished | EmptyVersion | EmptyPointer | TooManyVersions | NothingToTouch | Archived

  datatype Key = SpecKey(pair: Pair, version: Version) | VersionsKey(pair: Pair) | LatestKey(pair: Pair)

  /** `liveUntil` holds the last ledger at which each stored entry is live. */
  datatype State = State(
    specs: map<(Pair, Version), Record>,
    versions: map<Pair, seq<Version>>,
    latest: map<Pair, Version>,
    liveUntil: map<Key, int>,
    ledger: nat,
    time: nat,
    minTtl: nat)

  // ---------------------------------------------------------------- storage entries and their lifetime

  predicate IsArchived(s: State, k: Key) {
    k in s.liveUntil && s.liveUntil[k] < s.ledger
  }

  /** The host's extend_ttl(threshold, to): only an entry with little life left is extended. */
  function Extended(until: int, ledger: nat): int {
    if until - ledger <= LIFETIME_THRESHOLD then ledger + BUMP_AMOUNT else until
  }

  function ExtendTtl(live: map<Key, int>, k: Key, ledger: nat): map<Key, int> {
    if k in live then live[k := Extended(live[k], ledger)] else live
  }

  /** Writing an entry creates it with the network's minimum lifetime; the contract then extends it. */
  function Written(live: map<Key, int>, k: Key, ledger: nat, minTtl: nat): map<Key, int> {
    ExtendTtl(if k in live then live else live[k := ledger + minTtl - 1], k, ledger)
  }

  function ExtendAll(live: map<Key, int>, ks: seq<Key>, ledger: nat): map<Key, int> {
    if ks == [] then live else ExtendTtl(ExtendAll(live, ks[..|ks| - 1], ledger), ks[|ks| - 1], ledger)
  }

  function CountPresent(live: map<Key, int>, ks: seq<Key>): nat {
    if ks == [] then 0
    else CountPresent(live, ks[..|ks| - 1]) + if ks[|ks| - 1] in live then 1 else 0
  }

  function SpecKeys(p: Pair, vs: seq<Version>): (ks: seq<Key>)
    ensures |ks| == |vs| && forall i | 0 <= i < |vs| :: ks[i] == SpecKey(p, vs[i])
  {
    seq(|vs|, i requires 0 <= i < |vs| => SpecKey(p, vs[i]))
  }

  function TouchedKeys(p: Pair, vs: seq<Version>): seq<Key> {
    [LatestKey(p), VersionsKey(p)] + SpecKeys(p, vs)
  }

  // ---------------------------------------------------------------- entry points

  function VersionsOf(s: State, p: Pair): seq<Version> {
    if p in s.versions then s.versions[p] else []
  }

  function Publish(s: State, p: Pair, v: Version, specHash: string, pointer: string): (State, Result<(), Error>) {
    if IsArchived(s, SpecKey(p, v)) || IsArchived(s, VersionsKey(p)) || IsArchived(s, LatestKey(p)) then (s, Err(Archived))
    else if v == "" then (s, Err(EmptyVersion))
    else if pointer == "" then (s, Err(EmptyPointer))
    else if (p, v) in s.specs then (s, Err(AlreadyPublished))
    else
      var live1 := Written(s.liveUntil, SpecKey(p, v), s.ledger, s.minTtl);
      var live2 := Written(live1, VersionsKey(p), s.ledger, s.minTtl);
      var live3 := Written(live2, LatestKey(p), s.ledger, s.minTtl);
      (s.(specs := s.specs[(p, v) := Record(v, specHash, pointer, p.publisher, s.time, s.ledger)],
          versions := s.versions[p := VersionsOf(s, p) + [v]],
          latest := s.latest[p := v],
          liveUntil := live3),
       Ok(()))
  }

  function GetVersion(s: State, p: Pair, v: Version): Option<Record> {
    if (p, v) in s.specs then Some(s.specs[(p, v)]) else None
  }

  function Latest(s: State, p: Pair): Option<Record> {
    if p in s.latest then GetVersion(s, p, s.latest[p]) else None
  }

  /** One page of a version list and the start of the next page, if there is more. */
  function ListPage(all: seq<Version>, start: nat, limit: nat): (seq<Version>, Option<nat>) {
    if start >= |all| then ([], None)
    else
      var effective := if limit < MAX_PAGE_SIZE then limit else MAX_PAGE_SIZE;
      var end := if start + effective < |all| then start + effective else |all|;
      (all[start..end], if end < |all| then Some(end) else None)
  }

  function Touch(s: State, p: Pair, vs: seq<Version>): (State, Result<nat, Error>) {
    var keys := TouchedKeys(p, vs);
    if exists k | k in keys :: IsArchived(s, k) then (s, Err(Archived))
    else if |vs| > MAX_PAGE_SIZE then (s, Err(TooManyVersions))
    else if CountPresent(s.liveUntil, keys) == 0 then (s, Err(NothingToTouch))
    else (s.(liveUntil := ExtendAll(s.liveUntil, keys, s.ledger)), Ok(CountPresent(s.liveUntil, keys)))
  }

  // ---------------------------------------------------------------- the contract as the source writes it

  class Registry {
    var specs: map<(Pair, Version), Record>
    var versions: map<Pair, seq<Version>>
    var latest: map<Pair, Version>
    var liveUntil: map<Key, int>
    var ledger: nat
    var time: nat
    const minTtl: nat

    constructor (minTtl: nat)
      ensures S() == State(map[], map[], map[], map[], 0, 0, minTtl)
    {
      this.minTtl := minTtl;
      specs, versions, latest, liveUntil := map[], map[], map[], map[];
      ledger, time := 0, 0;
    }

    ghost function S(): State
      reads this
    {
      State(specs, versions, latest, liveUntil, ledger, time, minTtl)
    }

    predicate ArchivedNow(k: Key)
      reads this
    {
      k in liveUntil && liveUntil[k] < ledger
    }

    method Has(k: Key) returns (present: bool)
      ensures present == (k in liveUntil)
    {
      present := k in liveUntil;
    }

    method Extend(k: Key)
      modifies this`liveUntil
      ensures liveUntil == ExtendTtl(old(liveUntil), k, ledger)
    {
      if k in liveUntil && liveUntil[k] - ledger <= LIFETIME_THRESHOLD {
        liveUntil := liveUntil[k := ledger + BUMP_AMOUNT];
      }
    }

    method Create(k: Key)
      modifies this`liveUntil
      ensures liveUntil == if k in old(liveUntil) then old(liveUntil) else old(liveUntil)[k := ledger + minTtl - 1]
    {
      if k !in liveUntil {
        liveUntil := liveUntil[k := ledger + minTtl - 1];
      }
    }

    method PublishSpec(p: Pair, v: Version, specHash: string, pointer: string) returns (r: Result<(), Error>)
      modifies this
      ensures (S(), r) == Publish(old(S()), p, v, specHash, pointer)
    {
      if ArchivedNow(SpecKey(p, v)) || ArchivedNow(VersionsKey(p)) || ArchivedNow(LatestKey(p)) {
        return Err(Archived);
      }
      if v == "" {
        return Err(EmptyVersion);
      }
      if pointer == "" {
        return Err(EmptyPointer);
      }
      if (p, v) in specs {
        return Err(AlreadyPublished);
      }
      specs := specs[(p, v) := Record(v, specHash, pointer, p.publisher, time, ledger)];
      Create(SpecKey(p, v));
      Extend(SpecKey(p, v));

      var list := if p in versions then versions[p] else [];
      versions := versions[p := list + [v]];
      Create(VersionsKey(p));
      Extend(VersionsKey(p));

      latest := latest[p := v];
      Create(LatestKey(p));
      Extend(LatestKey(p));
      return Ok(());
    }

    method AnyArchived(ks: seq<Key>) returns (archived: bool)
      ensures archived == exists k | k in ks :: IsArchived(S(), k)
    {
      archived := exists k | k in ks :: ArchivedNow(k);
      assert forall k :: ArchivedNow(k) == IsArchived(S(), k);
    }

    /** Extends the entry if it is stored, and counts it. */
    method TouchKey(k: Key) returns (extended: nat)
      modifies this`liveUntil
      ensures liveUntil == ExtendTtl(old(liveUntil), k, ledger)
      ensures extended == if k in old(liveUntil) then 1 else 0
    {
      var present := Has(k);
      if present {
        Extend(k);
        return 1;
      }
      return 0;
    }

    /** The loop over the requested versions, after both index entries. */
    method TouchSpecs(p: Pair, vs: seq<Version>, before: nat, ghost live: map<Key, int>) returns (extended: nat)
      requires liveUntil == ExtendAll(live, TouchedKeys(p, vs)[..2], ledger)
      requires before == CountPresent(live, TouchedKeys(p, vs)[..2])
      modifies this`liveUntil
      ensures liveUntil == ExtendAll(live, TouchedKeys(p, vs), ledger)
      ensures extended == CountPresent(live, TouchedKeys(p, vs))
    {
      ghost var keys := TouchedKeys(p, vs);
      extended := before;
      for i := 0 to |vs|
        invariant liveUntil == ExtendAll(live, keys[..2 + i], ledger)
        invariant extended == CountPresent(live, keys[..2 + i])
      {
        OneMoreKey(live, keys, 2 + i, ledger);
        var one := TouchKey(SpecKey(p, vs[i]));
        extended := extended + one;
      }
      assert keys[..2 + |vs|] == keys;
    }

    method TouchEntries(p: Pair, vs: seq<Version>) returns (r: Result<nat, Error>)
      modifies this`liveUntil
      ensures (S(), r) == Touch(old(S()), p, vs)
    {
      ghost var was := S();
      ghost var keys := TouchedKeys(p, vs);
      var archived := AnyArchived(TouchedKeys(p, vs));
      if archived {
        return Err(Archived);
      }
      if |vs| > MAX_PAGE_SIZE {
        return Err(TooManyVersions);
      }
      var extended := 0;
      OneMoreKey(was.liveUntil, keys, 0, ledger);
      var one := TouchKey(LatestKey(p));
      extended := extended + one;
      OneMoreKey(was.liveUntil, keys, 1, ledger);
      one := TouchKey(VersionsKey(p));
      extended := extended + one;
      extended := TouchSpecs(p, vs, extended, was.liveUntil);
      if extended == 0 {
        NothingPresent(was.liveUntil, keys, ledger);
        return Err(NothingToTouch);
      }
      return Ok(extended);
    }
  }

  /** Extending and counting one more key. */
  lemma OneMoreKey(live: map<Key, int>, ks: seq<Key>, i: nat, ledger: nat)
    requires i < |ks|
    ensures i == 0 ==> ExtendAll(live, ks[..i], ledger) == live && CountPresent(live, ks[..i]) == 0
    ensures ExtendAll(live, ks[..i + 1], ledger) == ExtendTtl(ExtendAll(live, ks[..i], ledger), ks[i], ledger)
    ensures CountPresent(live, ks[..i + 1]) == CountPresent(live, ks[..i]) + if ks[i] in live then 1 else 0
    ensures ks[i] in ExtendAll(live, ks[..i], ledger) <==> ks[i] in live
  {
    assert ks[..i + 1][..i] == ks[..i];
    SameKeys(live, ks[..i], ledger);
  }

  lemma {:induction false} SameKeys(live: map<Key, int>, ks: seq<Key>, ledger: nat)
    ensures ExtendAll(live, ks, ledger).Keys == live.Keys
  {
    if ks != [] {
      SameKeys(live, ks[..|ks| - 1], ledger);
    }
  }

  lemma {:induction false} NothingPresent(live: map<Key, int>, ks: seq<Key>, ledger: nat)
    requires CountPresent(live, ks) == 0
    ensures ExtendAll(live, ks, ledger) == live
  {
    if ks != [] {
      NothingPresent(live, ks[..|ks| - 1], ledger);
    }
  }

  // ---------------------------------------------------------------- what one touch achieves

  /** After extend_ttl an entry has more than the threshold and at most the maximum left. */
  predicate Refreshed(until: int, ledger: nat) {
    LIFETIME_THRESHOLD < until - ledger <= MAX_ENTRY_TTL
  }

  /** Extending is idempotent within a ledger, never shortens a life, and leaves it refreshed. */
  lemma {:induction false} ExtendAllEffect(live: map<Key, int>, ks: seq<Key>, ledger: nat, k: Key)
    requires k in live
    ensures k in ExtendAll(live, ks, ledger)
    ensures ExtendAll(live, ks, ledger)[k] == if k in ks then Extended(live[k], ledger) else live[k]
  {
    if ks != [] {
      var n := |ks| - 1;
      ExtendAllEffect(live, ks[..n], ledger, k);
      SameKeys(live, ks[..n], ledger);
      assert ks == ks[..n] + [ks[n]];
    }
  }
}
