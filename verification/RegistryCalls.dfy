/** What one call of the registry contract does, with its lifetimes written out in ledgers. */
module RegistryCalls {
  import opened Results
  import opened RegistryContract

  /** The entry is not stored, or stored and still live. */
  predicate Reachable(s: State, k: Key) {
    k in s.liveUntil ==> s.liveUntil[k] >= s.ledger
  }

  /** An entry with at most 150 days of 17280 ledgers left gets 180 days from now; one with more keeps what it has. */
  function Prolonged(until: int, ledger: nat): int {
    if until <= ledger + 2_592_000 then ledger + 3_110_400 else until
  }

  /** How long an entry lives that was live until `was`, or was not stored, and is written and extended now. */
  function LifeOnceWritten(s: State, k: Key): int {
    Prolonged(if k in s.liveUntil then s.liveUntil[k] else s.ledger + s.minTtl - 1, s.ledger)
  }

  /**
   A publish is accepted exactly for a version and a pointer that are not empty, a version
   that this publisher has not published for the contract, and entries that are all live or
   new. A refused one changes nothing.
   */
  lemma PublishAcceptedExactly(s: State, p: Pair, v: Version, hash: string, pointer: string)
    ensures var (after, r) := Publish(s, p, v, hash, pointer);
            && (r.Ok? <==>
                  && v != "" && pointer != "" && GetVersion(s, p, v) == None
                  && Reachable(s, SpecKey(p, v)) && Reachable(s, VersionsKey(p)) && Reachable(s, LatestKey(p)))
            && (r.Err? ==> after == s)
            && (r == Err(AlreadyPublished) ==> GetVersion(s, p, v).Some?)
  {
  }

  /**
   An accepted publish stores the record under its version, with the ledger and time of the
   call, appends the version to the pair's list, and makes it the latest; every other record
   and every other pair stay.
   */
  lemma PublishStores(s: State, p: Pair, v: Version, hash: string, pointer: string, q: Pair, u: Version)
    requires Publish(s, p, v, hash, pointer).1.Ok?
    ensures var after := Publish(s, p, v, hash, pointer).0;
            var record := Record(v, hash, pointer, p.publisher, s.time, s.ledger);
            && GetVersion(after, q, u) == (if q == p && u == v then Some(record) else GetVersion(s, q, u))
            && VersionsOf(after, q) == (if q == p then VersionsOf(s, p) + [v] else VersionsOf(s, q))
            && Latest(after, p) == Some(record)
            && (q != p ==> Latest(after, q) == Latest(s, q))
            && (after.ledger, after.time, after.minTtl) == (s.ledger, s.time, s.minTtl)
  {
  }

  /** It writes and prolongs the record, the list and the latest version, and no other entry. */
  lemma PublishLifetimes(s: State, p: Pair, v: Version, hash: string, pointer: string, k: Key)
    requires Publish(s, p, v, hash, pointer).1.Ok?
    ensures var live := Publish(s, p, v, hash, pointer).0.liveUntil;
            if k in {SpecKey(p, v), VersionsKey(p), LatestKey(p)} then k in live && live[k] == LifeOnceWritten(s, k)
            else if k in s.liveUntil then k in live && live[k] == s.liveUntil[k]
            else k !in live
  {
    var live1 := Written(s.liveUntil, SpecKey(p, v), s.ledger, s.minTtl);
    var live2 := Written(live1, VersionsKey(p), s.ledger, s.minTtl);
    WrittenAt(s.liveUntil, SpecKey(p, v), s.ledger, s.minTtl, k);
    WrittenAt(live1, VersionsKey(p), s.ledger, s.minTtl, k);
    WrittenAt(live2, LatestKey(p), s.ledger, s.minTtl, k);
  }

  lemma WrittenAt(live: map<Key, int>, k: Key, ledger: nat, minTtl: nat, other: Key)
    ensures var after := Written(live, k, ledger, minTtl);
            if other == k then
              k in after && after[k] == Prolonged(if k in live then live[k] else ledger + minTtl - 1, ledger)
            else if other in live then other in after && after[other] == live[other]
            else other !in after
  {
  }

  /** What a touch names: the latest version, the list, then the records of the versions. */
  function NamedAt(p: Pair, vs: seq<Version>, i: nat): Key
    requires i < |vs| + 2
  {
    if i == 0 then LatestKey(p) else if i == 1 then VersionsKey(p) else SpecKey(p, vs[i - 2])
  }

  /** The positions of a touch whose entries are stored. */
  function StoredPositions(s: State, p: Pair, vs: seq<Version>): set<nat> {
    set i | 0 <= i < |vs| + 2 && NamedAt(p, vs, i) in s.liveUntil
  }

  ghost predicate Touches(p: Pair, vs: seq<Version>, k: Key) {
    k == LatestKey(p) || k == VersionsKey(p) || exists i :: 0 <= i < |vs| && k == SpecKey(p, vs[i])
  }

  /** A touch is accepted exactly for at most 25 versions, entries none of which has expired, and one that is stored. */
  lemma TouchAcceptedExactly(s: State, p: Pair, vs: seq<Version>)
    ensures var (after, r) := Touch(s, p, vs);
            && (r.Ok? <==>
                  && |vs| <= 25 && StoredPositions(s, p, vs) != {}
                  && forall k | Touches(p, vs, k) :: Reachable(s, k))
            && (r.Ok? ==> r.value == |StoredPositions(s, p, vs)|)
            && (r.Err? ==> after == s)
  {
    var keys := TouchedKeys(p, vs);
    TouchedAre(p, vs);
    CountIsSize(s.liveUntil, keys);
    var stored := set i | 0 <= i < |keys| && keys[i] in s.liveUntil;
    assert StoredPositions(s, p, vs) == stored;
    if stored == {} {
      assert |stored| == 0;
    }
  }

  lemma TouchedAre(p: Pair, vs: seq<Version>)
    ensures forall k :: k in TouchedKeys(p, vs) <==> Touches(p, vs, k)
  {
    var keys := TouchedKeys(p, vs);
    forall k ensures k in keys <==> Touches(p, vs, k) {
      if k in keys {
        var i :| 0 <= i < |keys| && keys[i] == k;
        assert i >= 2 ==> k == SpecKey(p, vs[i - 2]);
      }
      if Touches(p, vs, k) && k.SpecKey? {
        var i :| 0 <= i < |vs| && k == SpecKey(p, vs[i]);
        assert keys[i + 2] == k;
      }
      assert keys[0] == LatestKey(p) && keys[1] == VersionsKey(p);
    }
  }

  lemma {:induction false} CountIsSize(live: map<Key, int>, ks: seq<Key>)
    ensures CountPresent(live, ks) == |set i | 0 <= i < |ks| && ks[i] in live|
  {
    var all := set i | 0 <= i < |ks| && ks[i] in live;
    if ks == [] {
      assert all == {};
    } else {
      var n := |ks| - 1;
      CountIsSize(live, ks[..n]);
      var before := set i | 0 <= i < |ks[..n]| && ks[..n][i] in live;
      assert all == if ks[n] in live then before + {n} else before;
    }
  }

  /** An accepted touch prolongs each stored entry it names; no other entry, and nothing else, changes. */
  lemma TouchProlongs(s: State, p: Pair, vs: seq<Version>, k: Key)
    requires Touch(s, p, vs).1.Ok?
    ensures var after := Touch(s, p, vs).0;
            && (k in after.liveUntil <==> k in s.liveUntil)
            && (k in s.liveUntil ==>
                  after.liveUntil[k] == if Touches(p, vs, k) then Prolonged(s.liveUntil[k], s.ledger) else s.liveUntil[k])
            && after == s.(liveUntil := after.liveUntil)
  {
    TouchedAre(p, vs);
    SameKeys(s.liveUntil, TouchedKeys(p, vs), s.ledger);
    if k in s.liveUntil {
      ExtendAllEffect(s.liveUntil, TouchedKeys(p, vs), s.ledger, k);
    }
  }

  /** A page holds the versions from its start on, at most 25 of them and no more than asked for, and names the rest's start. */
  lemma PageExactly(all: seq<Version>, start: nat, limit: nat)
    ensures var (page, next) := ListPage(all, start, limit);
            && |page| <= limit && |page| <= 25
            && (start < |all| ==>
                  && start + |page| <= |all| && page == all[start..start + |page|]
                  && (|page| < limit && |page| < 25 ==> start + |page| == |all|)
                  && next == if start + |page| < |all| then Some(start + |page|) else None)
            && (start >= |all| ==> page == [] && next == None)
  {
  }
}
