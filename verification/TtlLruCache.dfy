/** A cache whose entries also expire, over the LRU cache, with an explicit clock. */
module TtlLruCache {
  import opened Results
  import opened LruCache

  datatype Stamped<V> = Stamped(value: V, expiresAt: int)

  type Items<V> = seq<Item<string, Stamped<V>>>

  datatype TimedOp<V> = TimedGet(key: string, now: int) | TimedSet(key: string, value: V, now: int) | TimedClear

  function TtlLookup<V>(items: Items<V>, k: string, now: int): Option<V> {
    match Lookup(items, k)
    case Some(e) => if now > e.expiresAt then None else Some(e.value)
    case None => None
  }

  /** A read refreshes recency first, and then drops the entry if it has expired. */
  function TtlAfter<V>(items: Items<V>, op: TimedOp<V>, ttlMs: int, maxSize: nat): Items<V> {
    match op
    case TimedGet(k, now) =>
      var refreshed := After(items, Get(k), maxSize);
      if Lookup(items, k).Some? && now > Lookup(items, k).value.expiresAt then Without(refreshed, k) else refreshed
    case TimedSet(k, v, now) => AfterSet(items, k, Stamped(v, now + ttlMs), maxSize)
    case TimedClear => []
  }

  class TtlLruCache<V> {
    const cache: LruCache<string, Stamped<V>>
    const ttlMs: int

    ghost predicate Valid()
      reads this, cache
    {
      cache.Valid()
    }

    constructor (ttlMs: int, maxSize: nat)
      ensures Valid() && cache.items == [] && fresh(cache)
      ensures this.ttlMs == ttlMs && cache.maxSize == maxSize
    {
      this.ttlMs := ttlMs;
      cache := new LruCache(maxSize);
    }

    method Get(key: string, now: int) returns (r: Option<V>)
      requires Valid()
      modifies cache
      ensures Valid() && r == TtlLookup(old(cache.items), key, now)
      ensures cache.items == TtlAfter(old(cache.items), TimedGet(key, now), ttlMs, cache.maxSize)
    {
      var entry := cache.Get(key);
      if entry.None? {
        return None;
      }
      if now > entry.value.expiresAt {
        var _ := cache.Delete(key);
        return None;
      }
      return Some(entry.value.value);
    }

    method Set(key: string, value: V, now: int)
      requires Valid()
      modifies cache
      ensures Valid()
      ensures cache.items == TtlAfter(old(cache.items), TimedSet(key, value, now), ttlMs, cache.maxSize)
    {
      cache.Set(key, Stamped(value, now + ttlMs));
    }

    method Clear()
      modifies cache
      ensures Valid() && cache.items == []
    {
      cache.Clear();
    }
  }

  function RunTimed<V>(items: Items<V>, ops: seq<TimedOp<V>>, ttlMs: int, maxSize: nat): Items<V>
    decreases |ops|
  {
    if ops == [] then items
    else TtlAfter(RunTimed(items, ops[..|ops| - 1], ttlMs, maxSize), ops[|ops| - 1], ttlMs, maxSize)
  }

  // ---------------------------------------------------------------- what a hit returns

  /** The value last set for a key, and when, unless the cache was cleared since. */
  function LastSet<V>(ops: seq<TimedOp<V>>, k: string): Option<(V, int)> {
    if ops == [] then None
    else
      match ops[|ops| - 1]
      case TimedSet(k', v, now) => if k' == k then Some((v, now)) else LastSet(ops[..|ops| - 1], k)
      case TimedClear => None
      case TimedGet(_, _) => LastSet(ops[..|ops| - 1], k)
  }

  ghost predicate HoldsLastSets<V>(items: Items<V>, ops: seq<TimedOp<V>>, ttlMs: int) {
    forall x | x in items :: LastSet(ops, x.key) == Some((x.value.value, x.value.expiresAt - ttlMs))
  }

  /** Reading only moves or drops entries; it never makes one. */
  lemma GetKeepsEntries<V>(items: Items<V>, k: string, now: int, ttlMs: int, maxSize: nat)
    requires DistinctKeys(items) && |items| <= maxSize
    ensures var after := TtlAfter(items, TimedGet(k, now), ttlMs, maxSize);
            DistinctKeys(after) && |after| <= maxSize && forall x | x in after :: x in items
  {
    AfterKeepsInvariant(items, Get(k), maxSize);
    GetMembers(items, k, maxSize);
    var refreshed := After(items, Get(k), maxSize);
    WithoutFacts(refreshed, k);
    WithoutMembers(refreshed, k);
  }

  lemma GetMembers<V>(items: Items<V>, k: string, maxSize: nat)
    requires DistinctKeys(items)
    ensures forall x | x in After(items, Get(k), maxSize) :: x in items
  {
    WithoutMembers(items, k);
    if Lookup(items, k).Some? {
      LookupIsMembership(items, k, Lookup(items, k).value);
    }
  }

  lemma SetKeepsOtherEntries<V>(items: Items<V>, k: string, v: V, now: int, ttlMs: int, maxSize: nat)
    requires DistinctKeys(items) && |items| <= maxSize
    ensures var after := TtlAfter(items, TimedSet(k, v, now), ttlMs, maxSize);
            && DistinctKeys(after) && |after| <= maxSize
            && forall x | x in after :: x == Item(k, Stamped(v, now + ttlMs)) || (x in items && x.key != k)
  {
    AfterKeepsInvariant(items, Set(k, Stamped(v, now + ttlMs)), maxSize);
    SetMembers(items, k, Stamped(v, now + ttlMs), maxSize);
  }

  lemma {:induction false} EntriesAreLastSets<V>(ops: seq<TimedOp<V>>, ttlMs: int, maxSize: nat)
    ensures var items := RunTimed<V>([], ops, ttlMs, maxSize);
            DistinctKeys(items) && |items| <= maxSize && HoldsLastSets(items, ops, ttlMs)
  {
    if ops != [] {
      var n := |ops| - 1;
      var items, op := RunTimed<V>([], ops[..n], ttlMs, maxSize), ops[n];
      EntriesAreLastSets(ops[..n], ttlMs, maxSize);
      match op {
        case TimedGet(k, now) => GetKeepsEntries(items, k, now, ttlMs, maxSize);
        case TimedSet(k, v, now) => SetKeepsOtherEntries(items, k, v, now, ttlMs, maxSize);
        case TimedClear =>
      }
    }
  }

  /** A hit returns the value last set for its key, set no longer than the time-to-live ago. */
  lemma HitIsLastSet<V>(ops: seq<TimedOp<V>>, ttlMs: int, maxSize: nat, k: string, now: int)
    requires TtlLookup(RunTimed<V>([], ops, ttlMs, maxSize), k, now).Some?
    ensures var hit := TtlLookup(RunTimed<V>([], ops, ttlMs, maxSize), k, now).value;
            && LastSet(ops, k).Some?
            && LastSet(ops, k).value.0 == hit
            && now - LastSet(ops, k).value.1 <= ttlMs
  {
    var items := RunTimed<V>([], ops, ttlMs, maxSize);
    EntriesAreLastSets(ops, ttlMs, maxSize);
    LookupIsMembership(items, k, Lookup(items, k).value);
  }

  // ---------------------------------------------------------------- inclusion carries over

  lemma TimedOpKeepsInclusion<V>(small: Items<V>, large: Items<V>, n: nat, m: nat, op: TimedOp<V>, ttlMs: int)
    requires Included(small, large, n, m)
    ensures Included(TtlAfter(small, op, ttlMs, n), TtlAfter(large, op, ttlMs, m), n, m)
  {
    match op
    case TimedSet(k, v, now) => SetKeepsInclusion(small, large, n, m, k, Stamped(v, now + ttlMs));
    case TimedClear =>
    case TimedGet(k, now) =>
      GetKeepsInclusion(small, large, n, m, k);
      SameHit(small, large, n, m, k);
      DeleteKeepsInclusion(After(small, Get(k), n), After(large, Get(k), m), n, m, k);
      if Lookup(small, k).None? {
        WithoutSize(small, k);
      }
  }

  /** With the same clock, every hit in the smaller expiring cache is the same hit in the larger. */
  lemma {:induction false} TimedHitsAreMonotone<V>(ops: seq<TimedOp<V>>, ttlMs: int, n: nat, m: nat, k: string, now: int)
    requires n <= m
    ensures Included(RunTimed<V>([], ops, ttlMs, n), RunTimed<V>([], ops, ttlMs, m), n, m)
    ensures var small, large := RunTimed<V>([], ops, ttlMs, n), RunTimed<V>([], ops, ttlMs, m);
            TtlLookup(small, k, now).Some? ==> TtlLookup(large, k, now) == TtlLookup(small, k, now)
  {
    if ops != [] {
      var i := |ops| - 1;
      TimedHitsAreMonotone(ops[..i], ttlMs, n, m, k, now);
      TimedOpKeepsInclusion(
        RunTimed<V>([], ops[..i], ttlMs, n), RunTimed<V>([], ops[..i], ttlMs, m), n, m, ops[i], ttlMs);
    }
    SameHit(RunTimed<V>([], ops, ttlMs, n), RunTimed<V>([], ops, ttlMs, m), n, m, k);
  }
}
