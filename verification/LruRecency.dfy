/**
 Which keys a least-recently-used cache holds, from the trace of operations alone: a key is
 kept while fewer keys than the capacity were used since its own last use.
 */
module LruRecency {
  import opened Results
  import opened LruCache
  import opened TtlLruCache

  // ---------------------------------------------------------------- the reference

  /** The index of the last use of a key, a set or a read that hits, or -1 when it was deleted or cleared since. */
  ghost function LastUse<K, V>(ops: seq<Op<K, V>>, n: nat, k: K): (u: int)
    ensures -1 <= u < |ops|
    ensures u >= 0 ==> (ops[u].Get? || ops[u].Set?) && ops[u].key == k
    decreases |ops|, 0
  {
    if ops == [] then -1
    else
      var m := |ops| - 1;
      match ops[m]
      case Set(k', _) => if k' == k then m else LastUse(ops[..m], n, k)
      case Get(k') => if k' == k && Kept(ops[..m], n, k) then m else LastUse(ops[..m], n, k)
      case Delete(k') => if k' == k then -1 else LastUse(ops[..m], n, k)
      case Clear => -1
  }

  /** The keys last used after time u. */
  ghost function UsedSince<K, V>(ops: seq<Op<K, V>>, n: nat, u: int): set<K>
    requires u >= -1
    decreases |ops|, 1
  {
    set i | u < i < |ops| && (ops[i].Get? || ops[i].Set?) && LastUse(ops, n, ops[i].key) == i :: ops[i].key
  }

  /** The key is in use, and at no time since its last use had n other keys been used since. */
  ghost predicate Kept<K, V>(ops: seq<Op<K, V>>, n: nat, k: K)
    decreases |ops|, 2
  {
    var u := LastUse(ops, n, k);
    u >= 0 && forall t | u < t <= |ops| :: |UsedSince(ops[..t], n, u)| < n
  }

  /** The value last set for a key. */
  ghost function LastValue<K, V>(ops: seq<Op<K, V>>, k: K): Option<V> {
    if ops == [] then None
    else
      var m := |ops| - 1;
      if ops[m].Set? && ops[m].key == k then Some(ops[m].value) else LastValue(ops[..m], k)
  }

  // ---------------------------------------------------------------- the invariant

  ghost predicate ByLastUse<K, V>(items: seq<Item<K, V>>, ops: seq<Op<K, V>>, n: nat) {
    forall p, q | 0 <= p < q < |items| :: LastUse(ops, n, items[p].key) < LastUse(ops, n, items[q].key)
  }

  /** The list holds the kept keys, in the order of their last uses. */
  ghost predicate ListsKept<K(!new), V(!new)>(items: seq<Item<K, V>>, ops: seq<Op<K, V>>, n: nat) {
    && |items| <= n
    && ByLastUse(items, ops, n)
    && forall k :: HasKey(items, k) <==> Kept(ops, n, k)
  }

  lemma UsedSinceMembers<K(!new), V>(ops: seq<Op<K, V>>, n: nat, u: int)
    requires u >= -1
    ensures forall x :: x in UsedSince(ops, n, u) <==> LastUse(ops, n, x) > u
  {
    forall x ensures x in UsedSince(ops, n, u) <==> LastUse(ops, n, x) > u {
      var i := LastUse(ops, n, x);
      if i > u {
        assert ops[i].key == x;
      }
    }
  }

  /** One more operation that leaves the last use of a key where it was. */
  lemma KeptAfterStep<K, V>(ops: seq<Op<K, V>>, n: nat, k: K)
    requires ops != []
    requires LastUse(ops, n, k) == LastUse(ops[..|ops| - 1], n, k) >= 0
    ensures Kept(ops, n, k) <==> Kept(ops[..|ops| - 1], n, k) && |UsedSince(ops, n, LastUse(ops, n, k))| < n
  {
    var m, u := |ops| - 1, LastUse(ops, n, k);
    assert ops[..|ops|] == ops;
    assert forall t | u < t <= m :: ops[..m][..t] == ops[..t];
    if Kept(ops, n, k) {
      forall t | u < t <= m ensures |UsedSince(ops[..m][..t], n, u)| < n {
        assert |UsedSince(ops[..t], n, u)| < n;
      }
    }
    if Kept(ops[..m], n, k) && |UsedSince(ops, n, u)| < n {
      forall t | u < t <= |ops| ensures |UsedSince(ops[..t], n, u)| < n {
        assert t <= m ==> |UsedSince(ops[..m][..t], n, u)| < n;
      }
    }
  }

  /** What was used after a kept key is kept as well. */
  lemma LaterIsKept<K(!new), V(!new)>(ops: seq<Op<K, V>>, n: nat, k: K, x: K)
    requires Kept(ops, n, k) && LastUse(ops, n, x) >= LastUse(ops, n, k)
    ensures Kept(ops, n, x)
  {
    var u, v := LastUse(ops, n, k), LastUse(ops, n, x);
    forall t | v < t <= |ops| ensures |UsedSince(ops[..t], n, v)| < n {
      var later, since := UsedSince(ops[..t], n, v), UsedSince(ops[..t], n, u);
      assert |since| < n;
      UsedSinceMembers(ops[..t], n, v);
      UsedSinceMembers(ops[..t], n, u);
      SubsetSize(later, since);
    }
  }

  lemma {:induction false} SubsetSize<K>(a: set<K>, b: set<K>)
    requires a <= b
    ensures |a| <= |b|
  {
    assert b == a + (b - a) && a !! (b - a);
  }

  // ---------------------------------------------------------------- the list and the keys used since

  /** The keys listed behind position p. */
  ghost function Behind<K, V>(items: seq<Item<K, V>>, p: nat): set<K> {
    set q | p < q < |items| :: items[q].key
  }

  lemma {:induction false} BehindSize<K, V>(items: seq<Item<K, V>>, p: nat)
    requires DistinctKeys(items) && p < |items|
    ensures |Behind(items, p)| == |items| - 1 - p
  {
    var m := |items| - 1;
    if p < m {
      BehindSize(items[..m], p);
      var b := Behind(items[..m], p);
      assert items[m].key !in b by {
        assert forall q | p < q < m :: items[..m][q].key != items[m].key;
      }
      assert Behind(items, p) == b + {items[m].key} by {
        assert forall q | p < q < m :: items[..m][q] == items[q];
        forall x | x in Behind(items, p) ensures x in b + {items[m].key} {
          var q :| p < q < |items| && items[q].key == x;
          assert q < m ==> items[..m][q].key == x;
        }
      }
    } else {
      assert Behind(items, p) == {};
    }
  }

  lemma OrderedIsDistinct<K, V>(items: seq<Item<K, V>>, ops: seq<Op<K, V>>, n: nat)
    requires ByLastUse(items, ops, n)
    ensures DistinctKeys(items)
  {
    forall i, j | 0 <= i < j < |items| ensures items[i].key != items[j].key {
      assert LastUse(ops, n, items[i].key) < LastUse(ops, n, items[j].key);
    }
  }

  /** Where the list holds every key used later, what stands behind a key was used since its last use. */
  lemma BehindIsUsedSince<K(!new), V(!new)>(items: seq<Item<K, V>>, ops: seq<Op<K, V>>, n: nat, p: nat)
    requires p < |items| && ByLastUse(items, ops, n) && LastUse(ops, n, items[p].key) >= 0
    requires forall x | LastUse(ops, n, x) > LastUse(ops, n, items[p].key) :: HasKey(items, x)
    ensures |UsedSince(ops, n, LastUse(ops, n, items[p].key))| == |items| - 1 - p
  {
    var u := LastUse(ops, n, items[p].key);
    var since := UsedSince(ops, n, u);
    UsedSinceMembers(ops, n, u);
    assert forall q | 0 <= q <= p :: LastUse(ops, n, items[q].key) <= u;
    forall x ensures x in since <==> x in Behind(items, p) {
      if x in since {
        assert HasKey(items, x);
        var q :| 0 <= q < |items| && items[q].key == x;
      }
    }
    assert since == Behind(items, p);
    OrderedIsDistinct(items, ops, n);
    BehindSize(items, p);
  }

  lemma {:induction false} WithoutByLastUse<K, V>(items: seq<Item<K, V>>, ops: seq<Op<K, V>>, n: nat, k: K)
    requires ByLastUse(items, ops, n)
    ensures ByLastUse(Without(items, k), ops, n)
  {
    if items != [] {
      assert forall i | 0 <= i < |items| - 1 :: items[1..][i] == items[i + 1];
      WithoutByLastUse(items[1..], ops, n, k);
      WithoutMembers(items[1..], k);
      var rest := Without(items[1..], k);
      forall q | 0 <= q < |rest| ensures LastUse(ops, n, items[0].key) < LastUse(ops, n, rest[q].key) {
        assert rest[q] in items[1..];
        var i :| 0 < i < |items| && items[i] == rest[q];
      }
    }
  }

  lemma WithoutKeys<K(!new), V(!new)>(items: seq<Item<K, V>>, k: K)
    ensures forall x :: HasKey(Without(items, k), x) <==> HasKey(items, x) && x != k
  {
    WithoutMembers(items, k);
    var rest := Without(items, k);
    forall x ensures HasKey(rest, x) <==> HasKey(items, x) && x != k {
      if HasKey(rest, x) {
        var i :| 0 <= i < |rest| && rest[i].key == x;
        assert rest[i] in items;
      }
      if HasKey(items, x) && x != k {
        var i :| 0 <= i < |items| && items[i].key == x;
        assert items[i] in items;
        assert items[i] in rest;
      }
    }
  }

  // ---------------------------------------------------------------- each operation

  /** A step after which every other key was last used when it was before. */
  ghost predicate OthersStay<K(!new), V(!new)>(ops: seq<Op<K, V>>, n: nat, k: K)
    requires ops != []
  {
    forall x | x != k :: LastUse(ops, n, x) == LastUse(ops[..|ops| - 1], n, x)
  }

  /** A key used now: it goes to the end, in the order of last uses. */
  lemma TouchedOrder<K(!new), V(!new)>(items: seq<Item<K, V>>, ops: seq<Op<K, V>>, n: nat, k: K, v: V)
    requires ops != [] && ListsKept(items, ops[..|ops| - 1], n)
    requires LastUse(ops, n, k) == |ops| - 1 && OthersStay(ops, n, k)
    ensures ByLastUse(Without(items, k) + [Item(k, v)], ops, n)
  {
    var rest := Without(items, k);
    WithoutByLastUse(items, ops[..|ops| - 1], n, k);
    WithoutMembers(items, k);
    forall p, q | 0 <= p < q < |rest| + 1
      ensures LastUse(ops, n, (rest + [Item(k, v)])[p].key) < LastUse(ops, n, (rest + [Item(k, v)])[q].key)
    {
      assert rest[p].key != k;
      assert q < |rest| ==> rest[q].key != k;
    }
  }

  /** The keys used since a listed key's last use are those behind it, the one used now included. */
  lemma TouchedCount<K(!new), V(!new)>(items: seq<Item<K, V>>, ops: seq<Op<K, V>>, n: nat, k: K, v: V, p: nat)
    requires ops != [] && ListsKept(items, ops[..|ops| - 1], n)
    requires LastUse(ops, n, k) == |ops| - 1 && OthersStay(ops, n, k)
    requires p <= |Without(items, k)|
    ensures var stored := Without(items, k) + [Item(k, v)];
            |UsedSince(ops, n, LastUse(ops, n, stored[p].key))| == |stored| - 1 - p
  {
    var before := ops[..|ops| - 1];
    var stored := Without(items, k) + [Item(k, v)];
    TouchedOrder(items, ops, n, k, v);
    WithoutMembers(items, k);
    WithoutKeys(items, k);
    AppendKeys(Without(items, k), Item(k, v));
    var y := stored[p].key;
    assert y != k ==> Kept(before, n, y) by {
      assert y != k ==> HasKey(Without(items, k), y);
    }
    forall x | LastUse(ops, n, x) > LastUse(ops, n, y) ensures HasKey(stored, x) {
      if x != k {
        assert y != k;
        LaterIsKept(before, n, y, x);
      }
    }
    BehindIsUsedSince(stored, ops, n, p);
  }

  lemma AppendKeys<K(!new), V(!new)>(items: seq<Item<K, V>>, last: Item<K, V>)
    ensures forall x :: HasKey(items + [last], x) <==> HasKey(items, x) || x == last.key
  {
    forall x ensures HasKey(items + [last], x) <==> HasKey(items, x) || x == last.key {
      if HasKey(items, x) {
        var i :| 0 <= i < |items| && items[i].key == x;
        assert (items + [last])[i].key == x;
      }
      assert (items + [last])[|items|] == last;
      if HasKey(items + [last], x) && x != last.key {
        var i :| 0 <= i < |items| + 1 && (items + [last])[i].key == x;
        assert items[i].key == x;
      }
    }
  }


  /** A key in the list with the touched key at its end is kept exactly when no more than n - 1 keys stand behind it. */
  lemma TouchedKept<K(!new), V(!new)>(items: seq<Item<K, V>>, ops: seq<Op<K, V>>, n: nat, k: K, v: V, p: nat)
    requires ops != [] && ListsKept(items, ops[..|ops| - 1], n)
    requires LastUse(ops, n, k) == |ops| - 1 && OthersStay(ops, n, k)
    requires p <= |Without(items, k)|
    ensures var stored := Without(items, k) + [Item(k, v)];
            Kept(ops, n, stored[p].key) <==> |stored| - 1 - p < n
  {
    var stored := Without(items, k) + [Item(k, v)];
    var y := stored[p].key;
    TouchedCount(items, ops, n, k, v, p);
    WithoutMembers(items, k);
    if y == k {
      assert ops[..|ops|] == ops;
      assert Kept(ops, n, y) <==> |UsedSince(ops, n, LastUse(ops, n, y))| < n;
    } else {
      WithoutKeys(items, k);
      assert HasKey(Without(items, k), y);
      KeptAfterStep(ops, n, y);
    }
  }

  /** A key used now is the last of the list, and the oldest leaves when the list is full. */
  lemma TouchKeeps<K(!new), V(!new)>(items: seq<Item<K, V>>, ops: seq<Op<K, V>>, n: nat, k: K, v: V)
    requires ops != [] && ListsKept(items, ops[..|ops| - 1], n)
    requires LastUse(ops, n, k) == |ops| - 1 && OthersStay(ops, n, k)
    ensures ListsKept(AfterSet(items, k, v, n), ops, n)
  {
    var stored, after := Without(items, k) + [Item(k, v)], AfterSet(items, k, v, n);
    OrderedIsDistinct(items, ops[..|ops| - 1], n);
    WithoutFacts(items, k);
    TouchedOrder(items, ops, n, k, v);
    assert forall p | 0 <= p < |after| :: after[p] == stored[p + |stored| - |after|];
    forall x ensures HasKey(after, x) <==> Kept(ops, n, x) {
      TouchKeepsKey(items, ops, n, k, v, x);
    }
  }

  lemma TouchKeepsKey<K(!new), V(!new)>(items: seq<Item<K, V>>, ops: seq<Op<K, V>>, n: nat, k: K, v: V, x: K)
    requires ops != [] && ListsKept(items, ops[..|ops| - 1], n)
    requires LastUse(ops, n, k) == |ops| - 1 && OthersStay(ops, n, k)
    ensures HasKey(AfterSet(items, k, v, n), x) <==> Kept(ops, n, x)
  {
    var stored, after := Without(items, k) + [Item(k, v)], AfterSet(items, k, v, n);
    OrderedIsDistinct(items, ops[..|ops| - 1], n);
    WithoutFacts(items, k);
    WithoutKeys(items, k);
    AppendKeys(Without(items, k), Item(k, v));
    if HasKey(stored, x) {
      var p :| 0 <= p < |stored| && stored[p].key == x;
      TouchedKept(items, ops, n, k, v, p);
      TouchedOrder(items, ops, n, k, v);
      OrderedIsDistinct(stored, ops, n);
      PositionAfterEviction(stored, p, |stored| > n);
    } else {
      assert !HasKey(after, x) by {
        NothingNew(stored, x, |stored| > n);
      }
      if Kept(ops, n, x) {
        KeptAfterStep(ops, n, x);
      }
    }
  }

  lemma PositionAfterEviction<K, V>(stored: seq<Item<K, V>>, p: nat, full: bool)
    requires p < |stored| && DistinctKeys(stored)
    ensures HasKey(if full then stored[1..] else stored, stored[p].key) <==> !full || p > 0
  {
    if full && p > 0 {
      assert stored[1..][p - 1].key == stored[p].key;
    }
  }

  lemma NothingNew<K, V>(stored: seq<Item<K, V>>, x: K, full: bool)
    requires !HasKey(stored, x) && stored != []
    ensures !HasKey(if full then stored[1..] else stored, x)
  {
  }

  /** A step that takes one key, or none, out of use. */
  lemma DropKeeps<K(!new), V(!new)>(items: seq<Item<K, V>>, ops: seq<Op<K, V>>, n: nat, k: K)
    requires ops != [] && ListsKept(items, ops[..|ops| - 1], n)
    requires LastUse(ops, n, k) == -1 && OthersStay(ops, n, k)
    ensures ListsKept(Without(items, k), ops, n)
  {
    var before := ops[..|ops| - 1];
    OrderedIsDistinct(items, before, n);
    WithoutFacts(items, k);
    WithoutByLastUse(items, before, n, k);
    WithoutMembers(items, k);
    assert forall p | 0 <= p < |Without(items, k)| :: Without(items, k)[p].key != k;
    WithoutKeys(items, k);
    forall x ensures HasKey(Without(items, k), x) <==> Kept(ops, n, x) {
      if x != k && LastUse(ops, n, x) >= 0 {
        FewerUsed(ops, n, x);
      }
    }
  }

  /** When no key comes into use, every key still in use is kept as it was. */
  lemma FewerUsed<K(!new), V(!new)>(ops: seq<Op<K, V>>, n: nat, x: K)
    requires ops != [] && LastUse(ops, n, x) == LastUse(ops[..|ops| - 1], n, x) >= 0
    requires forall y :: LastUse(ops, n, y) <= LastUse(ops[..|ops| - 1], n, y)
    ensures Kept(ops, n, x) <==> Kept(ops[..|ops| - 1], n, x)
  {
    var before, u := ops[..|ops| - 1], LastUse(ops, n, x);
    KeptAfterStep(ops, n, x);
    UsedSinceMembers(ops, n, u);
    UsedSinceMembers(before, n, u);
    SubsetSize(UsedSince(ops, n, u), UsedSince(before, n, u));
    if Kept(before, n, x) {
      assert before[..|before|] == before;
      assert |UsedSince(before, n, u)| < n;
    }
  }

  lemma MissKeeps<K(!new), V(!new)>(items: seq<Item<K, V>>, ops: seq<Op<K, V>>, n: nat)
    requires ops != [] && ListsKept(items, ops[..|ops| - 1], n)
    requires forall x :: LastUse(ops, n, x) == LastUse(ops[..|ops| - 1], n, x)
    ensures ListsKept(items, ops, n)
  {
    forall x ensures HasKey(items, x) <==> Kept(ops, n, x) {
      if LastUse(ops, n, x) >= 0 {
        FewerUsed(ops, n, x);
      }
    }
  }

  lemma OpKeepsKept<K(!new), V(!new)>(items: seq<Item<K, V>>, ops: seq<Op<K, V>>, n: nat)
    requires ops != [] && ListsKept(items, ops[..|ops| - 1], n)
    ensures ListsKept(After(items, ops[|ops| - 1], n), ops, n)
  {
    match ops[|ops| - 1]
    case Set(k, v) => TouchKeeps(items, ops, n, k, v);
    case Delete(k) => DropKeeps(items, ops, n, k);
    case Clear =>
      forall x ensures HasKey<K, V>([], x) <==> Kept(ops, n, x) {
        assert LastUse(ops, n, x) == -1;
      }
    case Get(k) =>
      if HasKey(items, k) {
        TouchKeeps(items, ops, n, k, Lookup(items, k).value);
        OrderedIsDistinct(items, ops[..|ops| - 1], n);
        WithoutFacts(items, k);
      } else {
        MissKeeps(items, ops, n);
      }
  }

  // ---------------------------------------------------------------- every trace

  /** From empty, after any trace: the list holds exactly the kept keys, ordered by last use. */
  lemma {:induction false} ListedByLastUse<K(!new), V(!new)>(ops: seq<Op<K, V>>, n: nat)
    ensures ListsKept(RunOps([], ops, n), ops, n)
  {
    if ops != [] {
      ListedByLastUse(ops[..|ops| - 1], n);
      OpKeepsKept(RunOps([], ops[..|ops| - 1], n), ops, n);
    }
  }

  lemma {:induction false} HoldsLastValues<K(!new), V(!new)>(ops: seq<Op<K, V>>, n: nat)
    ensures DistinctKeys(RunOps([], ops, n)) && |RunOps([], ops, n)| <= n
    ensures forall x | x in RunOps([], ops, n) :: LastValue(ops, x.key) == Some(x.value)
  {
    if ops != [] {
      var m := |ops| - 1;
      var items := RunOps([], ops[..m], n);
      HoldsLastValues(ops[..m], n);
      AfterKeepsInvariant(items, ops[m], n);
      match ops[m] {
        case Set(k, v) => SetMembers(items, k, v, n);
        case Delete(k) => WithoutMembers(items, k);
        case Clear =>
        case Get(k) =>
          WithoutMembers(items, k);
          if HasKey(items, k) {
            LookupIsMembership(items, k, Lookup(items, k).value);
          }
      }
    }
  }

  /**
   A read after any trace hits exactly when the key was set, not deleted or cleared since,
   and at no time since its last use had as many other keys been used as the cache holds;
   a hit gives the value last set.
   */
  lemma HitExactly<K(!new), V(!new)>(ops: seq<Op<K, V>>, n: nat, k: K)
    ensures Lookup(RunOps([], ops, n), k) == if Kept(ops, n, k) then LastValue(ops, k) else None
  {
    var items := RunOps([], ops, n);
    ListedByLastUse(ops, n);
    if HasKey(items, k) {
      HoldsLastValues(ops, n);
      LookupIsMembership(items, k, Lookup(items, k).value);
    }
  }

  // ---------------------------------------------------------------- with expiry

  /** A timed trace as a plain one: a read of what has expired deletes it. */
  function Plain<V>(ops: seq<TimedOp<V>>, ttlMs: int): (r: seq<Op<string, Stamped<V>>>)
    ensures |r| == |ops|
  {
    if ops == [] then []
    else
      var before := ops[..|ops| - 1];
      Plain(before, ttlMs) +
      match ops[|ops| - 1]
      case TimedSet(k, v, now) => [Set(k, Stamped(v, now + ttlMs))]
      case TimedClear => [Clear]
      case TimedGet(k, now) =>
        match LastSet(before, k)
        case Some((_, setAt)) => if now - setAt > ttlMs then [Delete(k)] else [Get(k)]
        case None => [Get(k)]
  }

  lemma {:induction false} TimedIsPlain<V(!new)>(ops: seq<TimedOp<V>>, ttlMs: int, n: nat)
    ensures RunTimed<V>([], ops, ttlMs, n) == RunOps([], Plain(ops, ttlMs), n)
  {
    if ops != [] {
      var m := |ops| - 1;
      var items := RunTimed<V>([], ops[..m], ttlMs, n);
      TimedIsPlain(ops[..m], ttlMs, n);
      EntriesAreLastSets(ops[..m], ttlMs, n);
      var plain := Plain(ops, ttlMs);
      assert plain[..m] == Plain(ops[..m], ttlMs);
      if ops[m].TimedGet? {
        ReadIsPlain(items, ops[..m], ops[m].key, ops[m].now, ttlMs, n, plain[m]);
      }
    }
  }

  lemma ReadIsPlain<V(!new)>(
    items: Items<V>, before: seq<TimedOp<V>>, k: string, now: int, ttlMs: int, n: nat, op: Op<string, Stamped<V>>)
    requires DistinctKeys(items) && |items| <= n && HoldsLastSets(items, before, ttlMs)
    requires op == if LastSet(before, k).Some? && now - LastSet(before, k).value.1 > ttlMs then Delete(k) else Get(k)
    ensures TtlAfter(items, TimedGet(k, now), ttlMs, n) == After(items, op, n)
  {
    WithoutFacts(items, k);
    if HasKey(items, k) {
      var e := Lookup(items, k).value;
      LookupIsMembership(items, k, e);
      assert Item(k, e) in items;
      WithoutLast(Without(items, k), Item(k, e));
      WithoutFacts(Without(items, k), k);
    }
  }

  lemma {:induction false} WithoutLast<K, V>(items: seq<Item<K, V>>, last: Item<K, V>)
    ensures Without(items + [last], last.key) == Without(items, last.key)
  {
    if items != [] {
      assert (items + [last])[1..] == items[1..] + [last];
      WithoutLast(items[1..], last);
    }
  }

  /**
   A read of the expiring cache hits exactly when the key was set no longer than the
   time-to-live ago and is kept by the plain trace, in which reading an expired entry
   deletes it; a hit gives the value last set.
   */
  lemma TimedHitExactly<V(!new)>(ops: seq<TimedOp<V>>, ttlMs: int, n: nat, k: string, now: int)
    ensures TtlLookup(RunTimed<V>([], ops, ttlMs, n), k, now)
         == match LastSet(ops, k)
            case Some((v, setAt)) =>
              if now - setAt <= ttlMs && Kept(Plain(ops, ttlMs), n, k) then Some(v) else None
            case None => None
  {
    var items := RunTimed<V>([], ops, ttlMs, n);
    TimedIsPlain(ops, ttlMs, n);
    HitExactly(Plain(ops, ttlMs), n, k);
    ListedByLastUse(Plain(ops, ttlMs), n);
    EntriesAreLastSets(ops, ttlMs, n);
    if HasKey(items, k) {
      LookupIsMembership(items, k, Lookup(items, k).value);
    }
  }
}
