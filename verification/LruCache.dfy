/**
 A least-recently-used cache over an insertion-ordered map, and the inclusion of a smaller
 cache in a larger one on every trace.
 */
module LruCache {
  import opened Results

  /** An entry of the map; entries are listed in insertion order, the oldest first. */
  datatype Item<K, V> = Item(key: K, value: V)

  predicate HasKey<K(==), V>(items: seq<Item<K, V>>, k: K) {
    exists i | 0 <= i < |items| :: items[i].key == k
  }

  function Find<K(==), V>(items: seq<Item<K, V>>, k: K): (i: nat)
    requires HasKey(items, k)
    ensures i < |items| && items[i].key == k
    ensures forall j | 0 <= j < i :: items[j].key != k
  {
    if items[0].key == k then 0
    else
      assert HasKey(items[1..], k) by {
        var i :| 0 <= i < |items| && items[i].key == k;
        assert items[1..][i - 1].key == k;
      }
      1 + Find(items[1..], k)
  }

  function Lookup<K(==), V>(items: seq<Item<K, V>>, k: K): Option<V> {
    if HasKey(items, k) then Some(items[Find(items, k)].value) else None
  }

  /** The list without the entry of a key. */
  function Without<K(==), V>(items: seq<Item<K, V>>, k: K): seq<Item<K, V>> {
    if items == [] then []
    else if items[0].key == k then Without(items[1..], k)
    else [items[0]] + Without(items[1..], k)
  }

  ghost predicate DistinctKeys<K, V>(items: seq<Item<K, V>>) {
    forall i, j | 0 <= i < j < |items| :: items[i].key != items[j].key
  }

  // ---------------------------------------------------------------- operations on the list

  datatype Op<K, V> = Get(key: K) | Set(key: K, value: V) | Delete(key: K) | Clear

  function AfterSet<K(==), V>(items: seq<Item<K, V>>, k: K, v: V, maxSize: nat): seq<Item<K, V>> {
    var stored := Without(items, k) + [Item(k, v)];
    if |stored| > maxSize then stored[1..] else stored
  }

  /** The list after an operation: a hit or a set moves its key to the end. */
  function After<K(==), V>(items: seq<Item<K, V>>, op: Op<K, V>, maxSize: nat): seq<Item<K, V>> {
    match op
    case Get(k) =>
      (match Lookup(items, k)
       case Some(v) => Without(items, k) + [Item(k, v)]
       case None => items)
    case Set(k, v) => AfterSet(items, k, v, maxSize)
    case Delete(k) => Without(items, k)
    case Clear => []
  }

  function RunOps<K(==), V>(items: seq<Item<K, V>>, ops: seq<Op<K, V>>, maxSize: nat): seq<Item<K, V>>
    decreases |ops|
  {
    if ops == [] then items
    else After(RunOps(items, ops[..|ops| - 1], maxSize), ops[|ops| - 1], maxSize)
  }

  lemma {:induction false} WithoutMembers<K, V>(items: seq<Item<K, V>>, k: K)
    ensures forall x :: x in Without(items, k) <==> x in items && x.key != k
    ensures forall i | 0 <= i < |Without(items, k)| :: Without(items, k)[i] in items && Without(items, k)[i].key != k
  {
    if items != [] {
      WithoutMembers(items[1..], k);
      assert forall x :: x in items <==> x == items[0] || x in items[1..];
    }
  }

  lemma {:induction false} WithoutDistinct<K, V>(items: seq<Item<K, V>>, k: K)
    requires DistinctKeys(items)
    ensures DistinctKeys(Without(items, k))
  {
    if items != [] {
      WithoutDistinct(items[1..], k);
      WithoutMembers(items[1..], k);
      var rest := Without(items[1..], k);
      forall j | 0 <= j < |rest| ensures rest[j].key != items[0].key {
        assert rest[j] in items[1..];
        var i :| 1 <= i < |items| && items[i] == rest[j];
      }
    }
  }

  lemma {:induction false} WithoutSize<K, V>(items: seq<Item<K, V>>, k: K)
    requires DistinctKeys(items)
    ensures |Without(items, k)| == |items| - (if HasKey(items, k) then 1 else 0)
    ensures !HasKey(items, k) ==> Without(items, k) == items
  {
    if items != [] {
      WithoutSize(items[1..], k);
      HasKeySplit(items, k);
      if items[0].key == k {
        assert forall j | 0 <= j < |items[1..]| :: items[1..][j] == items[j + 1];
        assert !HasKey(items[1..], k);
      }
    }
  }

  lemma HasKeySplit<K, V>(items: seq<Item<K, V>>, k: K)
    requires items != []
    ensures HasKey(items, k) <==> items[0].key == k || HasKey(items[1..], k)
  {
    if HasKey(items[1..], k) {
      var i :| 0 <= i < |items[1..]| && items[1..][i].key == k;
      assert items[i + 1].key == k;
    }
    if HasKey(items, k) && items[0].key != k {
      var i :| 0 <= i < |items| && items[i].key == k;
      assert items[1..][i - 1].key == k;
    }
  }

  lemma WithoutFacts<K, V>(items: seq<Item<K, V>>, k: K)
    requires DistinctKeys(items)
    ensures var r := Without(items, k);
            && DistinctKeys(r) && !HasKey(r, k)
            && |r| == |items| - (if HasKey(items, k) then 1 else 0)
            && (!HasKey(items, k) ==> r == items)
  {
    WithoutMembers(items, k);
    WithoutDistinct(items, k);
    WithoutSize(items, k);
    var r := Without(items, k);
    assert forall i | 0 <= i < |r| :: r[i] in r;
  }

  /** The entries found by key are exactly those listed. */
  lemma LookupIsMembership<K, V>(items: seq<Item<K, V>>, k: K, v: V)
    requires DistinctKeys(items)
    ensures Lookup(items, k) == Some(v) <==> Item(k, v) in items
  {
    if Item(k, v) in items {
      var i :| 0 <= i < |items| && items[i] == Item(k, v);
      assert HasKey(items, k);
      var j := Find(items, k);
      assert i == j;
    }
  }

  /** Keys stay distinct, and no operation lets the size exceed the capacity. */
  lemma AfterKeepsInvariant<K, V>(items: seq<Item<K, V>>, op: Op<K, V>, maxSize: nat)
    requires DistinctKeys(items) && |items| <= maxSize
    ensures DistinctKeys(After(items, op, maxSize)) && |After(items, op, maxSize)| <= maxSize
  {
    if !op.Clear? {
      WithoutFacts(items, op.key);
      var rest := Without(items, op.key);
      forall i | 0 <= i < |rest| ensures rest[i].key != op.key {}
    }
  }

  /** A set keeps no entry but the one it stores and others that were there. */
  lemma SetMembers<K, V>(items: seq<Item<K, V>>, k: K, v: V, maxSize: nat)
    ensures forall x | x in AfterSet(items, k, v, maxSize) :: x == Item(k, v) || (x in items && x.key != k)
  {
    WithoutMembers(items, k);
    var rest := Without(items, k);
    var stored := rest + [Item(k, v)];
    forall x | x in AfterSet(items, k, v, maxSize) ensures x == Item(k, v) || (x in items && x.key != k) {
      assert x in stored;
      assert x in rest || x == Item(k, v);
    }
  }

  // ---------------------------------------------------------------- the class

  class LruCache<K(==), V> {
    var items: seq<Item<K, V>>
    const maxSize: nat

    ghost predicate Valid()
      reads this
    {
      DistinctKeys(items) && |items| <= maxSize
    }

    constructor (maxSize: nat)
      ensures Valid() && items == [] && this.maxSize == maxSize
    {
      this.maxSize := maxSize;
      items := [];
    }

    method Get(key: K) returns (r: Option<V>)
      requires Valid()
      modifies this
      ensures Valid() && r == Lookup(old(items), key)
      ensures items == After(old(items), Op.Get(key), maxSize)
    {
      AfterKeepsInvariant(items, Op.Get(key), maxSize);
      if !HasKey(items, key) {
        return None;
      }
      var value := items[Find(items, key)].value;
      items := Without(items, key);
      items := items + [Item(key, value)];
      return Some(value);
    }

    method Set(key: K, value: V)
      requires Valid()
      modifies this
      ensures Valid() && items == After(old(items), Op.Set(key, value), maxSize)
    {
      AfterKeepsInvariant(items, Op.Set(key, value), maxSize);
      WithoutFacts(items, key);
      if HasKey(items, key) {
        items := Without(items, key);
      }
      items := items + [Item(key, value)];
      if |items| > maxSize {
        items := items[1..];
      }
    }

    method Delete(key: K) returns (present: bool)
      requires Valid()
      modifies this
      ensures Valid() && present == HasKey(old(items), key)
      ensures items == After(old(items), Op.Delete(key), maxSize)
    {
      AfterKeepsInvariant(items, Op.Delete(key), maxSize);
      present := HasKey(items, key);
      items := Without(items, key);
    }

    method Clear()
      modifies this
      ensures Valid() && items == []
    {
      items := [];
    }
  }

  // ---------------------------------------------------------------- inclusion of a smaller cache

  predicate Subsequence<T(==)>(a: seq<T>, b: seq<T>) {
    a == [] || (b != [] && (if a[0] == b[0] then Subsequence(a[1..], b[1..]) else Subsequence(a, b[1..])))
  }

  /** The smaller cache's list is a subsequence of the larger's, short of it by no more than the capacities differ. */
  ghost predicate Included<K, V>(small: seq<Item<K, V>>, large: seq<Item<K, V>>, n: nat, m: nat) {
    && DistinctKeys(small) && DistinctKeys(large)
    && |small| <= n <= m && |large| <= m
    && Subsequence(small, large)
    && |large| - |small| <= m - n
  }

  lemma {:induction false} SubsequenceMembers<T>(a: seq<T>, b: seq<T>)
    requires Subsequence(a, b)
    ensures |a| <= |b| && forall x | x in a :: x in b
  {
    if a != [] {
      assert forall x :: x in b <==> x == b[0] || x in b[1..];
      if a[0] == b[0] {
        assert forall x :: x in a <==> x == a[0] || x in a[1..];
        SubsequenceMembers(a[1..], b[1..]);
      } else {
        SubsequenceMembers(a, b[1..]);
      }
    }
  }

  /** A longer list still contains the shorter one. */
  lemma {:induction false} SubsequenceSkip<T>(a: seq<T>, b: seq<T>, x: T)
    requires Subsequence(a, b)
    ensures Subsequence(a, [x] + b)
    decreases |b|, 1
  {
    assert ([x] + b)[1..] == b;
    if a != [] && a[0] == x {
      SubsequenceDrop(a, b);
    }
  }

  /** A list without its first element is still contained. */
  lemma {:induction false} SubsequenceDrop<T>(a: seq<T>, b: seq<T>)
    requires Subsequence(a, b) && a != []
    ensures Subsequence(a[1..], b)
    decreases |b|, 0
  {
    if a[0] != b[0] {
      SubsequenceDrop(a, b[1..]);
    }
    SubsequenceSkip(a[1..], b[1..], b[0]);
    assert [b[0]] + b[1..] == b;
  }

  /** Both lists may lose their first element together. */
  lemma SubsequenceTail<T>(a: seq<T>, b: seq<T>)
    requires Subsequence(a, b) && a != []
    ensures Subsequence(a[1..], b) && Subsequence(a[1..], b[1..])
  {
    SubsequenceDrop(a, b);
    if a[0] != b[0] {
      SubsequenceDrop(a, b[1..]);
    }
  }

  lemma {:induction false} SubsequenceAppend<T>(a: seq<T>, b: seq<T>, x: T)
    requires Subsequence(a, b)
    ensures Subsequence(a + [x], b + [x])
  {
    if a == [] {
      assert a + [x] == [x];
      SubsequenceLast(b, x);
    } else {
      assert (a + [x])[1..] == a[1..] + [x] && (b + [x])[1..] == b[1..] + [x];
      if a[0] == b[0] {
        SubsequenceAppend(a[1..], b[1..], x);
      } else {
        SubsequenceAppend(a, b[1..], x);
      }
    }
  }

  lemma {:induction false} SubsequenceLast<T>(b: seq<T>, x: T)
    ensures Subsequence([x], b + [x])
  {
    if b != [] {
      assert (b + [x])[1..] == b[1..] + [x];
      if b[0] != x {
        SubsequenceLast(b[1..], x);
      }
    }
  }

  lemma {:induction false} SubsequenceWithout<K, V>(a: seq<Item<K, V>>, b: seq<Item<K, V>>, k: K)
    requires Subsequence(a, b)
    ensures Subsequence(Without(a, k), Without(b, k))
  {
    if a != [] {
      if a[0] == b[0] {
        SubsequenceWithout(a[1..], b[1..], k);
      } else {
        SubsequenceWithout(a, b[1..], k);
        if b[0].key != k {
          SubsequenceSkip(Without(a, k), Without(b[1..], k), b[0]);
        }
      }
    }
  }

  /** Every hit in the smaller cache is the same hit in the larger. */
  lemma SameHit<K, V>(small: seq<Item<K, V>>, large: seq<Item<K, V>>, n: nat, m: nat, k: K)
    requires Included(small, large, n, m)
    ensures Lookup(small, k).Some? ==> Lookup(large, k) == Lookup(small, k)
  {
    SubsequenceMembers(small, large);
    if Lookup(small, k).Some? {
      LookupIsMembership(small, k, Lookup(small, k).value);
      LookupIsMembership(large, k, Lookup(small, k).value);
    }
  }

  lemma GetKeepsInclusion<K, V>(small: seq<Item<K, V>>, large: seq<Item<K, V>>, n: nat, m: nat, k: K)
    requires Included(small, large, n, m)
    ensures Included(After(small, Get(k), n), After(large, Get(k), m), n, m)
  {
    AfterKeepsInvariant(small, Get(k), n);
    AfterKeepsInvariant(large, Get(k), m);
    SameHit(small, large, n, m, k);
    WithoutFacts(small, k);
    WithoutFacts(large, k);
    SubsequenceWithout(small, large, k);
    if Lookup(small, k).Some? {
      SubsequenceAppend(Without(small, k), Without(large, k), Item(k, Lookup(small, k).value));
    } else if Lookup(large, k).Some? {
      SubsequenceExtend(small, Without(large, k), Item(k, Lookup(large, k).value));
    }
  }

  lemma {:induction false} SubsequenceExtend<T>(a: seq<T>, b: seq<T>, x: T)
    requires Subsequence(a, b)
    ensures Subsequence(a, b + [x])
  {
    if a != [] {
      assert (b + [x])[1..] == b[1..] + [x];
      if a[0] == b[0] {
        SubsequenceExtend(a[1..], b[1..], x);
      } else {
        SubsequenceExtend(a, b[1..], x);
      }
    }
  }

  /** The key step: when the larger cache evicts, the smaller is full and evicts too. */
  lemma SetKeepsInclusion<K, V>(small: seq<Item<K, V>>, large: seq<Item<K, V>>, n: nat, m: nat, k: K, v: V)
    requires Included(small, large, n, m)
    ensures Included(AfterSet(small, k, v, n), AfterSet(large, k, v, m), n, m)
  {
    AfterKeepsInvariant(small, Set(k, v), n);
    AfterKeepsInvariant(large, Set(k, v), m);
    WithoutFacts(small, k);
    WithoutFacts(large, k);
    SubsequenceWithout(small, large, k);
    SubsequenceMembers(small, large);
    KeyCarriesOver(small, large, k);
    var a, b := Without(small, k) + [Item(k, v)], Without(large, k) + [Item(k, v)];
    SubsequenceAppend(Without(small, k), Without(large, k), Item(k, v));
    if |a| > n {
      SubsequenceTail(a, b);
    }
  }

  lemma KeyCarriesOver<K, V>(small: seq<Item<K, V>>, large: seq<Item<K, V>>, k: K)
    requires forall x | x in small :: x in large
    ensures HasKey(small, k) ==> HasKey(large, k)
  {
    if HasKey(small, k) {
      var i :| 0 <= i < |small| && small[i].key == k;
      assert small[i] in large;
      var j :| 0 <= j < |large| && large[j] == small[i];
    }
  }

  lemma DeleteKeepsInclusion<K, V>(small: seq<Item<K, V>>, large: seq<Item<K, V>>, n: nat, m: nat, k: K)
    requires Included(small, large, n, m)
    ensures Included(Without(small, k), Without(large, k), n, m)
  {
    WithoutFacts(small, k);
    WithoutFacts(large, k);
    SubsequenceWithout(small, large, k);
    SubsequenceMembers(small, large);
    KeyCarriesOver(small, large, k);
  }

  lemma OpKeepsInclusion<K, V>(small: seq<Item<K, V>>, large: seq<Item<K, V>>, n: nat, m: nat, op: Op<K, V>)
    requires Included(small, large, n, m)
    ensures Included(After(small, op, n), After(large, op, m), n, m)
  {
    match op
    case Get(k) => GetKeepsInclusion(small, large, n, m, k);
    case Set(k, v) => SetKeepsInclusion(small, large, n, m, k, v);
    case Delete(k) => DeleteKeepsInclusion(small, large, n, m, k);
    case Clear =>
  }

  /** On every trace a cache of capacity n stays included in one of capacity m >= n. */
  lemma {:induction false} SmallerIsIncluded<K, V>(
    small: seq<Item<K, V>>, large: seq<Item<K, V>>, n: nat, m: nat, ops: seq<Op<K, V>>)
    requires Included(small, large, n, m)
    ensures Included(RunOps(small, ops, n), RunOps(large, ops, m), n, m)
    decreases |ops|
  {
    if ops != [] {
      var i := |ops| - 1;
      SmallerIsIncluded(small, large, n, m, ops[..i]);
      OpKeepsInclusion(RunOps(small, ops[..i], n), RunOps(large, ops[..i], m), n, m, ops[i]);
    }
  }

  /** From empty, after any trace: the smaller fits its capacity and all its hits are the larger's. */
  lemma HitsAreMonotone<K, V>(ops: seq<Op<K, V>>, n: nat, m: nat, k: K)
    requires n <= m
    ensures |RunOps<K, V>([], ops, n)| <= n
    ensures Lookup(RunOps([], ops, n), k).Some? ==> Lookup(RunOps([], ops, m), k) == Lookup(RunOps([], ops, n), k)
  {
    SmallerIsIncluded<K, V>([], [], n, m, ops);
    SameHit(RunOps([], ops, n), RunOps([], ops, m), n, m, k);
  }
}
