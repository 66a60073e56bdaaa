/** The fixed-window limiter and the read-through policy of the hosted registry reads. */
module ReadPolicy {
  const WINDOW_MS: int := 60_000
  const PER_IP_LIMIT: nat := 120
  const PER_KEY_LIMIT: nat := 600
  const CHAIN_READ_LIMIT: nat := 300
  const CACHE_TTL_MS: int := 30_000
  const STALE_TTL_MS: int := 300_000

  datatype Bucket = Bucket(startedAt: int, count: nat)

  // ---------------------------------------------------------------- the limiter

  /** One request against the buckets of a limiter: the new buckets, and whether it is granted. */
  function Take<K(==)>(buckets: map<K, Bucket>, id: K, limit: nat, now: int): (map<K, Bucket>, bool) {
    if id !in buckets || now - buckets[id].startedAt >= WINDOW_MS then (buckets[id := Bucket(now, 1)], true)
    else if buckets[id].count >= limit then (buckets, false)
    else (buckets[id := buckets[id].(count := buckets[id].count + 1)], true)
  }

  /** The same in the source's own form, on the limiter's map. */
  method TakeFrom<K(==)>(current: map<K, Bucket>, id: K, limit: nat, now: int)
    returns (buckets: map<K, Bucket>, granted: bool)
    ensures (buckets, granted) == Take(current, id, limit, now)
  {
    buckets := current;
    if id !in buckets || now - buckets[id].startedAt >= WINDOW_MS {
      buckets := buckets[id := Bucket(now, 1)];
      return buckets, true;
    }
    if buckets[id].count >= limit {
      return buckets, false;
    }
    buckets := buckets[id := Bucket(buckets[id].startedAt, buckets[id].count + 1)];
    return buckets, true;
  }

  datatype Request<K> = Request(id: K, now: int)

  function RunTakes<K(==)>(requests: seq<Request<K>>, limit: nat): map<K, Bucket> {
    if requests == [] then map[]
    else
      var n := |requests| - 1;
      Take(RunTakes(requests[..n], limit), requests[n].id, limit, requests[n].now).0
  }

  /** The i-th request is granted. */
  predicate Granted<K(==)>(requests: seq<Request<K>>, limit: nat, i: nat)
    requires i < |requests|
  {
    Take(RunTakes(requests[..i], limit), requests[i].id, limit, requests[i].now).1
  }

  /** How many requests for a key are granted at times in [from, to). */
  function GrantsIn<K(==)>(requests: seq<Request<K>>, limit: nat, id: K, from: int, to: int): nat {
    if requests == [] then 0
    else
      var n := |requests| - 1;
      GrantsIn(requests[..n], limit, id, from, to)
      + if requests[n].id == id && from <= requests[n].now < to && Granted(requests, limit, n) then 1 else 0
  }

  predicate ClockMonotone<K>(requests: seq<Request<K>>) {
    forall i, j | 0 <= i <= j < |requests| :: requests[i].now <= requests[j].now
  }

  lemma MonotonePrefix<K>(requests: seq<Request<K>>)
    requires ClockMonotone(requests) && requests != []
    ensures var n := |requests| - 1;
            && ClockMonotone(requests[..n])
            && (n > 0 ==> requests[..n][n - 1].now <= requests[n].now)
  {
  }

  /**
   The bucket of a key bounds its grants in an interval no longer than a window: a bucket
   opened before the interval spent its first grant outside it; one opened inside
   follows at most one such bucket.
   */
  lemma {:induction false} BucketBoundsGrants<K>(requests: seq<Request<K>>, limit: nat, id: K, from: int)
    requires limit >= 1 && ClockMonotone(requests)
    ensures var buckets := RunTakes(requests, limit);
            var grants := GrantsIn(requests, limit, id, from, from + WINDOW_MS);
            (requests != [] && requests[|requests| - 1].now < from ==> grants == 0) &&
            if id !in buckets then grants == 0
            else
              && 1 <= buckets[id].count <= limit
              && requests != [] && buckets[id].startedAt <= requests[|requests| - 1].now
              && (buckets[id].startedAt < from ==> grants <= buckets[id].count - 1)
              && (from <= buckets[id].startedAt < from + WINDOW_MS ==> grants <= limit - 1 + buckets[id].count)
              && grants <= 2 * limit - 1
  {
    if requests != [] {
      var n := |requests| - 1;
      BucketBoundsGrants(requests[..n], limit, id, from);
      MonotonePrefix(requests);
    }
  }

  /** No key is granted more than 2 * limit - 1 requests in any half-open minute. */
  lemma AtMostTwiceTheLimit<K>(requests: seq<Request<K>>, limit: nat, id: K, from: int)
    requires limit >= 1 && ClockMonotone(requests)
    ensures GrantsIn(requests, limit, id, from, from + WINDOW_MS) <= 2 * limit - 1
  {
    BucketBoundsGrants(requests, limit, id, from);
  }

  /** An open bucket counts the grants since it was opened. */
  lemma {:induction false} BucketCountsSince<K>(requests: seq<Request<K>>, limit: nat, id: K, to: int)
    requires limit >= 1 && ClockMonotone(requests)
    requires requests != [] ==> requests[|requests| - 1].now < to
    ensures var buckets := RunTakes(requests, limit);
            id in buckets ==>
              && requests != [] && buckets[id].startedAt <= requests[|requests| - 1].now
              && buckets[id].count <= GrantsIn(requests, limit, id, buckets[id].startedAt, to)
  {
    if requests != [] {
      var n := |requests| - 1;
      MonotonePrefix(requests);
      BucketCountsSince(requests[..n], limit, id, to);
    }
  }

  lemma {:induction false} GrantsGrow<K>(requests: seq<Request<K>>, limit: nat, id: K, from: int, earlier: int, to: int)
    requires earlier <= from
    ensures GrantsIn(requests, limit, id, from, to) <= GrantsIn(requests, limit, id, earlier, to)
  {
    if requests != [] {
      GrantsGrow(requests[..|requests| - 1], limit, id, from, earlier, to);
    }
  }

  /** A request is refused only when the whole limit was granted to its key within the last minute. */
  lemma RefusedOnlyWhenSpent<K>(requests: seq<Request<K>>, limit: nat, id: K, now: int)
    requires limit >= 1 && ClockMonotone(requests)
    requires requests != [] ==> requests[|requests| - 1].now <= now
    requires !Take(RunTakes(requests, limit), id, limit, now).1
    ensures GrantsIn(requests, limit, id, now - 59_999, now + 1) >= limit
  {
    var bucket := RunTakes(requests, limit)[id];
    BucketCountsSince(requests, limit, id, now + 1);
    GrantsGrow(requests, limit, id, bucket.startedAt, now - 59_999, now + 1);
  }

  // ---------------------------------------------------------------- the bound is attained

  function Repeat<K>(id: K, now: int, n: nat): (r: seq<Request<K>>)
    ensures |r| == n && forall i | 0 <= i < n :: r[i] == Request(id, now)
  {
    if n == 0 then [] else Repeat(id, now, n - 1) + [Request(id, now)]
  }

  /** A request with room in its open bucket is granted. */
  lemma OneMoreGrant<K>(before: seq<Request<K>>, limit: nat, id: K, now: int, from: int)
    requires var buckets := RunTakes(before, limit);
             id in buckets && now - buckets[id].startedAt < WINDOW_MS && buckets[id].count < limit
    requires from <= now < from + WINDOW_MS
    ensures var all := before + [Request(id, now)];
            && RunTakes(all, limit)
               == RunTakes(before, limit)[id := RunTakes(before, limit)[id].(count := RunTakes(before, limit)[id].count + 1)]
            && GrantsIn(all, limit, id, from, from + WINDOW_MS)
               == GrantsIn(before, limit, id, from, from + WINDOW_MS) + 1
  {
    var all := before + [Request(id, now)];
    assert all[..|all| - 1] == before;
  }

  /** Requests within the room left in an open bucket are all granted. */
  lemma {:induction false} RoomIsGranted<K>(before: seq<Request<K>>, limit: nat, id: K, now: int, n: nat, from: int)
    requires var buckets := RunTakes(before, limit);
             id in buckets && now - buckets[id].startedAt < WINDOW_MS && buckets[id].count + n <= limit
    requires from <= now < from + WINDOW_MS
    ensures var all := before + Repeat(id, now, n);
            && id in RunTakes(all, limit)
            && RunTakes(all, limit)[id]
               == Bucket(RunTakes(before, limit)[id].startedAt, RunTakes(before, limit)[id].count + n)
            && GrantsIn(all, limit, id, from, from + WINDOW_MS)
               == GrantsIn(before, limit, id, from, from + WINDOW_MS) + n
  {
    if n == 0 {
      assert before + Repeat(id, now, 0) == before;
    } else {
      RoomIsGranted(before, limit, id, now, n - 1, from);
      var shorter := before + Repeat(id, now, n - 1);
      assert before + Repeat(id, now, n) == shorter + [Request(id, now)];
      OneMoreGrant(shorter, limit, id, now, from);
    }
  }

  /** A request that opens a new bucket is granted. */
  lemma OpeningIsGranted<K>(before: seq<Request<K>>, limit: nat, id: K, now: int, from: int)
    requires var buckets := RunTakes(before, limit);
             id in buckets ==> now - buckets[id].startedAt >= WINDOW_MS
    ensures var all := before + [Request(id, now)];
            && RunTakes(all, limit) == RunTakes(before, limit)[id := Bucket(now, 1)]
            && GrantsIn(all, limit, id, from, from + WINDOW_MS)
               == GrantsIn(before, limit, id, from, from + WINDOW_MS) + if from <= now < from + WINDOW_MS then 1 else 0
  {
    var all := before + [Request(id, now)];
    assert all[..|all| - 1] == before;
  }

  lemma MonotoneRepeat<K>(before: seq<Request<K>>, id: K, now: int, n: nat)
    requires ClockMonotone(before) && (before != [] ==> before[|before| - 1].now <= now)
    ensures var all := before + Repeat(id, now, n);
            ClockMonotone(all) && (all != [] ==> all[|all| - 1].now <= now)
  {
    assert forall i | 0 <= i < |before| :: before[i].now <= now;
  }

  /** A key whose last bucket has run out can spend a whole new one at once. */
  lemma FreshBucketFills<K>(before: seq<Request<K>>, limit: nat, id: K, now: int, from: int)
    returns (requests: seq<Request<K>>)
    requires limit >= 1 && ClockMonotone(before) && (before != [] ==> before[|before| - 1].now <= now)
    requires var buckets := RunTakes(before, limit);
             id in buckets ==> now - buckets[id].startedAt >= WINDOW_MS
    requires from <= now < from + WINDOW_MS
    ensures ClockMonotone(requests)
    ensures GrantsIn(requests, limit, id, from, from + WINDOW_MS)
         == GrantsIn(before, limit, id, from, from + WINDOW_MS) + limit
  {
    var filling := before + [Request(id, now)];
    BurstIsGranted(before, filling, limit, id, now, from);
    MonotoneRepeat(before, id, now, 1);
    assert Repeat(id, now, 1) == [Request(id, now)];
    MonotoneRepeat(filling, id, now, limit - 1);
    requests := filling + Repeat(id, now, limit - 1);
  }

  lemma BurstIsGranted<K>(before: seq<Request<K>>, filling: seq<Request<K>>, limit: nat, id: K, now: int, from: int)
    requires limit >= 1 && filling == before + [Request(id, now)]
    requires var buckets := RunTakes(before, limit);
             id in buckets ==> now - buckets[id].startedAt >= WINDOW_MS
    requires from <= now < from + WINDOW_MS
    ensures GrantsIn(filling + Repeat(id, now, limit - 1), limit, id, from, from + WINDOW_MS)
         == GrantsIn(before, limit, id, from, from + WINDOW_MS) + limit
  {
    OpeningIsGranted(before, limit, id, now, from);
    RoomIsGranted(filling, limit, id, now, limit - 1, from);
  }

  /** One request at time zero opens a bucket, outside the interval. */
  lemma FirstRequest<K>(limit: nat, id: K, from: int) returns (requests: seq<Request<K>>)
    requires from > 0
    ensures requests == [Request(id, 0)] && RunTakes(requests, limit) == map[id := Bucket(0, 1)]
    ensures GrantsIn(requests, limit, id, from, from + WINDOW_MS) == 0
  {
    requests := [Request(id, 0)];
    assert requests[..0] == [];
    assert GrantsIn(requests[..0], limit, id, from, from + WINDOW_MS) == 0;
  }

  /** A bucket opened at time zero, and filled just before it runs out. */
  lemma LateFill<K>(limit: nat, id: K, from: int) returns (requests: seq<Request<K>>)
    requires limit >= 1 && 0 < from < WINDOW_MS
    ensures ClockMonotone(requests) && (requests != [] ==> requests[|requests| - 1].now <= from)
    ensures id in RunTakes(requests, limit) && RunTakes(requests, limit)[id] == Bucket(0, limit)
    ensures GrantsIn(requests, limit, id, from, from + WINDOW_MS) == limit - 1
  {
    var first := FirstRequest(limit, id, from);
    RoomIsGranted(first, limit, id, from, limit - 1, from);
    MonotoneRepeat(first, id, from, limit - 1);
    requests := first + Repeat(id, from, limit - 1);
  }

  /** For every limit some trace reaches the bound: one grant just before the interval, the rest in two bursts. */
  lemma BoundIsAttained<K>(limit: nat, id: K) returns (requests: seq<Request<K>>)
    requires limit >= 1
    ensures ClockMonotone(requests)
    ensures GrantsIn(requests, limit, id, WINDOW_MS - 1, WINDOW_MS - 1 + WINDOW_MS) == 2 * limit - 1
  {
    var before := LateFill<K>(limit, id, WINDOW_MS - 1);
    requests := FreshBucketFills(before, limit, id, WINDOW_MS, WINDOW_MS - 1);
  }

  // ---------------------------------------------------------------- aligned minutes

  function Minute(now: int): (m: int)
    ensures m * WINDOW_MS <= now < (m + 1) * WINDOW_MS
  {
    now / WINDOW_MS
  }

  /** Every request asks for the bucket of the minute it falls in. */
  predicate AskForOwnMinute(requests: seq<Request<int>>) {
    forall r | r in requests :: r.id == Minute(r.now)
  }

  /** Within its own minute a bucket never expires, so it counts every grant of that minute. */
  lemma {:induction false} MinuteBucketCounts(requests: seq<Request<int>>, limit: nat, minute: int)
    requires limit >= 1 && ClockMonotone(requests) && AskForOwnMinute(requests)
    ensures var buckets := RunTakes(requests, limit);
            var grants := GrantsIn(requests, limit, minute, minute * WINDOW_MS, (minute + 1) * WINDOW_MS);
            if minute !in buckets then grants == 0
            else
              && minute * WINDOW_MS <= buckets[minute].startedAt < (minute + 1) * WINDOW_MS
              && grants == buckets[minute].count <= limit
  {
    if requests != [] {
      var n := |requests| - 1;
      assert forall r | r in requests[..n] :: r in requests;
      assert requests[n] in requests && requests[n].id == Minute(requests[n].now);
      MonotonePrefix(requests);
      MinuteBucketCounts(requests[..n], limit, minute);
    }
  }

  /** At most 300 chain reads begin in any aligned minute. */
  lemma ChainReadsPerMinute(requests: seq<Request<int>>, minute: int)
    requires ClockMonotone(requests) && AskForOwnMinute(requests)
    ensures GrantsIn(requests, CHAIN_READ_LIMIT, minute, minute * WINDOW_MS, (minute + 1) * WINDOW_MS) <= CHAIN_READ_LIMIT
  {
    MinuteBucketCounts(requests, CHAIN_READ_LIMIT, minute);
  }
}
