/** The stale-while-revalidate cache, over all interleavings of reads and fetch completions. */
module SwrCache {
  import opened Results

  datatype Entry<T> = Entry(value: T, fetchedAt: int)

  /** The two fields that the methods assign; `refreshing` is set while a background refresh exists. */
  datatype Cache<T> = Cache(entry: Option<Entry<T>>, refreshing: bool)

  /** How a read proceeds up to its first await. */
  datatype Decision<T> = ServeFresh(value: T) | ServeStale(value: T, startRefresh: bool) | MustFetch

  function Get<T>(c: Cache<T>, ttlMs: int, staleMs: int, now: int): (Cache<T>, Decision<T>) {
    match c.entry
    case None => (c, MustFetch)
    case Some(e) =>
      var age := now - e.fetchedAt;
      if age <= ttlMs then (c, ServeFresh(e.value))
      else if age <= ttlMs + staleMs then (c.(refreshing := true), ServeStale(e.value, !c.refreshing))
      else (c, MustFetch)
  }

  class SwrCache<T> {
    var entry: Option<Entry<T>>
    var refreshing: bool
    const ttlMs: int
    const staleMs: int

    constructor (ttlMs: int, staleMs: int)
      ensures C() == Cache(None, false) && this.ttlMs == ttlMs && this.staleMs == staleMs
    {
      this.ttlMs, this.staleMs := ttlMs, staleMs;
      entry, refreshing := None, false;
    }

    ghost function C(): Cache<T>
      reads this
    {
      Cache(entry, refreshing)
    }

    method StartGet(now: int) returns (d: Decision<T>)
      modifies this
      ensures (C(), d) == Get(old(C()), ttlMs, staleMs, now)
    {
      if entry.Some? {
        var age := now - entry.value.fetchedAt;
        if age <= ttlMs {
          return ServeFresh(entry.value.value);
        }
        if age <= ttlMs + staleMs {
          var start := TriggerBackgroundRefresh();
          return ServeStale(entry.value.value, start);
        }
      }
      return MustFetch;
    }

    method TriggerBackgroundRefresh() returns (started: bool)
      modifies this`refreshing
      ensures refreshing && started == !old(refreshing)
    {
      if refreshing {
        return false;
      }
      refreshing := true;
      return true;
    }

    /** The part of refreshNow after its await. */
    method StoreFetched(value: T, now: int)
      modifies this`entry
      ensures C() == old(C()).(entry := Some(Entry(value, now)))
    {
      entry := Some(Entry(value, now));
    }

    method RefreshSettled()
      modifies this`refreshing
      ensures C() == old(C()).(refreshing := false)
    {
      refreshing := false;
    }
  }

  // ---------------------------------------------------------------- interleavings

  /** A result handed to a caller, and when the value in it was fetched. */
  datatype Served<T> = Served(value: T, stale: bool, at: int, fetchedAt: int)

  /**
   `running` background fetches are in flight and `settled` ones have finished but not yet
   been cleared; `blocking` counts reads awaiting their own fetch. `completed` records
   every finished fetch.
   */
  datatype World<T> = World(
    cache: Cache<T>,
    running: int,
    settled: int,
    blocking: nat,
    now: int,
    completed: seq<Entry<T>>,
    served: seq<Served<T>>)

  datatype Event<T> =
    | Read(now: int)
    | BlockingDone(value: T, now: int)
    | BlockingFailed
    | BackgroundDone(value: T, now: int)
    | BackgroundFailed
    | BackgroundCleared

  /** The event can happen: its fetch is outstanding, and the clock does not run backwards. */
  predicate Possible<T>(w: World<T>, e: Event<T>) {
    match e
    case Read(now) => now >= w.now
    case BlockingDone(_, now) => w.blocking > 0 && now >= w.now
    case BlockingFailed => w.blocking > 0
    case BackgroundDone(_, now) => w.running > 0 && now >= w.now
    case BackgroundFailed => w.running > 0
    case BackgroundCleared => w.settled > 0
  }

  function Next<T>(w: World<T>, e: Event<T>, ttlMs: int, staleMs: int): World<T>
    requires Possible(w, e)
  {
    match e
    case Read(now) =>
      var (c, d) := Get(w.cache, ttlMs, staleMs, now);
      (match d
       case ServeFresh(v) =>
         w.(now := now, served := w.served + [Served(v, false, now, w.cache.entry.value.fetchedAt)])
       case ServeStale(v, start) =>
         w.(now := now, cache := c, running := if start then w.running + 1 else w.running,
            served := w.served + [Served(v, true, now, w.cache.entry.value.fetchedAt)])
       case MustFetch => w.(now := now, blocking := w.blocking + 1))
    case BlockingDone(v, now) =>
      w.(now := now, blocking := w.blocking - 1, cache := w.cache.(entry := Some(Entry(v, now))),
         completed := w.completed + [Entry(v, now)], served := w.served + [Served(v, false, now, now)])
    case BlockingFailed => w.(blocking := w.blocking - 1)
    case BackgroundDone(v, now) =>
      w.(now := now, running := w.running - 1, settled := w.settled + 1,
         cache := w.cache.(entry := Some(Entry(v, now))), completed := w.completed + [Entry(v, now)])
    case BackgroundFailed => w.(running := w.running - 1, settled := w.settled + 1)
    case BackgroundCleared => w.(settled := w.settled - 1, cache := w.cache.(refreshing := false))
  }

  ghost predicate Run<T>(w: World<T>, events: seq<Event<T>>, ttlMs: int, staleMs: int, end: World<T>)
    decreases |events|
  {
    if events == [] then end == w
    else Possible(w, events[0]) && Run(Next(w, events[0], ttlMs, staleMs), events[1..], ttlMs, staleMs, end)
  }

  function Start<T>(now: int): World<T> {
    World(Cache(None, false), 0, 0, 0, now, [], [])
  }

  /** The result is truly fresh or truly stale as marked, and its value came from a finished fetch. */
  predicate Honest<T(==)>(s: Served<T>, completed: seq<Entry<T>>, ttlMs: int, staleMs: int) {
    && Entry(s.value, s.fetchedAt) in completed
    && s.fetchedAt <= s.at
    && (if s.stale then ttlMs < s.at - s.fetchedAt <= ttlMs + staleMs
        else s.at == s.fetchedAt || s.at - s.fetchedAt <= ttlMs)
  }

  ghost predicate Inv<T>(w: World<T>, ttlMs: int, staleMs: int) {
    && 0 <= w.running && 0 <= w.settled && w.running + w.settled <= 1
    && (w.cache.refreshing <==> w.running + w.settled == 1)
    && (w.cache.entry.Some? ==> w.cache.entry.value in w.completed && w.cache.entry.value.fetchedAt <= w.now)
    && (forall s | s in w.served :: Honest(s, w.completed, ttlMs, staleMs))
  }

  /** An entry is never lost, and never replaced by one fetched earlier; finished fetches stay on record. */
  ghost predicate Progress<T>(w: World<T>, v: World<T>) {
    && (w.cache.entry.Some? ==>
          v.cache.entry.Some? && w.cache.entry.value.fetchedAt <= v.cache.entry.value.fetchedAt)
    && w.now <= v.now
  }

  lemma EventKeepsInv<T>(w: World<T>, e: Event<T>, ttlMs: int, staleMs: int)
    requires Inv(w, ttlMs, staleMs) && Possible(w, e)
    ensures Inv(Next(w, e, ttlMs, staleMs), ttlMs, staleMs) && Progress(w, Next(w, e, ttlMs, staleMs))
  {
    var v := Next(w, e, ttlMs, staleMs);
    forall s | s in v.served ensures Honest(s, v.completed, ttlMs, staleMs) {
      if s in w.served {
        assert Honest(s, w.completed, ttlMs, staleMs);
      } else {
        assert s == v.served[|v.served| - 1];
      }
    }
  }

  /**
   On every interleaving: fresh results are at most the time-to-live old or just fetched,
   stale ones are older than that but within the stale window, at most one background
   refresh exists, and neither a failure nor anything else loses or ages the entry.
   */
  lemma {:induction false} EveryResultIsHonest<T>(
    w: World<T>, events: seq<Event<T>>, ttlMs: int, staleMs: int, end: World<T>)
    requires Inv(w, ttlMs, staleMs) && Run(w, events, ttlMs, staleMs, end)
    ensures Inv(end, ttlMs, staleMs) && Progress(w, end)
    decreases |events|
  {
    if events != [] {
      EventKeepsInv(w, events[0], ttlMs, staleMs);
      EveryResultIsHonest(Next(w, events[0], ttlMs, staleMs), events[1..], ttlMs, staleMs, end);
    }
  }

  lemma FromTheStart<T>(now: int, events: seq<Event<T>>, ttlMs: int, staleMs: int, end: World<T>)
    requires Run(Start(now), events, ttlMs, staleMs, end)
    ensures forall s | s in end.served :: Honest(s, end.completed, ttlMs, staleMs)
    ensures end.running + end.settled <= 1
  {
    EveryResultIsHonest(Start(now), events, ttlMs, staleMs, end);
  }

  // ---------------------------------------------------------------- what a read does

  /** The cache holds the fetch that finished last, whether a read awaited it or it ran in the background. */
  lemma {:induction false} HoldsTheLatestFetch<T>(
    w: World<T>, events: seq<Event<T>>, ttlMs: int, staleMs: int, end: World<T>)
    requires Inv(w, ttlMs, staleMs) && Run(w, events, ttlMs, staleMs, end) && HoldsLatest(w)
    ensures HoldsLatest(end)
    decreases |events|
  {
    if events != [] {
      EventKeepsInv(w, events[0], ttlMs, staleMs);
      HoldsTheLatestFetch(Next(w, events[0], ttlMs, staleMs), events[1..], ttlMs, staleMs, end);
    }
  }

  ghost predicate HoldsLatest<T>(w: World<T>) {
    w.cache.entry == if w.completed == [] then None else Some(w.completed[|w.completed| - 1])
  }

  /** Time since the last finished fetch. */
  function Age<T>(w: World<T>, now: int): int
    requires w.completed != []
  {
    now - w.completed[|w.completed| - 1].fetchedAt
  }

  /** Is a background refresh in flight, or settled and not yet cleared? */
  predicate Refreshing<T>(w: World<T>) {
    w.running + w.settled > 0
  }

  /**
   After any interleaving a read is answered at once with the value of the last finished
   fetch while that is within the time-to-live or the stale window after it, as fresh in the
   first and as stale in the second; it begins a background refresh exactly when it is answered with a stale
   value and none exists; and it awaits a fetch of its own exactly when there is nothing to
   answer with.
   */
  lemma ReadsExactly<T>(start: int, events: seq<Event<T>>, ttlMs: int, staleMs: int, w: World<T>, now: int)
    requires Run(Start(start), events, ttlMs, staleMs, w) && now >= w.now
    ensures var v := Next(w, Read(now), ttlMs, staleMs);
            if w.completed != [] && (Age(w, now) <= ttlMs || Age(w, now) <= ttlMs + staleMs) then
              var (last, stale) := (w.completed[|w.completed| - 1], Age(w, now) > ttlMs);
              && v.served == w.served + [Served(last.value, stale, now, last.fetchedAt)]
              && v.running == w.running + (if stale && !Refreshing(w) then 1 else 0)
              && (stale ==> Refreshing(v))
              && v.blocking == w.blocking
            else v.served == w.served && v.running == w.running && v.blocking == w.blocking + 1
    ensures Next(w, Read(now), ttlMs, staleMs).completed == w.completed
  {
    EveryResultIsHonest(Start(start), events, ttlMs, staleMs, w);
    HoldsTheLatestFetch(Start(start), events, ttlMs, staleMs, w);
  }
}
