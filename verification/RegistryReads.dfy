/**
 The read-through policy in front of the chain: a request passes two limiters, is answered
 from a fresh cache entry, or takes one of the minute's chain reads and loads.
 Loading is asynchronous, so a request is a step that begins it and a step that completes
 its load, with other requests in between.
 */
module RegistryReads {
  import opened ReadPolicy

  datatype Cached<B> = Cached(body: B, cachedAt: int)

  datatype Policy<B> = Policy(
    ipBuckets: map<string, Bucket>,
    keyBuckets: map<string, Bucket>,
    chainReads: map<int, Bucket>,
    cache: map<string, Cached<B>>)

  datatype Call = Call(ip: string, apiKey: string, cacheKey: string)

  datatype Reply<B> =
    | IpLimited
    | KeyLimited
    | Live(body: B)
    | Stale(body: B)
    | BudgetExhausted
    | Loading

  /** What a load hands back: a body to cache, or a finished response passed on as it is. */
  datatype Loaded<B> = Body(body: B) | Finished(response: B)

  function Begin<B>(p: Policy<B>, call: Call, now: int): (Policy<B>, Reply<B>) {
    var (ips, ipOk) := Take(p.ipBuckets, call.ip, PER_IP_LIMIT, now);
    var p1 := p.(ipBuckets := ips);
    if !ipOk then (p1, IpLimited)
    else
      var (keys, keyOk) :=
        if call.apiKey == "" then (p1.keyBuckets, true) else Take(p1.keyBuckets, call.apiKey, PER_KEY_LIMIT, now);
      var p2 := p1.(keyBuckets := keys);
      if !keyOk then (p2, KeyLimited)
      else ReadThrough(p2, call.cacheKey, now)
  }

  predicate Younger<B>(p: Policy<B>, cacheKey: string, now: int, age: int) {
    cacheKey in p.cache && now - p.cache[cacheKey].cachedAt < age
  }

  function ReadThrough<B>(p: Policy<B>, cacheKey: string, now: int): (Policy<B>, Reply<B>) {
    if Younger(p, cacheKey, now, CACHE_TTL_MS) then (p, Live(p.cache[cacheKey].body))
    else
      var (taken, readOk) := Take(p.chainReads, Minute(now), CHAIN_READ_LIMIT, now);
      var q := p.(chainReads := taken);
      if readOk then (q, Loading)
      else if Younger(p, cacheKey, now, STALE_TTL_MS) then (q, Stale(p.cache[cacheKey].body))
      else (q, BudgetExhausted)
  }

  /** A body is cached under the time its request began. */
  function Complete<B>(p: Policy<B>, cacheKey: string, startedAt: int, loaded: Loaded<B>): Policy<B> {
    if loaded.Finished? then p else p.(cache := p.cache[cacheKey := Cached(loaded.body, startedAt)])
  }

  class RegistryReadPolicy<B> {
    var ipBuckets: map<string, Bucket>
    var keyBuckets: map<string, Bucket>
    var chainReads: map<int, Bucket>
    var cache: map<string, Cached<B>>

    ghost function State(): Policy<B>
      reads this
    {
      Policy(ipBuckets, keyBuckets, chainReads, cache)
    }

    constructor ()
      ensures State() == Policy(map[], map[], map[], map[])
    {
      ipBuckets, keyBuckets, chainReads, cache := map[], map[], map[], map[];
    }

    /** Everything up to the awaited load. */
    method BeginRead(call: Call, now: int) returns (reply: Reply<B>)
      modifies this
      ensures (State(), reply) == Begin(old(State()), call, now)
    {
      var granted: bool;
      ipBuckets, granted := TakeFrom(ipBuckets, call.ip, PER_IP_LIMIT, now);
      if !granted {
        return IpLimited;
      }
      if call.apiKey != "" {
        keyBuckets, granted := TakeFrom(keyBuckets, call.apiKey, PER_KEY_LIMIT, now);
        if !granted {
          return KeyLimited;
        }
      }
      if call.cacheKey in cache && now - cache[call.cacheKey].cachedAt < CACHE_TTL_MS {
        return Live(cache[call.cacheKey].body);
      }
      chainReads, granted := TakeFrom(chainReads, Minute(now), CHAIN_READ_LIMIT, now);
      if !granted {
        if call.cacheKey in cache && now - cache[call.cacheKey].cachedAt < STALE_TTL_MS {
          return Stale(cache[call.cacheKey].body);
        }
        return BudgetExhausted;
      }
      return Loading;
    }

    /** Everything after the awaited load. */
    method CompleteRead(cacheKey: string, startedAt: int, loaded: Loaded<B>) returns (body: B)
      modifies this
      ensures State() == Complete(old(State()), cacheKey, startedAt, loaded)
      ensures body == if loaded.Body? then loaded.body else loaded.response
    {
      match loaded
      case Finished(response) =>
        body := response;
      case Body(b) =>
        cache := cache[cacheKey := Cached(b, startedAt)];
        body := b;
    }
  }

  // ---------------------------------------------------------------- interleaved requests

  datatype Load = Load(cacheKey: string, startedAt: int)

  datatype Completion<B> = Completion(load: Load, body: B)

  datatype Answer<B> = Answer(cacheKey: string, body: B, stale: bool, askedAt: int)

  /**
   `running` loads are in flight; `begun`, `completed` and `answers` record every load
   begun, every body loaded and every body sent; `asked` every request for a chain read.
   */
  datatype World<B> = World(
    policy: Policy<B>,
    now: int,
    running: seq<Load>,
    begun: seq<Load>,
    completed: seq<Completion<B>>,
    answers: seq<Answer<B>>,
    asked: seq<Request<int>>)

  datatype Event<B> =
    | Arrives(call: Call, now: int)
    | LoadDone(i: nat, loaded: Loaded<B>)
    | LoadFailed(i: nat)

  predicate Possible<B>(w: World<B>, e: Event<B>) {
    match e
    case Arrives(_, now) => w.now <= now
    case LoadDone(i, _) => i < |w.running|
    case LoadFailed(i) => i < |w.running|
  }

  function Next<B>(w: World<B>, e: Event<B>): World<B>
    requires Possible(w, e)
  {
    match e
    case Arrives(call, now) =>
      var (p, reply) := Begin(w.policy, call, now);
      var v := w.(policy := p, now := now);
      var ask := v.(asked := w.asked + [Request(Minute(now), now)]);
      (match reply
       case IpLimited | KeyLimited => v
       case Live(body) => v.(answers := w.answers + [Answer(call.cacheKey, body, false, now)])
       case Stale(body) => ask.(answers := w.answers + [Answer(call.cacheKey, body, true, now)])
       case BudgetExhausted => ask
       case Loading =>
         var load := Load(call.cacheKey, now);
         ask.(running := w.running + [load], begun := w.begun + [load]))
    case LoadDone(i, loaded) =>
      var load := w.running[i];
      var v := w.(policy := Complete(w.policy, load.cacheKey, load.startedAt, loaded),
                  running := w.running[..i] + w.running[i + 1..]);
      if loaded.Finished? then v
      else v.(completed := w.completed + [Completion(load, loaded.body)],
              answers := w.answers + [Answer(load.cacheKey, loaded.body, false, load.startedAt)])
    case LoadFailed(i) => w.(running := w.running[..i] + w.running[i + 1..])
  }

  ghost predicate Run<B>(w: World<B>, events: seq<Event<B>>, end: World<B>)
    decreases |events|
  {
    if events == [] then end == w
    else Possible(w, events[0]) && Run(Next(w, events[0]), events[1..], end)
  }

  function Start<B>(now: int): World<B> {
    World(Policy(map[], map[], map[], map[]), now, [], [], [], [], [])
  }

  // ---------------------------------------------------------------- what every run keeps

  function LoadsIn(begun: seq<Load>, minute: int): nat {
    if begun == [] then 0
    else
      var last := begun[|begun| - 1];
      LoadsIn(begun[..|begun| - 1], minute) + if Minute(last.startedAt) == minute then 1 else 0
  }

  /**
   The body was loaded for the same key by a load begun no later than the request (for a
   request that loaded, by its own), less than 30 seconds before it for a live answer and less
   than 5 minutes for a stale one, which is sent only once the minute's chain reads are spent.
   */
  ghost predicate Honest<B>(a: Answer<B>, w: World<B>) {
    && (exists c :: c in w.completed && c.load.cacheKey == a.cacheKey && c.body == a.body
          && c.load.startedAt <= a.askedAt < c.load.startedAt + if a.stale then STALE_TTL_MS else CACHE_TTL_MS)
    && (a.stale ==> LoadsIn(w.begun, Minute(a.askedAt)) == CHAIN_READ_LIMIT)
  }

  ghost predicate CacheIsLoaded<B>(w: World<B>) {
    forall k | k in w.policy.cache ::
      && w.policy.cache[k].cachedAt <= w.now
      && Completion(Load(k, w.policy.cache[k].cachedAt), w.policy.cache[k].body) in w.completed
  }

  ghost predicate ReadsAreCounted<B>(w: World<B>) {
    && ClockMonotone(w.asked) && AskForOwnMinute(w.asked)
    && (w.asked != [] ==> w.asked[|w.asked| - 1].now <= w.now)
    && w.policy.chainReads == RunTakes(w.asked, CHAIN_READ_LIMIT)
    && forall m :: LoadsIn(w.begun, m)
                   == GrantsIn(w.asked, CHAIN_READ_LIMIT, m, m * WINDOW_MS, (m + 1) * WINDOW_MS)
  }

  ghost predicate Inv<B>(w: World<B>) {
    && CacheIsLoaded(w)
    && ReadsAreCounted(w)
    && (forall load | load in w.running :: load.startedAt <= w.now)
    && forall a | a in w.answers :: Honest(a, w)
  }

  lemma LoadsWithinBudget<B>(w: World<B>, minute: int)
    requires ReadsAreCounted(w)
    ensures LoadsIn(w.begun, minute) <= CHAIN_READ_LIMIT
  {
    ChainReadsPerMinute(w.asked, minute);
  }

  /** A chain read asked for is granted exactly while the minute's loads are below the limit. */
  lemma GrantMeansRoom<B>(w: World<B>, now: int)
    requires ReadsAreCounted(w) && w.now <= now
    ensures Take(w.policy.chainReads, Minute(now), CHAIN_READ_LIMIT, now).1
        <==> LoadsIn(w.begun, Minute(now)) < CHAIN_READ_LIMIT
  {
    MinuteBucketCounts(w.asked, CHAIN_READ_LIMIT, Minute(now));
  }

  lemma AskingIsCounted<B>(w: World<B>, v: World<B>, load: Load)
    requires ReadsAreCounted(w) && w.now <= load.startedAt <= v.now
    requires v.asked == w.asked + [Request(Minute(load.startedAt), load.startedAt)]
    requires var (taken, granted) := Take(w.policy.chainReads, Minute(load.startedAt), CHAIN_READ_LIMIT, load.startedAt);
             v.policy.chainReads == taken && v.begun == if granted then w.begun + [load] else w.begun
    ensures ReadsAreCounted(v)
  {
    var n := |w.asked|;
    assert v.asked[..n] == w.asked;
    assert v.begun == w.begun + [load] ==> v.begun[..|w.begun|] == w.begun;
    forall m
      ensures LoadsIn(v.begun, m)
           == GrantsIn(v.asked, CHAIN_READ_LIMIT, m, m * WINDOW_MS, (m + 1) * WINDOW_MS)
    {
      assert LoadsIn(w.begun, m) == GrantsIn(w.asked, CHAIN_READ_LIMIT, m, m * WINDOW_MS, (m + 1) * WINDOW_MS);
      assert Granted(v.asked, CHAIN_READ_LIMIT, n)
          == Take(w.policy.chainReads, Minute(load.startedAt), CHAIN_READ_LIMIT, load.startedAt).1;
    }
  }

  /** Answers stay honest as the record grows, since a spent minute stays spent. */
  lemma HonestyLasts<B>(a: Answer<B>, w: World<B>, v: World<B>)
    requires Honest(a, w) && ReadsAreCounted(v)
    requires forall c | c in w.completed :: c in v.completed
    requires v.begun == w.begun || (exists load :: v.begun == w.begun + [load])
    ensures Honest(a, v)
  {
    var m := Minute(a.askedAt);
    LoadsWithinBudget(v, m);
    if v.begun != w.begun {
      assert v.begun[..|v.begun| - 1] == w.begun;
    }
  }

  /** An answer from the cache is honest; a stale one finds the minute's budget spent. */
  lemma CachedAnswerIsHonest<B>(w: World<B>, call: Call, now: int)
    requires CacheIsLoaded(w) && ReadsAreCounted(w) && w.now <= now
    ensures var reply := Begin(w.policy, call, now).1;
            && (reply.Live? ==> Honest(Answer(call.cacheKey, reply.body, false, now), w))
            && (reply.Stale? ==> Honest(Answer(call.cacheKey, reply.body, true, now), w))
  {
    var reply := Begin(w.policy, call, now).1;
    if reply.Live? || reply.Stale? {
      GrantMeansRoom(w, now);
      LoadsWithinBudget(w, Minute(now));
      var c := w.policy.cache[call.cacheKey];
      assert Completion(Load(call.cacheKey, c.cachedAt), c.body) in w.completed;
    }
  }

  lemma ArrivalIsCounted<B>(w: World<B>, call: Call, now: int)
    requires ReadsAreCounted(w) && w.now <= now
    ensures ReadsAreCounted(Next(w, Arrives(call, now)))
  {
    var v := Next(w, Arrives(call, now));
    if v.asked != w.asked {
      AskingIsCounted(w, v, Load(call.cacheKey, now));
    }
  }

  /** What an arrival leaves alone, and the little it may add. */
  lemma ArrivalAdds<B>(w: World<B>, call: Call, now: int)
    requires w.now <= now
    ensures var v := Next(w, Arrives(call, now));
            && v.policy.cache == w.policy.cache && v.completed == w.completed && v.now == now
            && (v.running == w.running || v.running == w.running + [Load(call.cacheKey, now)])
            && (v.begun == w.begun || v.begun == w.begun + [Load(call.cacheKey, now)])
  {
  }

  lemma ArrivalAnswers<B>(w: World<B>, call: Call, now: int)
    requires Inv(w) && w.now <= now
    ensures forall a | a in Next(w, Arrives(call, now)).answers :: Honest(a, w)
  {
    CachedAnswerIsHonest(w, call, now);
  }

  lemma ArrivalKeepsInv<B>(w: World<B>, call: Call, now: int)
    requires Inv(w) && w.now <= now
    ensures Inv(Next(w, Arrives(call, now)))
  {
    ArrivalIsCounted(w, call, now);
    ArrivalAdds(w, call, now);
    ArrivalAnswers(w, call, now);
    AnswersLast(w, Next(w, Arrives(call, now)));
  }

  /** Every answer so far, and the new one, stay honest over an arrival. */
  lemma AnswersLast<B>(w: World<B>, v: World<B>)
    requires (forall a | a in v.answers :: Honest(a, w)) && ReadsAreCounted(v) && v.completed == w.completed
    requires v.begun == w.begun || (exists load :: v.begun == w.begun + [load])
    ensures forall a | a in v.answers :: Honest(a, v)
  {
    forall a | a in v.answers ensures Honest(a, v) {
      HonestyLasts(a, w, v);
    }
  }

  lemma CompletionKeepsInv<B>(w: World<B>, i: nat, loaded: Loaded<B>)
    requires Inv(w) && i < |w.running|
    ensures Inv(Next(w, LoadDone(i, loaded)))
  {
    var v := Next(w, LoadDone(i, loaded));
    var load := w.running[i];
    assert load in w.running;
    forall a | a in v.answers ensures Honest(a, v) {
      if a in w.answers {
        HonestyLasts(a, w, v);
      } else {
        assert Completion(load, loaded.body) in v.completed;
      }
    }
  }

  lemma EventKeepsInv<B>(w: World<B>, e: Event<B>)
    requires Inv(w) && Possible(w, e)
    ensures Inv(Next(w, e))
  {
    match e
    case Arrives(call, now) => ArrivalKeepsInv(w, call, now);
    case LoadDone(i, loaded) => CompletionKeepsInv(w, i, loaded);
    case LoadFailed(i) =>
      forall a | a in w.answers ensures Honest(a, Next(w, e)) {
        HonestyLasts(a, w, Next(w, e));
      }
  }

  lemma {:induction false} RunKeepsInv<B>(w: World<B>, events: seq<Event<B>>, end: World<B>)
    requires Inv(w) && Run(w, events, end)
    ensures Inv(end)
    decreases |events|
  {
    if events != [] {
      EventKeepsInv(w, events[0]);
      RunKeepsInv(Next(w, events[0]), events[1..], end);
    }
  }

  /** However requests and loads interleave, every body sent is as young as promised, and no minute begins more than 300 loads. */
  lemma ReadsAreHonest<B>(now: int, events: seq<Event<B>>, end: World<B>, minute: int)
    requires Run(Start(now), events, end)
    ensures forall a | a in end.answers :: Honest(a, end)
    ensures LoadsIn(end.begun, minute) <= CHAIN_READ_LIMIT
  {
    RunKeepsInv(Start(now), events, end);
    LoadsWithinBudget(end, minute);
  }

  // ---------------------------------------------------------------- the limits on requests

  /** How a run goes on as far as its events are possible. */
  ghost function Later<B>(w: World<B>, events: seq<Event<B>>): World<B>
    decreases |events|
  {
    if events == [] || !Possible(w, events[0]) then w else Later(Next(w, events[0]), events[1..])
  }

  /** The request of a client address is answered: whatever the reply, it is not that the address asked too often. */
  ghost predicate IpServed<B>(w: World<B>, e: Event<B>, ip: string, from: int, to: int) {
    && e.Arrives? && e.call.ip == ip && from <= e.now < to
    && !Begin(w.policy, e.call, e.now).1.IpLimited?
  }

  /** The request of an API key passes both limiters. */
  ghost predicate KeyServed<B>(w: World<B>, e: Event<B>, apiKey: string, from: int, to: int) {
    && e.Arrives? && e.call.apiKey == apiKey && from <= e.now < to
    && !Begin(w.policy, e.call, e.now).1.IpLimited? && !Begin(w.policy, e.call, e.now).1.KeyLimited?
  }

  /** How many requests of an address are served at times in [from, to). */
  ghost function IpAnswers<B>(w: World<B>, events: seq<Event<B>>, ip: string, from: int, to: int): nat
    decreases |events|
  {
    if events == [] || !Possible(w, events[0]) then 0
    else
      (if IpServed(w, events[0], ip, from, to) then 1 else 0)
      + IpAnswers(Next(w, events[0]), events[1..], ip, from, to)
  }

  ghost function KeyAnswers<B>(w: World<B>, events: seq<Event<B>>, apiKey: string, from: int, to: int): nat
    decreases |events|
  {
    if events == [] || !Possible(w, events[0]) then 0
    else
      (if KeyServed(w, events[0], apiKey, from, to) then 1 else 0)
      + KeyAnswers(Next(w, events[0]), events[1..], apiKey, from, to)
  }

  /** The buckets of a limiter are those of the requests it has seen. */
  ghost predicate Tracks(buckets: map<string, Bucket>, seen: seq<Request<string>>, limit: nat, now: int) {
    && ClockMonotone(seen) && buckets == RunTakes(seen, limit)
    && (seen != [] ==> seen[|seen| - 1].now <= now)
  }

  lemma TracksOneMore(
    buckets: map<string, Bucket>, seen: seq<Request<string>>, limit: nat, r: Request<string>, was: int,
    id: string, from: int, to: int)
    requires Tracks(buckets, seen, limit, was) && was <= r.now
    ensures Tracks(Take(buckets, r.id, limit, r.now).0, seen + [r], limit, r.now)
    ensures GrantsIn(seen + [r], limit, id, from, to)
         == GrantsIn(seen, limit, id, from, to)
            + if r.id == id && from <= r.now < to && Take(buckets, r.id, limit, r.now).1 then 1 else 0
  {
    assert (seen + [r])[..|seen|] == seen;
    assert forall i | 0 <= i < |seen| :: seen[i].now <= seen[|seen| - 1].now;
  }

  /** What an event does to the address limiter, and whether it counts. */
  lemma IpStep<B>(w: World<B>, e: Event<B>, ip: string, from: int, to: int)
    requires Possible(w, e)
    ensures var v := Next(w, e);
            if e.Arrives? then
              var (taken, granted) := Take(w.policy.ipBuckets, e.call.ip, 120, e.now);
              && v.policy.ipBuckets == taken && v.now == e.now
              && (IpServed(w, e, ip, from, to) <==> e.call.ip == ip && from <= e.now < to && granted)
            else v.policy.ipBuckets == w.policy.ipBuckets && v.now == w.now && !IpServed(w, e, ip, from, to)
  {
  }

  /** An event that the key limiter sees: a request with a key that the address limiter let pass. */
  ghost predicate AsksWithKey<B>(w: World<B>, e: Event<B>) {
    e.Arrives? && e.call.apiKey != "" && !Begin(w.policy, e.call, e.now).1.IpLimited?
  }

  lemma KeyStep<B>(w: World<B>, e: Event<B>, apiKey: string, from: int, to: int)
    requires Possible(w, e) && apiKey != ""
    ensures var v := Next(w, e);
            && w.now <= v.now
            && if AsksWithKey(w, e) then
                 var (taken, granted) := Take(w.policy.keyBuckets, e.call.apiKey, 600, e.now);
                 && v.policy.keyBuckets == taken && v.now == e.now
                 && (KeyServed(w, e, apiKey, from, to) <==> e.call.apiKey == apiKey && from <= e.now < to && granted)
               else v.policy.keyBuckets == w.policy.keyBuckets && !KeyServed(w, e, apiKey, from, to)
  {
  }

  /** The requests the address limiter sees on a run: every one that arrives. */
  lemma {:induction false} IpRequests<B>(
    w: World<B>, events: seq<Event<B>>, seen: seq<Request<string>>, ip: string, from: int, to: int)
    returns (all: seq<Request<string>>)
    requires Tracks(w.policy.ipBuckets, seen, 120, w.now)
    ensures Tracks(Later(w, events).policy.ipBuckets, all, 120, Later(w, events).now)
    ensures GrantsIn(all, 120, ip, from, to) == GrantsIn(seen, 120, ip, from, to) + IpAnswers(w, events, ip, from, to)
    decreases |events|
  {
    if events == [] || !Possible(w, events[0]) {
      all := seen;
    } else {
      var e := events[0];
      var more := seen;
      IpStep(w, e, ip, from, to);
      if e.Arrives? {
        var r := Request(e.call.ip, e.now);
        TracksOneMore(w.policy.ipBuckets, seen, 120, r, w.now, ip, from, to);
        more := seen + [r];
      }
      all := IpRequests(Next(w, e), events[1..], more, ip, from, to);
    }
  }

  /** The requests the key limiter sees on a run. */
  lemma {:induction false} KeyRequests<B>(
    w: World<B>, events: seq<Event<B>>, seen: seq<Request<string>>, apiKey: string, from: int, to: int)
    returns (all: seq<Request<string>>)
    requires Tracks(w.policy.keyBuckets, seen, 600, w.now) && apiKey != ""
    ensures Tracks(Later(w, events).policy.keyBuckets, all, 600, Later(w, events).now)
    ensures GrantsIn(all, 600, apiKey, from, to)
         == GrantsIn(seen, 600, apiKey, from, to) + KeyAnswers(w, events, apiKey, from, to)
    decreases |events|
  {
    if events == [] || !Possible(w, events[0]) {
      all := seen;
    } else {
      var e := events[0];
      var more := seen;
      KeyStep(w, e, apiKey, from, to);
      if AsksWithKey(w, e) {
        var r := Request(e.call.apiKey, e.now);
        TracksOneMore(w.policy.keyBuckets, seen, 600, r, w.now, apiKey, from, to);
        more := seen + [r];
      }
      all := KeyRequests(Next(w, e), events[1..], more, apiKey, from, to);
    }
  }

  /**
   On every run, in any half-open minute, at most 239 requests of one client address are
   served, and at most 1199 of one API key.
   */
  lemma ServedWithinLimits<B>(start: int, events: seq<Event<B>>, ip: string, apiKey: string, from: int)
    requires apiKey != ""
    ensures IpAnswers(Start<B>(start), events, ip, from, from + 60_000) <= 239
    ensures KeyAnswers(Start<B>(start), events, apiKey, from, from + 60_000) <= 1199
  {
    var ips := IpRequests(Start<B>(start), events, [], ip, from, from + 60_000);
    AtMostTwiceTheLimit(ips, 120, ip, from);
    var keys := KeyRequests(Start<B>(start), events, [], apiKey, from, from + 60_000);
    AtMostTwiceTheLimit(keys, 600, apiKey, from);
  }

  /** A request is refused for its address, or its key, only when 120, or 600, of them were served within the last minute. */
  lemma RefusedForCause<B>(start: int, events: seq<Event<B>>, call: Call, now: int)
    requires var w := Later(Start<B>(start), events); now >= w.now
    ensures var reply := Begin(Later(Start<B>(start), events).policy, call, now).1;
            && (reply.IpLimited? ==> IpAnswers(Start<B>(start), events, call.ip, now - 59_999, now + 1) >= 120)
            && (reply.KeyLimited? ==>
                  call.apiKey != "" && KeyAnswers(Start<B>(start), events, call.apiKey, now - 59_999, now + 1) >= 600)
  {
    var reply := Begin(Later(Start<B>(start), events).policy, call, now).1;
    if reply.IpLimited? {
      var ips := IpRequests(Start<B>(start), events, [], call.ip, now - 59_999, now + 1);
      RefusedOnlyWhenSpent(ips, 120, call.ip, now);
    }
    if reply.KeyLimited? {
      var keys := KeyRequests(Start<B>(start), events, [], call.apiKey, now - 59_999, now + 1);
      RefusedOnlyWhenSpent(keys, 600, call.apiKey, now);
    }
  }

  // ---------------------------------------------------------------- what a request gets

  /** The load of a key that finished last. */
  ghost function LastLoaded<B>(completed: seq<Completion<B>>, key: string): (i: int)
    ensures -1 <= i < |completed|
    ensures i >= 0 ==> completed[i].load.cacheKey == key
    ensures forall j | i < j < |completed| :: completed[j].load.cacheKey != key
  {
    if completed == [] then -1
    else if completed[|completed| - 1].load.cacheKey == key then |completed| - 1
    else LastLoaded(completed[..|completed| - 1], key)
  }

  ghost predicate HoldsLast<B>(w: World<B>, key: string) {
    var i := LastLoaded(w.completed, key);
    if i >= 0 then
      key in w.policy.cache && w.policy.cache[key] == Cached(w.completed[i].body, w.completed[i].load.startedAt)
    else key !in w.policy.cache
  }

  lemma HoldsLastStep<B>(w: World<B>, e: Event<B>, key: string)
    requires Possible(w, e) && HoldsLast(w, key)
    ensures HoldsLast(Next(w, e), key)
  {
    if e.LoadDone? && e.loaded.Body? {
      assert Next(w, e).completed[..|w.completed|] == w.completed;
    } else if e.Arrives? {
      ArrivalAdds(w, e.call, e.now);
    }
  }

  lemma {:induction false} HoldsLastAfter<B>(w: World<B>, events: seq<Event<B>>, end: World<B>, key: string)
    requires Run(w, events, end) && HoldsLast(w, key)
    ensures HoldsLast(end, key)
    decreases |events|
  {
    if events != [] {
      HoldsLastStep(w, events[0], key);
      HoldsLastAfter(Next(w, events[0]), events[1..], end, key);
    }
  }

  /**
   After any run, a request that passes the limiters is answered live with the body loaded
   last for its key when that load began less than 30 seconds ago; otherwise it loads while
   fewer than 300 loads began in its minute; otherwise it gets that body as stale when its
   load began less than five minutes ago; and otherwise it is refused.
   */
  lemma AnsweredExactly<B>(start: int, events: seq<Event<B>>, w: World<B>, call: Call, now: int)
    requires Run(Start(start), events, w) && now >= w.now
    ensures var reply := Begin(w.policy, call, now).1;
            var i := LastLoaded(w.completed, call.cacheKey);
            && (reply.KeyLimited? ==> call.apiKey != "")
            && (!reply.IpLimited? && !reply.KeyLimited? ==>
                  reply == if i >= 0 && now - w.completed[i].load.startedAt < 30_000 then Live(w.completed[i].body)
                           else if LoadsIn(w.begun, Minute(now)) < 300 then Loading
                           else if i >= 0 && now - w.completed[i].load.startedAt < 300_000 then Stale(w.completed[i].body)
                           else BudgetExhausted)
  {
    RunKeepsInv(Start(start), events, w);
    HoldsLastAfter(Start(start), events, w, call.cacheKey);
    GrantMeansRoom(w, now);
  }
}
