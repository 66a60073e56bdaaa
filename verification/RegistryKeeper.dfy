/** The keeper that extends lifetimes, and the entries it does and does not keep alive. */
module RegistryKeeper {
  import opened Results
  import opened Strings
  import opened RegistryContract
  import opened RegistryRuns
  import opened RegistryClient

  // ---------------------------------------------------------------- one uninterrupted pass

  function Slice(vs: seq<Version>): seq<Version> {
    if |vs| <= MAX_PAGE_SIZE then vs else vs[..MAX_PAGE_SIZE]
  }

  /** The registry after touching the versions slice by slice; an error stops the pass. */
  function TouchSlices(s: State, p: Pair, vs: seq<Version>): (State, Result<(), Error>)
    decreases |vs|
  {
    if vs == [] then (s, Ok(()))
    else
      var (t, r) := Touch(s, p, Slice(vs));
      match r
      case Err(e) => (t, Err(e))
      case Ok(_) => TouchSlices(t, p, vs[|Slice(vs)|..])
  }

  method TouchAll(reg: Registry, p: Pair, vs: seq<Version>) returns (r: Result<(), Error>)
    modifies reg`liveUntil
    ensures (reg.S(), r) == TouchSlices(old(reg.S()), p, vs)
  {
    var i := 0;
    assert vs[0..] == vs;
    while i < |vs|
      invariant 0 <= i <= |vs|
      invariant TouchSlices(old(reg.S()), p, vs) == TouchSlices(reg.S(), p, vs[i..])
    {
      var end := if i + MAX_PAGE_SIZE < |vs| then i + MAX_PAGE_SIZE else |vs|;
      assert vs[i..end] == Slice(vs[i..]);
      assert vs[i..][end - i..] == vs[end..];
      var touched := reg.TouchEntries(p, vs[i..end]);
      if touched.Err? {
        return Err(touched.error);
      }
      i := end;
    }
    return Ok(());
  }

  ghost predicate NothingArchived(s: State, p: Pair, vs: seq<Version>) {
    forall k | k in TouchedKeys(p, vs) :: !IsArchived(s, k)
  }

  lemma PresentCounts(live: map<Key, int>, ks: seq<Key>, k: Key)
    requires k in ks && k in live
    ensures CountPresent(live, ks) > 0
  {
    var n := |ks| - 1;
    if ks[n] != k {
      assert k in ks[..n];
      PresentCounts(live, ks[..n], k);
    }
  }

  /** Extending stored, unexpired entries refreshes exactly those and shortens no life. */
  lemma ExtendedRefreshes(live: map<Key, int>, keys: seq<Key>, ledger: nat)
    requires forall k | k in live :: live[k] <= ledger + MAX_ENTRY_TTL
    ensures var after := ExtendAll(live, keys, ledger);
            && after.Keys == live.Keys
            && (forall k | k in keys && k in live :: Refreshed(after[k], ledger))
            && (forall k | k in live :: after[k] >= live[k])
            && (forall k | k in live && k !in keys :: after[k] == live[k])
  {
    SameKeys(live, keys, ledger);
    forall k | k in live
      ensures ExtendAll(live, keys, ledger)[k] == if k in keys then Extended(live[k], ledger) else live[k]
    {
      ExtendAllEffect(live, keys, ledger, k);
    }
  }

  /** A touch of listed, unexpired entries succeeds and refreshes every one of them. */
  lemma TouchRefreshes(s: State, p: Pair, vs: seq<Version>)
    requires StorageInv(s) && PairInv(s, p) && 0 < |vs| <= MAX_PAGE_SIZE && NothingArchived(s, p, vs)
    requires forall v | v in vs :: v in VersionsOf(s, p)
    ensures var (t, r) := Touch(s, p, vs);
            && r.Ok? && t == s.(liveUntil := t.liveUntil) && t.liveUntil.Keys == s.liveUntil.Keys
            && (forall k | k in TouchedKeys(p, vs) :: k in t.liveUntil && Refreshed(t.liveUntil[k], s.ledger))
            && (forall k | k in s.liveUntil :: t.liveUntil[k] >= s.liveUntil[k])
            && (forall k | k in s.liveUntil && k !in TouchedKeys(p, vs) :: t.liveUntil[k] == s.liveUntil[k])
  {
    var keys := TouchedKeys(p, vs);
    TouchedArePresent(s, p, vs);
    assert keys[0] == LatestKey(p);
    TouchSucceeds(s, p, vs);
    ExtendedRefreshes(s.liveUntil, keys, s.ledger);
  }

  lemma TouchSucceeds(s: State, p: Pair, vs: seq<Version>)
    requires |vs| <= MAX_PAGE_SIZE && NothingArchived(s, p, vs) && LatestKey(p) in s.liveUntil
    ensures var keys := TouchedKeys(p, vs);
            Touch(s, p, vs)
            == (s.(liveUntil := ExtendAll(s.liveUntil, keys, s.ledger)), Ok(CountPresent(s.liveUntil, keys)))
  {
    assert TouchedKeys(p, vs)[0] == LatestKey(p);
    PresentCounts(s.liveUntil, TouchedKeys(p, vs), LatestKey(p));
  }

  lemma TouchedArePresent(s: State, p: Pair, vs: seq<Version>)
    requires StorageInv(s) && PairInv(s, p) && vs != []
    requires forall v | v in vs :: v in VersionsOf(s, p)
    ensures forall k | k in TouchedKeys(p, vs) :: k in s.liveUntil
  {
    assert vs[0] in VersionsOf(s, p);
    forall k | k in TouchedKeys(p, vs) ensures k in s.liveUntil {
      var i :| 0 <= i < |TouchedKeys(p, vs)| && TouchedKeys(p, vs)[i] == k;
      assert i >= 2 ==> k == SpecKey(p, vs[i - 2]) && vs[i - 2] in vs;
    }
  }

  /** A whole pass over any number of listed versions leaves all of them and both indexes refreshed. */
  lemma {:induction false} PassRefreshesEverything(s: State, p: Pair, vs: seq<Version>)
    requires Inv(s) && vs != [] && NothingArchived(s, p, vs)
    requires forall v | v in vs :: v in VersionsOf(s, p)
    ensures var (t, r) := TouchSlices(s, p, vs);
            && r.Ok? && t.ledger == s.ledger
            && (forall k | k in TouchedKeys(p, vs) :: k in t.liveUntil && Refreshed(t.liveUntil[k], s.ledger))
            && (forall k | k in s.liveUntil :: k in t.liveUntil && t.liveUntil[k] >= s.liveUntil[k])
            && (forall k | k in t.liveUntil :: t.liveUntil[k] <= t.ledger + MAX_ENTRY_TTL)
    decreases |vs|
  {
    var first := Slice(vs);
    var rest := vs[|first|..];
    assert vs == first + rest;
    forall v | v in first ensures v in vs {}
    KeysOfConcat(p, first, rest);
    assert PairInv(s, p);
    TouchRefreshes(s, p, first);
    StepKeepsInv(s, TouchBy(p, first));
    var t := Touch(s, p, first).0;
    if rest != [] {
      forall v | v in rest ensures v in vs {}
      PassRefreshesEverything(t, p, rest);
    } else {
      assert TouchSlices(t, p, rest) == (t, Ok(()));
    }
  }

  lemma KeysOfConcat(p: Pair, a: seq<Version>, b: seq<Version>)
    ensures forall k :: k in TouchedKeys(p, a + b) <==> k in TouchedKeys(p, a) || k in TouchedKeys(p, b)
  {
    assert SpecKeys(p, a + b) == SpecKeys(p, a) + SpecKeys(p, b);
  }

  // ---------------------------------------------------------------- passes interleaved with everything else

  /**
   A keeper of one pair. `started` is the ledger of its latest listing, `previous` that of
   the one before; `todo` are the versions still to touch in this pass.
   */
  datatype World = World(reg: State, todo: seq<Version>, indexPending: bool, started: nat, previous: nat)

  datatype Move = Other(action: Action) | StartPass | TouchNext

  function Next(w: World, p: Pair, m: Move): World {
    match m
    case Other(a) => w.(reg := Step(w.reg, a))
    case StartPass =>
      if w.todo != [] then w
      else
        var listed := Kept(VersionsOf(w.reg, p), KEEPER_MARKER);
        World(w.reg, listed, listed != [], w.reg.ledger, w.started)
    case TouchNext =>
      if w.todo == [] then w
      else w.(reg := Touch(w.reg, p, Slice(w.todo)).0, todo := w.todo[|Slice(w.todo)|..], indexPending := false)
  }

  function Play(w: World, p: Pair, moves: seq<Move>): World
    decreases |moves|
  {
    if moves == [] then w else Play(Next(w, p, moves[0]), p, moves[1..])
  }

  /** A pass starts at most `period` ledgers after the one before, and lasts at most `duration`. */
  predicate Timely(w: World, period: nat, duration: nat) {
    && w.reg.ledger <= w.started + period
    && (w.todo != [] ==> w.reg.ledger <= w.started + duration)
  }

  predicate AlwaysTimely(w: World, p: Pair, moves: seq<Move>, period: nat, duration: nat)
    decreases |moves|
  {
    && Timely(w, period, duration)
    && (moves == [] || AlwaysTimely(Next(w, p, moves[0]), p, moves[1..], period, duration))
  }

  predicate KeptVersion(s: State, p: Pair, v: Version) {
    v in VersionsOf(s, p) && !StartsWith(v, KEEPER_MARKER)
  }

  /** The lifetime of an entry reaches past the given listing by more than the threshold. */
  predicate Reaches(s: State, k: Key, since: nat) {
    k in s.liveUntil && s.liveUntil[k] > since + LIFETIME_THRESHOLD
  }

  ghost predicate KeeperInv(w: World, p: Pair, period: nat) {
    Inv(w.reg) && KeeperLife(w, p, period)
  }

  /** What the keeper has achieved so far: how far each lifetime reaches, by what is still to touch. */
  ghost predicate KeeperLife(w: World, p: Pair, period: nat) {
    && w.previous <= w.started <= w.reg.ledger && w.started <= w.previous + period
    && (w.indexPending ==> w.todo != [])
    && (forall v | v in w.todo :: KeptVersion(w.reg, p, v))
    && (forall v | KeptVersion(w.reg, p, v) ::
          Reaches(w.reg, SpecKey(p, v), if v in w.todo then w.previous else w.started))
    && (forall v | KeptVersion(w.reg, p, v) ::
          && Reaches(w.reg, LatestKey(p), if w.indexPending then w.previous else w.started)
          && Reaches(w.reg, VersionsKey(p), if w.indexPending then w.previous else w.started))
  }

  /** No entry of a version the keeper lists has expired, nor either index while there is one. */
  ghost predicate AllAlive(s: State, p: Pair) {
    forall v | KeptVersion(s, p, v) ::
      !IsArchived(s, SpecKey(p, v)) && !IsArchived(s, LatestKey(p)) && !IsArchived(s, VersionsKey(p))
  }

  /** The longest time from one listing to the end of the next pass. A pass ends before the next one starts. */
  function Span(period: nat, duration: nat): nat {
    period + if duration < period then duration else period
  }

  lemma TimelyIsAlive(w: World, p: Pair, period: nat, duration: nat)
    requires KeeperLife(w, p, period) && Timely(w, period, duration)
    requires Span(period, duration) <= LIFETIME_THRESHOLD + 1
    ensures AllAlive(w.reg, p)
  {
  }

  /** A publish shortens no life, and the entries it writes reach past the current ledger. */
  lemma PublishKeepsReach(s: State, q: Pair, v: Version, h: string, ptr: string, k: Key, since: nat)
    requires StorageInv(s) && s.minTtl <= MAX_ENTRY_TTL && Publish(s, q, v, h, ptr).1.Ok? && since <= s.ledger
    requires Reaches(s, k, since) || k in {SpecKey(q, v), VersionsKey(q), LatestKey(q)}
    ensures Reaches(Publish(s, q, v, h, ptr).0, k, since)
  {
    PublishRefreshes(s, q, v, h, ptr);
  }

  lemma PublishKeepsKeeper(w: World, p: Pair, period: nat, q: Pair, v: Version, h: string, ptr: string)
    requires StorageInv(w.reg) && w.reg.minTtl <= MAX_ENTRY_TTL && KeeperLife(w, p, period)
    requires Publish(w.reg, q, v, h, ptr).1.Ok?
    ensures KeeperLife(w.(reg := Publish(w.reg, q, v, h, ptr).0), p, period)
  {
    var t := Publish(w.reg, q, v, h, ptr).0;
    var index := if w.indexPending then w.previous else w.started;
    forall u | KeptVersion(t, p, u)
      ensures Reaches(t, SpecKey(p, u), if u in w.todo then w.previous else w.started)
      ensures Reaches(t, LatestKey(p), index) && Reaches(t, VersionsKey(p), index)
    {
      assert KeptVersion(w.reg, p, u) || (p == q && u == v);
      PublishKeepsReach(w.reg, q, v, h, ptr, SpecKey(p, u), if u in w.todo then w.previous else w.started);
      PublishKeepsReach(w.reg, q, v, h, ptr, LatestKey(p), index);
      PublishKeepsReach(w.reg, q, v, h, ptr, VersionsKey(p), index);
    }
    forall u | u in w.todo ensures KeptVersion(t, p, u) {}
  }

  lemma TouchOnlyExtends(s: State, q: Pair, vs: seq<Version>)
    requires StorageInv(s)
    ensures var t := Touch(s, q, vs).0;
            && t == s.(liveUntil := t.liveUntil) && t.liveUntil.Keys == s.liveUntil.Keys
            && forall k | k in s.liveUntil :: t.liveUntil[k] >= s.liveUntil[k]
  {
    ExtendedRefreshes(s.liveUntil, TouchedKeys(q, vs), s.ledger);
  }

  lemma OtherKeepsKeeper(w: World, p: Pair, period: nat, a: Action)
    requires KeeperInv(w, p, period)
    ensures KeeperInv(Next(w, p, Other(a)), p, period)
  {
    StepKeepsInv(w.reg, a);
    match a
    case PublishBy(q, v, h, ptr) =>
      if Publish(w.reg, q, v, h, ptr).1.Ok? {
        PublishKeepsKeeper(w, p, period, q, v, h, ptr);
      }
    case TouchBy(q, vs) =>
      TouchOnlyExtends(w.reg, q, vs);
      var t := Touch(w.reg, q, vs).0;
      forall v | KeptVersion(t, p, v) ensures KeptVersion(w.reg, p, v) {}
    case Close(n, t) =>
      var s := Step(w.reg, a);
      forall v | KeptVersion(s, p, v) ensures KeptVersion(w.reg, p, v) {}
  }

  lemma StartKeepsKeeper(w: World, p: Pair, period: nat, duration: nat)
    requires KeeperInv(w, p, period) && Timely(w, period, duration)
    ensures KeeperInv(Next(w, p, StartPass), p, period)
  {
    KeptMembers(VersionsOf(w.reg, p), KEEPER_MARKER);
    var listed := Kept(VersionsOf(w.reg, p), KEEPER_MARKER);
    forall v | KeptVersion(w.reg, p, v) ensures v in listed {}
  }

  lemma TouchKeepsKeeper(w: World, p: Pair, period: nat, duration: nat)
    requires KeeperInv(w, p, period) && Timely(w, period, duration) && w.todo != []
    requires Span(period, duration) <= LIFETIME_THRESHOLD + 1
    ensures KeeperInv(Next(w, p, TouchNext), p, period)
  {
    var slice := Slice(w.todo);
    var rest := w.todo[|slice|..];
    assert w.todo == slice + rest;
    assert PairInv(w.reg, p);
    TimelyIsAlive(w, p, period, duration);
    forall v | v in slice ensures KeptVersion(w.reg, p, v) {
      assert v in w.todo;
    }
    SliceAlive(w, p, slice);
    TouchRefreshes(w.reg, p, slice);
    StepKeepsInv(w.reg, TouchBy(p, slice));
    SliceKeepsLife(w, p, period, slice, rest);
  }

  lemma SliceKeepsLife(w: World, p: Pair, period: nat, slice: seq<Version>, rest: seq<Version>)
    requires KeeperLife(w, p, period) && w.todo == slice + rest && slice != []
    requires var t := Touch(w.reg, p, slice).0;
             && t == w.reg.(liveUntil := t.liveUntil) && t.liveUntil.Keys == w.reg.liveUntil.Keys
             && (forall k | k in TouchedKeys(p, slice) :: k in t.liveUntil && Refreshed(t.liveUntil[k], w.reg.ledger))
             && (forall k | k in w.reg.liveUntil :: t.liveUntil[k] >= w.reg.liveUntil[k])
    ensures KeeperLife(w.(reg := Touch(w.reg, p, slice).0, todo := rest, indexPending := false), p, period)
  {
    var t, keys := Touch(w.reg, p, slice).0, TouchedKeys(p, slice);
    assert keys[0] == LatestKey(p) && keys[1] == VersionsKey(p);
    forall v | KeptVersion(t, p, v)
      ensures Reaches(t, SpecKey(p, v), if v in rest then w.previous else w.started)
      ensures Reaches(t, LatestKey(p), w.started) && Reaches(t, VersionsKey(p), w.started)
    {
      assert KeptVersion(w.reg, p, v);
      if v in slice {
        var i :| 0 <= i < |slice| && slice[i] == v;
        assert keys[2 + i] == SpecKey(p, v);
      }
    }
    forall v | v in rest ensures KeptVersion(t, p, v) {
      assert v in w.todo;
    }
  }

  lemma SliceAlive(w: World, p: Pair, slice: seq<Version>)
    requires AllAlive(w.reg, p) && slice != [] && forall v | v in slice :: KeptVersion(w.reg, p, v)
    ensures NothingArchived(w.reg, p, slice)
  {
    assert KeptVersion(w.reg, p, slice[0]);
    forall k | k in TouchedKeys(p, slice) ensures !IsArchived(w.reg, k) {
      var i :| 0 <= i < |TouchedKeys(p, slice)| && TouchedKeys(p, slice)[i] == k;
      assert i >= 2 ==> slice[i - 2] in slice;
    }
  }

  /**
   On every run in which passes start at most `period` ledgers apart and finish within
   `duration`, with publishes and touches by anyone interleaved, nothing the keeper
   lists ever expires.
   */
  lemma {:induction false} KeptEntriesNeverExpire(w: World, p: Pair, moves: seq<Move>, period: nat, duration: nat)
    requires KeeperInv(w, p, period) && AlwaysTimely(w, p, moves, period, duration)
    requires Span(period, duration) <= LIFETIME_THRESHOLD + 1
    ensures AllAlive(Play(w, p, moves).reg, p)
    decreases |moves|
  {
    if moves == [] {
      TimelyIsAlive(w, p, period, duration);
    } else {
      match moves[0] {
        case Other(a) => OtherKeepsKeeper(w, p, period, a);
        case StartPass => StartKeepsKeeper(w, p, period, duration);
        case TouchNext =>
          if w.todo != [] {
            TouchKeepsKeeper(w, p, period, duration);
          }
      }
      KeptEntriesNeverExpire(Next(w, p, moves[0]), p, moves[1..], period, duration);
    }
  }

  /** A keeper that has not run yet, of an empty registry. */
  function FreshKeeper(minTtl: nat): World {
    World(Empty(minTtl), [], false, 0, 0)
  }

  /** The documented cadence, 90 days from listing to listing including the pass itself, is safe from an empty registry. */
  lemma DocumentedCadenceIsSafe(minTtl: nat, p: Pair, moves: seq<Move>, period: nat, duration: nat)
    requires minTtl <= MAX_ENTRY_TTL && period + duration <= 90 * DAY_IN_LEDGERS
    requires AlwaysTimely(FreshKeeper(minTtl), p, moves, period, duration)
    ensures AllAlive(Play(FreshKeeper(minTtl), p, moves).reg, p)
  {
    InitialInv(minTtl);
    KeptEntriesNeverExpire(FreshKeeper(minTtl), p, moves, period, duration);
  }

  /** From an empty registry a cadence keeps everything alive on every run exactly up to threshold plus one. */
  lemma CadenceIsSafeExactly(minTtl: nat, p: Pair, period: nat, duration: nat)
    requires minTtl <= MAX_ENTRY_TTL
    ensures Span(period, duration) <= LIFETIME_THRESHOLD + 1
       <==> forall moves | AlwaysTimely(FreshKeeper(minTtl), p, moves, period, duration) ::
              AllAlive(Play(FreshKeeper(minTtl), p, moves).reg, p)
  {
    InitialInv(minTtl);
    if Span(period, duration) <= LIFETIME_THRESHOLD + 1 {
      forall moves | AlwaysTimely(FreshKeeper(minTtl), p, moves, period, duration)
        ensures AllAlive(Play(FreshKeeper(minTtl), p, moves).reg, p)
      {
        KeptEntriesNeverExpire(FreshKeeper(minTtl), p, moves, period, duration);
      }
    } else {
      var moves := LateRun(minTtl, p, period, duration);
    }
  }

  lemma OneMove(w: World, p: Pair, m: Move, rest: seq<Move>, period: nat, duration: nat)
    requires Timely(w, period, duration)
    ensures Play(w, p, [m] + rest) == Play(Next(w, p, m), p, rest)
    ensures AlwaysTimely(w, p, [m] + rest, period, duration) <==> AlwaysTimely(Next(w, p, m), p, rest, period, duration)
  {
    assert ([m] + rest)[1..] == rest;
  }

  lemma WrittenFirst(live: map<Key, int>, k: Key, minTtl: nat)
    requires k !in live
    ensures Written(live, k, 0, minTtl) == live[k := Extended(minTtl - 1, 0)]
  {
  }

  /** One publish: all three entries share a lifetime of more than the threshold. */
  lemma FirstPublish(minTtl: nat, p: Pair) returns (until: nat)
    requires minTtl <= MAX_ENTRY_TTL
    ensures LIFETIME_THRESHOLD < until <= MAX_ENTRY_TTL
    ensures var t := Publish(Empty(minTtl), p, "v", "h", "x").0;
            && VersionsOf(t, p) == ["v"] && t.ledger == 0 && SpecKey(p, "v") in t.liveUntil
            && forall k | k in t.liveUntil :: t.liveUntil[k] == until
  {
    until := Extended(minTtl - 1, 0);
    var live1 := map[SpecKey(p, "v") := until];
    WrittenFirst(map[], SpecKey(p, "v"), minTtl);
    WrittenFirst(live1, VersionsKey(p), minTtl);
    WrittenFirst(live1[VersionsKey(p) := until], LatestKey(p), minTtl);
  }

  lemma {:induction false} NothingExtended(live: map<Key, int>, ks: seq<Key>, ledger: nat)
    requires forall k | k in live :: live[k] - ledger > LIFETIME_THRESHOLD
    ensures ExtendAll(live, ks, ledger) == live
  {
    if ks != [] {
      NothingExtended(live, ks[..|ks| - 1], ledger);
    }
  }

  lemma TouchTooEarly(s: State, p: Pair, vs: seq<Version>)
    requires forall k | k in s.liveUntil :: s.liveUntil[k] - s.ledger > LIFETIME_THRESHOLD
    ensures Touch(s, p, vs).0 == s
  {
    NothingExtended(s.liveUntil, TouchedKeys(p, vs), s.ledger);
  }

  /** A pass over the one version while its entries are one ledger above the threshold: nothing is extended. */
  lemma PassTooEarly(w: World, p: Pair, until: nat)
    requires VersionsOf(w.reg, p) == ["v"] && w.todo == []
    requires (forall k | k in w.reg.liveUntil :: w.reg.liveUntil[k] == until) && until == w.reg.ledger + LIFETIME_THRESHOLD + 1
    ensures var listed := Next(w, p, StartPass);
            && listed == World(w.reg, ["v"], true, w.reg.ledger, w.started)
            && Next(listed, p, TouchNext) == World(w.reg, [], false, w.reg.ledger, w.started)
  {
    KeptOne();
    TouchTooEarly(w.reg, p, Slice(["v"]));
    assert ["v"][1..] == [];
  }

  lemma KeptOne()
    ensures Kept(["v"], KEEPER_MARKER) == ["v"]
  {
    assert ["v"][..0] == [];
  }

  /**
   When the span is longer: a pass finds the entries one ledger above the threshold and
   extends nothing; the next starts late enough, or takes long enough, for them to expire first.
   */
  lemma LateRun(minTtl: nat, p: Pair, period: nat, duration: nat) returns (moves: seq<Move>)
    requires minTtl <= MAX_ENTRY_TTL && Span(period, duration) >= LIFETIME_THRESHOLD + 2
    ensures AlwaysTimely(FreshKeeper(minTtl), p, moves, period, duration)
    ensures !AllAlive(Play(FreshKeeper(minTtl), p, moves).reg, p)
  {
    var until := FirstPublish(minTtl, p);
    var gap := if period < LIFETIME_THRESHOLD + 2 then period else LIFETIME_THRESHOLD + 2;
    var w0 := FreshKeeper(minTtl);
    var w1 := Next(w0, p, Other(PublishBy(p, "v", "h", "x")));
    var w2 := Next(w1, p, Other(Close(until - LIFETIME_THRESHOLD - 1, 0)));
    PassTooEarly(w2, p, until);
    var w3 := Next(w2, p, StartPass);
    var w4 := Next(w3, p, TouchNext);
    var late := LateEnd(w4, p, period, duration, gap, until);
    OneMove(w3, p, TouchNext, late, period, duration);
    OneMove(w2, p, StartPass, [TouchNext] + late, period, duration);
    OneMove(w1, p, Other(Close(until - LIFETIME_THRESHOLD - 1, 0)), [StartPass] + ([TouchNext] + late), period, duration);
    moves := [Other(Close(until - LIFETIME_THRESHOLD - 1, 0))] + ([StartPass] + ([TouchNext] + late));
    OneMove(w0, p, Other(PublishBy(p, "v", "h", "x")), moves, period, duration);
    moves := [Other(PublishBy(p, "v", "h", "x"))] + moves;
  }

  lemma LateEnd(w: World, p: Pair, period: nat, duration: nat, gap: nat, until: nat) returns (moves: seq<Move>)
    requires gap <= period && gap <= LIFETIME_THRESHOLD + 2
    requires LIFETIME_THRESHOLD + 2 - gap <= duration && LIFETIME_THRESHOLD + 2 - gap <= period
    requires w.todo == [] && w.started == w.reg.ledger && VersionsOf(w.reg, p) == ["v"]
    requires SpecKey(p, "v") in w.reg.liveUntil && w.reg.liveUntil[SpecKey(p, "v")] == until
    requires until == w.reg.ledger + LIFETIME_THRESHOLD + 1
    ensures AlwaysTimely(w, p, moves, period, duration)
    ensures !AllAlive(Play(w, p, moves).reg, p)
  {
    var w1 := Next(w, p, Other(Close(gap, 0)));
    var w2 := Next(w1, p, StartPass);
    var w3 := Next(w2, p, Other(Close(LIFETIME_THRESHOLD + 2 - gap, 0)));
    KeptOne();
    assert w2 == World(w1.reg, ["v"], true, w1.reg.ledger, w.started);
    OneMove(w2, p, Other(Close(LIFETIME_THRESHOLD + 2 - gap, 0)), [], period, duration);
    OneMove(w1, p, StartPass, [Other(Close(LIFETIME_THRESHOLD + 2 - gap, 0))] + [], period, duration);
    moves := [StartPass] + ([Other(Close(LIFETIME_THRESHOLD + 2 - gap, 0))] + []);
    OneMove(w, p, Other(Close(gap, 0)), moves, period, duration);
    moves := [Other(Close(gap, 0))] + moves;
    assert Play(w, p, moves) == w3;
    assert KeptVersion(w3.reg, p, "v") && IsArchived(w3.reg, SpecKey(p, "v"));
  }

  // ---------------------------------------------------------------- what the keeper does not keep

  /** The move extends the entry of this version only if someone else touches it by name. */
  predicate LeavesAlone(m: Move, p: Pair, v: Version) {
    m.Other? && m.action.TouchBy? && m.action.pair == p ==> v !in m.action.versions
  }

  /** A published version whose name starts with the keeper's marker is never extended by it. */
  lemma {:induction false} MarkedVersionNeverExtended(w: World, p: Pair, moves: seq<Move>, v: Version)
    requires Inv(w.reg) && v in VersionsOf(w.reg, p) && StartsWith(v, KEEPER_MARKER)
    requires (forall u | u in w.todo :: !StartsWith(u, KEEPER_MARKER)) && forall m | m in moves :: LeavesAlone(m, p, v)
    ensures var t := Play(w, p, moves).reg;
            SameLifetime(w.reg, t, SpecKey(p, v))
    decreases |moves|
  {
    assert PairInv(w.reg, p);
    if moves != [] {
      var m := moves[0];
      var next := Next(w, p, m);
      MoveKeepsMarked(w, p, m, v);
      assert forall x | x in moves[1..] :: x in moves;
      MarkedVersionNeverExtended(next, p, moves[1..], v);
    }
  }

  predicate SameLifetime(s: State, t: State, k: Key) {
    k in s.liveUntil && k in t.liveUntil && t.liveUntil[k] == s.liveUntil[k]
  }

  lemma MoveKeepsMarked(w: World, p: Pair, m: Move, v: Version)
    requires Inv(w.reg) && v in VersionsOf(w.reg, p) && StartsWith(v, KEEPER_MARKER)
    requires (forall u | u in w.todo :: !StartsWith(u, KEEPER_MARKER)) && LeavesAlone(m, p, v)
    ensures var next := Next(w, p, m);
            && Inv(next.reg) && v in VersionsOf(next.reg, p)
            && (forall u | u in next.todo :: !StartsWith(u, KEEPER_MARKER))
            && SameLifetime(w.reg, next.reg, SpecKey(p, v))
  {
    match m
    case Other(a) => ActionKeepsLifetime(w.reg, a, p, v);
    case StartPass =>
      KeptMembers(VersionsOf(w.reg, p), KEEPER_MARKER);
      assert PairInv(w.reg, p);
    case TouchNext =>
      if w.todo != [] {
        var slice := Slice(w.todo);
        assert w.todo == slice + w.todo[|slice|..];
        assert v !in slice;
        ActionKeepsLifetime(w.reg, TouchBy(p, slice), p, v);
      } else {
        assert PairInv(w.reg, p);
      }
  }

  lemma PublishKeepsLifetime(s: State, q: Pair, u: Version, h: string, ptr: string, p: Pair, v: Version)
    requires StorageInv(s) && PairInv(s, p) && s.minTtl <= MAX_ENTRY_TTL && v in VersionsOf(s, p)
    ensures v in VersionsOf(Publish(s, q, u, h, ptr).0, p)
    ensures SameLifetime(s, Publish(s, q, u, h, ptr).0, SpecKey(p, v))
  {
    if Publish(s, q, u, h, ptr).1.Ok? {
      PublishRefreshes(s, q, u, h, ptr);
    }
  }

  lemma TouchKeepsLifetime(s: State, q: Pair, vs: seq<Version>, p: Pair, v: Version)
    requires StorageInv(s) && PairInv(s, p) && v in VersionsOf(s, p) && (q != p || v !in vs)
    ensures SameLifetime(s, Touch(s, q, vs).0, SpecKey(p, v))
  {
    NotTouched(q, vs, p, v);
    ExtendAllEffect(s.liveUntil, TouchedKeys(q, vs), s.ledger, SpecKey(p, v));
  }

  /** An action that does not touch a published version by name leaves its lifetime as it was. */
  lemma ActionKeepsLifetime(s: State, a: Action, p: Pair, v: Version)
    requires Inv(s) && v in VersionsOf(s, p) && LeavesAlone(Other(a), p, v)
    ensures Inv(Step(s, a)) && v in VersionsOf(Step(s, a), p) && SameLifetime(s, Step(s, a), SpecKey(p, v))
  {
    assert PairInv(s, p);
    StepKeepsInv(s, a);
    match a
    case PublishBy(q, u, h, ptr) => PublishKeepsLifetime(s, q, u, h, ptr, p, v);
    case TouchBy(q, vs) => TouchKeepsLifetime(s, q, vs, p, v);
    case Close(_, _) =>
  }

  lemma NotTouched(q: Pair, vs: seq<Version>, p: Pair, v: Version)
    requires q != p || v !in vs
    ensures SpecKey(p, v) !in TouchedKeys(q, vs)
  {
    var keys := TouchedKeys(q, vs);
    if i :| 0 <= i < |keys| && keys[i] == SpecKey(p, v) {
      assert i >= 2 && keys[i] == SpecKey(q, vs[i - 2]);
    }
  }

  /** So it expires once the lifetime it had is used up, however timely the passes are. */
  lemma MarkedVersionExpires(w: World, p: Pair, moves: seq<Move>, v: Version)
    requires Inv(w.reg) && v in VersionsOf(w.reg, p) && StartsWith(v, KEEPER_MARKER)
    requires (forall u | u in w.todo :: !StartsWith(u, KEEPER_MARKER)) && forall m | m in moves :: LeavesAlone(m, p, v)
    requires Play(w, p, moves).reg.ledger > w.reg.ledger + MAX_ENTRY_TTL
    ensures IsArchived(Play(w, p, moves).reg, SpecKey(p, v))
  {
    MarkedVersionNeverExtended(w, p, moves, v);
    assert PairInv(w.reg, p);
  }
}
