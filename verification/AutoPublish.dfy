/** Indexers that discover and publish contract interfaces, over all interleavings against one registry. */
module AutoPublish {
  import opened Results
  import opened RegistryContract
  import RegistryRuns

  type ContractId = Address

  /** A discovered interface, by the hash of its canonical text, with the address of its blob. */
  datatype Spec = Spec(contractId: ContractId, version: Version, hash: string, pointer: string)

  /** What one indexer remembers: when to retry undiscoverable contracts, and its running discoveries. */
  datatype Memory = Memory(undiscoverableUntil: map<ContractId, int>, inFlight: map<ContractId, nat>)

  datatype Ensured = BackingOff | Joined(task: nat) | Started

  /** The part of ensureDiscovered that runs before the first await; `task` names a new discovery. */
  function EnsureDiscovered(m: Memory, c: ContractId, now: int, task: nat): (Memory, Ensured) {
    if c in m.undiscoverableUntil && now < m.undiscoverableUntil[c] then (m, BackingOff)
    else if c in m.inFlight then (m, Joined(m.inFlight[c]))
    else (m.(inFlight := m.inFlight[c := task]), Started)
  }

  class Indexer {
    var undiscoverableUntil: map<ContractId, int>
    var inFlight: map<ContractId, nat>

    constructor ()
      ensures M() == Memory(map[], map[])
    {
      undiscoverableUntil, inFlight := map[], map[];
    }

    ghost function M(): Memory
      reads this
    {
      Memory(undiscoverableUntil, inFlight)
    }

    method Ensure(c: ContractId, now: int, task: nat) returns (r: Ensured)
      modifies this
      ensures (M(), r) == EnsureDiscovered(old(M()), c, now, task)
    {
      if c in undiscoverableUntil {
        var backoffUntil := undiscoverableUntil[c];
        if now < backoffUntil {
          return BackingOff;
        }
      }
      if c in inFlight {
        return Joined(inFlight[c]);
      }
      inFlight := inFlight[c := task];
      return Started;
    }

    method BackOff(c: ContractId, now: int, ttl: int)
      modifies this`undiscoverableUntil
      ensures M() == old(M()).(undiscoverableUntil := old(undiscoverableUntil)[c := now + ttl])
    {
      undiscoverableUntil := undiscoverableUntil[c := now + ttl];
    }

    /** The `finally` of a discovery. */
    method Forget(c: ContractId)
      modifies this`inFlight
      ensures M() == old(M()).(inFlight := old(inFlight) - {c})
    {
      inFlight := inFlight - {c};
    }
  }

  // ---------------------------------------------------------------- one publish call

  /** What the error message of a failed call lets the indexer see. */
  datatype Message = Named | Generic | MentionsSequence | Unclear

  /**
   A publish call is executed by the registry or never gets there. An executed call may
   still end in a failure for the caller, as when its confirmation does not arrive in time.
   */
  datatype Delivery = Executed(confirmed: bool, message: Message) | NotExecuted(message: Message)

  /** What the caller sees: the result, or the class its error message falls into. */
  datatype Reply = Recorded | AlreadyThere | ContractError | SequenceCollision | Failed

  /** Only the registry's AlreadyPublished is reported under that name. */
  function Classified(message: Message, refusal: Option<RegistryContract.Error>): Reply {
    match message
    case Named => if refusal == Some(RegistryContract.AlreadyPublished) then AlreadyThere else Failed
    case Generic => ContractError
    case MentionsSequence => SequenceCollision
    case Unclear => Failed
  }

  function Deliver(s: State, p: Pair, spec: Spec, d: Delivery): (State, Reply) {
    match d
    case NotExecuted(message) => (s, Classified(message, None))
    case Executed(confirmed, message) =>
      match Publish(s, p, spec.version, spec.hash, spec.pointer)
      case (after, Ok(_)) =>
        (after, if confirmed then Recorded
                else if message == MentionsSequence then SequenceCollision else Failed)
      case (after, Err(refusal)) => (after, Classified(message, Some(refusal)))
  }

  // ---------------------------------------------------------------- discoveries as processes

  /** Where a returned spec came from: the lookup, or publishing with this reply. */
  datatype Source = Lookup | Publication(reply: Reply)

  /** Where a discovery awaits. */
  datatype Stage =
    | Looking
    | Discovering
    | Pointing(spec: Spec)
    | Publishing(spec: Spec, attempt: nat)
    | Returned(spec: Spec, source: Source)
    | ReturnedNull
    | Threw

  datatype Task = Task(indexer: nat, contractId: ContractId, stage: Stage, publishes: nat)

  /** `accepted` logs every publish the registry accepted, by whomever. */
  datatype World = World(
    memories: map<nat, Memory>,
    tasks: map<nat, Task>,
    nextTask: nat,
    registry: State,
    accepted: seq<(Pair, Version)>,
    publisherOf: nat -> Address)

  /** `Elsewhere` is everything the registry sees from others, and the passing of ledgers. */
  datatype Event =
    | Call(indexer: nat, contractId: ContractId, now: int)
    | Looked(task: nat, found: Option<Spec>)
    | LookFailed(task: nat)
    | Discovered(task: nat, spec: Spec)
    | NoEmbeddedSpec(task: nat, now: int, ttl: int)
    | DiscoveryFailed(task: nat)
    | Pointed(task: nat)
    | PointerFailed(task: nat)
    | Published(task: nat, delivery: Delivery)
    | Settled(task: nat)
    | Elsewhere(action: RegistryRuns.Action)

  function MemoryOf(w: World, i: nat): Memory {
    if i in w.memories then w.memories[i] else Memory(map[], map[])
  }

  /** The pair a discovery publishes under. */
  function PairOf(w: World, task: Task): Pair {
    Pair(task.contractId, w.publisherOf(task.indexer))
  }

  predicate Done(s: Stage) {
    s.Returned? || s.ReturnedNull? || s.Threw?
  }

  predicate Possible(w: World, e: Event) {
    match e
    case Call(_, _, _) => true
    case Looked(t, _) => t in w.tasks && w.tasks[t].stage.Looking?
    case LookFailed(t) => t in w.tasks && w.tasks[t].stage.Looking?
    case Discovered(t, spec) => t in w.tasks && w.tasks[t].stage.Discovering? && spec.contractId == w.tasks[t].contractId
    case NoEmbeddedSpec(t, _, _) => t in w.tasks && w.tasks[t].stage.Discovering?
    case DiscoveryFailed(t) => t in w.tasks && w.tasks[t].stage.Discovering?
    case Pointed(t) => t in w.tasks && w.tasks[t].stage.Pointing?
    case PointerFailed(t) => t in w.tasks && w.tasks[t].stage.Pointing?
    case Published(t, _) => t in w.tasks && w.tasks[t].stage.Publishing?
    case Settled(t) => t in w.tasks && Done(w.tasks[t].stage)
    case Elsewhere(_) => true
  }

  /** After a publish reply: only the first attempt excuses a refusal or retries a collision. */
  function AfterReply(spec: Spec, attempt: nat, r: Reply): Stage {
    if r == Recorded then Returned(spec, Publication(r))
    else if attempt == 1 && (r == AlreadyThere || r == ContractError) then Returned(spec, Publication(r))
    else if attempt == 1 && r == SequenceCollision then Publishing(spec, 2)
    else Threw
  }

  function Advance(w: World, t: nat, s: Stage): World
    requires t in w.tasks
  {
    w.(tasks := w.tasks[t := w.tasks[t].(stage := s)])
  }

  /** The registry after a publish, logged if it was accepted. */
  function Logged(w: World, after: State, p: Pair, v: Version): World {
    w.(registry := after,
       accepted := if (p, v) in after.specs && (p, v) !in w.registry.specs then w.accepted + [(p, v)] else w.accepted)
  }

  function PublishedTo(w: World, t: nat, d: Delivery): World
    requires t in w.tasks && w.tasks[t].stage.Publishing?
  {
    var task := w.tasks[t];
    var spec := task.stage.spec;
    var (after, r) := Deliver(w.registry, PairOf(w, task), spec, d);
    var task' := task.(stage := AfterReply(spec, task.stage.attempt, r), publishes := task.publishes + 1);
    Logged(w, after, PairOf(w, task), spec.version).(tasks := w.tasks[t := task'])
  }

  function Next(w: World, e: Event): World
    requires Possible(w, e)
  {
    match e
    case Call(i, c, now) =>
      var (m, r) := EnsureDiscovered(MemoryOf(w, i), c, now, w.nextTask);
      if r.Started? then
        w.(memories := w.memories[i := m], nextTask := w.nextTask + 1,
           tasks := w.tasks[w.nextTask := Task(i, c, Looking, 0)])
      else w
    case Looked(t, found) =>
      Advance(w, t, if found.Some? then Returned(found.value, Lookup) else Discovering)
    case LookFailed(t) => Advance(w, t, Threw)
    case Discovered(t, spec) => Advance(w, t, Pointing(spec))
    case NoEmbeddedSpec(t, now, ttl) =>
      var i := w.tasks[t].indexer;
      var m := MemoryOf(w, i);
      var m' := m.(undiscoverableUntil := m.undiscoverableUntil[w.tasks[t].contractId := now + ttl]);
      Advance(w, t, ReturnedNull).(memories := w.memories[i := m'])
    case DiscoveryFailed(t) => Advance(w, t, Threw)
    case Pointed(t) => Advance(w, t, Publishing(w.tasks[t].stage.spec, 1))
    case PointerFailed(t) => Advance(w, t, Threw)
    case Published(t, d) => PublishedTo(w, t, d)
    case Settled(t) =>
      var task := w.tasks[t];
      var m := MemoryOf(w, task.indexer);
      w.(tasks := w.tasks - {t},
         memories := w.memories[task.indexer := m.(inFlight := m.inFlight - {task.contractId})])
    case Elsewhere(a) =>
      var after := RegistryRuns.Step(w.registry, a);
      if a.PublishBy? then Logged(w, after, a.pair, a.version) else w.(registry := after)
  }

  ghost predicate Run(w: World, events: seq<Event>, end: World)
    decreases |events|
  {
    if events == [] then end == w
    else Possible(w, events[0]) && Run(Next(w, events[0]), events[1..], end)
  }

  // ---------------------------------------------------------------- invariant

  /** inFlight of every indexer holds exactly its running discoveries, one per contract. */
  ghost predicate InFlightExact(w: World) {
    && (forall t | t in w.tasks ::
          var m := MemoryOf(w, w.tasks[t].indexer);
          w.tasks[t].contractId in m.inFlight && m.inFlight[w.tasks[t].contractId] == t)
    && (forall i: nat, c | c in MemoryOf(w, i).inFlight ::
          var t := MemoryOf(w, i).inFlight[c];
          t in w.tasks && w.tasks[t].indexer == i && w.tasks[t].contractId == c)
    && (forall t | t in w.tasks :: t < w.nextTask)
  }

  ghost predicate PublishesBounded(w: World) {
    forall t | t in w.tasks ::
      var task := w.tasks[t];
      && task.publishes <= 2
      && ((task.stage.Looking? || task.stage.Discovering? || task.stage.Pointing?) ==> task.publishes == 0)
      && (task.stage.Publishing? ==> 1 <= task.stage.attempt <= 2 && task.publishes == task.stage.attempt - 1)
  }

  /** The log holds exactly what is stored, and nothing twice. */
  ghost predicate AcceptedOnce(w: World) {
    && (forall k :: k in w.accepted <==> k in w.registry.specs)
    && (forall i, j | 0 <= i < j < |w.accepted| :: w.accepted[i] != w.accepted[j])
  }

  /** The record of exactly this spec is stored. */
  predicate Filed(s: State, p: Pair, spec: Spec) {
    && (p, spec.version) in s.specs
    && s.specs[(p, spec.version)].specHash == spec.hash && s.specs[(p, spec.version)].pointer == spec.pointer
  }

  /** What the reply that made a discovery return guarantees. */
  ghost predicate Honoured(s: State, p: Pair, spec: Spec, r: Reply) {
    && (r == Recorded ==> Filed(s, p, spec))
    && (r == AlreadyThere ==> (p, spec.version) in s.specs)
    && (r == Recorded || r == AlreadyThere || r == ContractError)
  }

  ghost predicate RepliesHonoured(w: World) {
    forall t | t in w.tasks && w.tasks[t].stage.Returned? && w.tasks[t].stage.source.Publication? ::
      Honoured(w.registry, PairOf(w, w.tasks[t]), w.tasks[t].stage.spec, w.tasks[t].stage.source.reply)
  }

  ghost predicate Inv(w: World) {
    InFlightExact(w) && PublishesBounded(w) && RegistryInv(w)
  }

  ghost predicate RegistryInv(w: World) {
    RegistryRuns.Inv(w.registry) && AcceptedOnce(w) && RepliesHonoured(w)
  }

  function NoIndexers(minTtl: nat, publisherOf: nat -> Address): World {
    World(map[], map[], 0, RegistryRuns.Empty(minTtl), [], publisherOf)
  }

  lemma InitialInv(minTtl: nat, publisherOf: nat -> Address)
    requires minTtl <= MAX_ENTRY_TTL
    ensures Inv(NoIndexers(minTtl, publisherOf))
  {
    RegistryRuns.InitialInv(minTtl);
  }

  lemma CallKeepsInFlight(w: World, i: nat, c: ContractId, now: int)
    requires InFlightExact(w)
    ensures InFlightExact(Next(w, Call(i, c, now)))
  {
    var v := Next(w, Call(i, c, now));
    if v != w {
      assert forall j: nat | j != i :: MemoryOf(v, j) == MemoryOf(w, j);
      StartKeepsInFlight(w, v, i, c, v.tasks[w.nextTask]);
    }
  }

  /** A new task of an indexer that had none for the contract. */
  lemma StartKeepsInFlight(w: World, v: World, i: nat, c: ContractId, task: Task)
    requires InFlightExact(w) && c !in MemoryOf(w, i).inFlight
    requires forall j: nat | j != i :: MemoryOf(v, j) == MemoryOf(w, j)
    requires MemoryOf(v, i).inFlight == MemoryOf(w, i).inFlight[c := w.nextTask]
    requires v.tasks == w.tasks[w.nextTask := task] && v.nextTask == w.nextTask + 1
    requires task.indexer == i && task.contractId == c
    ensures InFlightExact(v)
  {
    forall t | t in v.tasks
      ensures var m := MemoryOf(v, v.tasks[t].indexer);
              v.tasks[t].contractId in m.inFlight && m.inFlight[v.tasks[t].contractId] == t
      ensures t < v.nextTask
    {
      if t != w.nextTask {
        assert t in w.tasks && v.tasks[t] == w.tasks[t];
      }
    }
    forall j: nat, d | d in MemoryOf(v, j).inFlight
      ensures var t := MemoryOf(v, j).inFlight[d];
              t in v.tasks && v.tasks[t].indexer == j && v.tasks[t].contractId == d
    {
      if j != i || d != c {
        assert d in MemoryOf(w, j).inFlight;
        var t := MemoryOf(w, j).inFlight[d];
        assert t in w.tasks && v.tasks[t] == w.tasks[t];
      }
    }
  }

  lemma SettlingKeepsInFlight(w: World, t: nat)
    requires InFlightExact(w) && Possible(w, Settled(t))
    ensures InFlightExact(Next(w, Settled(t)))
  {
    var v, task := Next(w, Settled(t)), w.tasks[t];
    assert forall j: nat | j != task.indexer :: MemoryOf(v, j) == MemoryOf(w, j);
    assert MemoryOf(v, task.indexer).inFlight == MemoryOf(w, task.indexer).inFlight - {task.contractId};
  }

  lemma EventKeepsInFlight(w: World, e: Event)
    requires InFlightExact(w) && Possible(w, e)
    ensures InFlightExact(Next(w, e))
  {
    match e
    case Call(i, c, now) => CallKeepsInFlight(w, i, c, now);
    case Settled(t) => SettlingKeepsInFlight(w, t);
    case _ =>
      OtherEventsKeepTasks(w, e);
      SameTaskKeys(w, Next(w, e));
  }

  /** Only stages, counts and back-off times differ. */
  ghost predicate SameTasks(w: World, v: World) {
    && v.nextTask == w.nextTask && v.tasks.Keys == w.tasks.Keys
    && (forall t | t in w.tasks ::
          v.tasks[t].indexer == w.tasks[t].indexer && v.tasks[t].contractId == w.tasks[t].contractId)
    && forall j: nat :: MemoryOf(v, j).inFlight == MemoryOf(w, j).inFlight
  }

  lemma OtherEventsKeepTasks(w: World, e: Event)
    requires Possible(w, e) && !e.Call? && !e.Settled?
    ensures SameTasks(w, Next(w, e))
  {
    assert e.Elsewhere? || e.task in w.tasks;
  }

  lemma SameTaskKeys(w: World, v: World)
    requires InFlightExact(w) && SameTasks(w, v)
    ensures InFlightExact(v)
  {
  }

  lemma EventKeepsBounds(w: World, e: Event)
    requires PublishesBounded(w) && Possible(w, e)
    ensures PublishesBounded(Next(w, e))
  {
  }

  /** What a publish, accepted or not, does to the registry. */
  lemma PublishEffect(s: State, p: Pair, v: Version, h: string, ptr: string)
    requires RegistryRuns.Inv(s)
    ensures var (t, r) := Publish(s, p, v, h, ptr);
            && RegistryRuns.Inv(t) && RegistryRuns.Later(s, t)
            && (r.Ok? ==> (p, v) !in s.specs && t.specs == s.specs[(p, v) := Record(v, h, ptr, p.publisher, s.time, s.ledger)])
            && (r.Err? ==> t == s)
            && (r == Err(RegistryContract.AlreadyPublished) ==> (p, v) in s.specs)
  {
    var a := RegistryRuns.PublishBy(p, v, h, ptr);
    RegistryRuns.StepKeepsInv(s, a);
    RegistryRuns.StepIsLater(s, a);
  }

  /** Later states still honour what a reply promised. */
  lemma HonouredLater(s: State, t: State, p: Pair, spec: Spec, r: Reply)
    requires Honoured(s, p, spec, r) && RegistryRuns.Later(s, t)
    ensures Honoured(t, p, spec, r)
  {
  }

  lemma LoggedKeepsLog(w: World, after: State, p: Pair, v: Version)
    requires AcceptedOnce(w)
    requires after.specs.Keys == w.registry.specs.Keys || after.specs.Keys == w.registry.specs.Keys + {(p, v)}
    ensures AcceptedOnce(Logged(w, after, p, v)) && w.accepted <= Logged(w, after, p, v).accepted
  {
    var v' := Logged(w, after, p, v);
    forall k ensures k in v'.accepted <==> k in after.specs {
      assert k in v'.accepted <==> k in w.accepted || (v'.accepted != w.accepted && k == (p, v));
      assert k in after.specs <==> k in after.specs.Keys;
      assert k in w.registry.specs <==> k in w.registry.specs.Keys;
    }
  }

  lemma DeliverEffect(s: State, p: Pair, spec: Spec, d: Delivery)
    requires RegistryRuns.Inv(s)
    ensures var (t, r) := Deliver(s, p, spec, d);
            && RegistryRuns.Inv(t) && RegistryRuns.Later(s, t)
            && (t.specs.Keys == s.specs.Keys || t.specs.Keys == s.specs.Keys + {(p, spec.version)})
            && (r == Recorded ==> Filed(t, p, spec) && (p, spec.version) !in s.specs)
            && (r == AlreadyThere ==> (p, spec.version) in s.specs)
            && (r == AlreadyThere || r == ContractError ==> t == s)
  {
    PublishEffect(s, p, spec.version, spec.hash, spec.pointer);
    RegistryRuns.RunIsLater(s, []);
  }

  lemma PublishingKeepsRegistry(w: World, t: nat, d: Delivery)
    requires RegistryInv(w) && Possible(w, Published(t, d))
    ensures var v := Next(w, Published(t, d));
            RegistryInv(v) && RegistryRuns.Later(w.registry, v.registry) && w.accepted <= v.accepted
  {
    var task := w.tasks[t];
    var v := Next(w, Published(t, d));
    DeliverEffect(w.registry, PairOf(w, task), task.stage.spec, d);
    LoggedKeepsLog(w, v.registry, PairOf(w, task), task.stage.spec.version);
    forall u | u in v.tasks && v.tasks[u].stage.Returned? && v.tasks[u].stage.source.Publication?
      ensures Honoured(v.registry, PairOf(v, v.tasks[u]), v.tasks[u].stage.spec, v.tasks[u].stage.source.reply)
    {
      if u != t {
        HonouredLater(w.registry, v.registry, PairOf(w, w.tasks[u]), w.tasks[u].stage.spec, w.tasks[u].stage.source.reply);
      }
    }
  }

  lemma ElsewhereKeepsRegistry(w: World, a: RegistryRuns.Action)
    requires RegistryInv(w)
    ensures var v := Next(w, Elsewhere(a));
            RegistryInv(v) && RegistryRuns.Later(w.registry, v.registry) && w.accepted <= v.accepted
  {
    var v := Next(w, Elsewhere(a));
    RegistryRuns.StepKeepsInv(w.registry, a);
    RegistryRuns.StepIsLater(w.registry, a);
    if a.PublishBy? {
      PublishEffect(w.registry, a.pair, a.version, a.specHash, a.pointer);
      LoggedKeepsLog(w, v.registry, a.pair, a.version);
    }
    forall u | u in v.tasks && v.tasks[u].stage.Returned? && v.tasks[u].stage.source.Publication?
      ensures Honoured(v.registry, PairOf(v, v.tasks[u]), v.tasks[u].stage.spec, v.tasks[u].stage.source.reply)
    {
      HonouredLater(w.registry, v.registry, PairOf(w, w.tasks[u]), w.tasks[u].stage.spec, w.tasks[u].stage.source.reply);
    }
  }

  lemma EventKeepsRegistry(w: World, e: Event)
    requires RegistryInv(w) && Possible(w, e)
    ensures var v := Next(w, e);
            RegistryInv(v) && RegistryRuns.Later(w.registry, v.registry) && w.accepted <= v.accepted
  {
    match e
    case Published(t, d) => PublishingKeepsRegistry(w, t, d);
    case Elsewhere(a) => ElsewhereKeepsRegistry(w, a);
    case _ => RegistryRuns.RunIsLater(w.registry, []);
  }

  /**
   On every interleaving of any number of indexers with each other and with everyone else
   who uses the registry: at most one discovery runs per indexer and contract, each
   publishes at most twice, of all publishes of one triple the registry accepts one, and
   a reply `Recorded` or `AlreadyThere` stays true of the registry.
   */
  lemma {:induction false} IndexersAreSafe(w: World, events: seq<Event>, end: World)
    requires Inv(w) && Run(w, events, end)
    ensures Inv(end) && RegistryRuns.Later(w.registry, end.registry) && w.accepted <= end.accepted
    decreases |events|
  {
    if events == [] {
      RegistryRuns.RunIsLater(w.registry, []);
    } else {
      var v := Next(w, events[0]);
      EventKeepsInFlight(w, events[0]);
      EventKeepsBounds(w, events[0]);
      EventKeepsRegistry(w, events[0]);
      IndexersAreSafe(v, events[1..], end);
      RegistryRuns.LaterTransitive(w.registry, v.registry, end.registry);
    }
  }

  lemma OneDiscoveryPerContract(w: World, s: nat, t: nat)
    requires Inv(w) && s in w.tasks && t in w.tasks
    requires w.tasks[s].indexer == w.tasks[t].indexer && w.tasks[s].contractId == w.tasks[t].contractId
    ensures s == t
  {
  }

  /**
   When a publish call makes a discovery return, its triple is stored exactly unless the
   caller saw a generic contract error and the triple was not there before.
   */
  lemma ReturnedIsStoredExactly(w: World, t: nat, d: Delivery)
    requires Inv(w) && Possible(w, Published(t, d))
    requires Next(w, Published(t, d)).tasks[t].stage.Returned?
    ensures var task := w.tasks[t];
            var k := (PairOf(w, task), task.stage.spec.version);
            var v := Next(w, Published(t, d));
            && v.tasks[t].stage.source.Publication?
            && (k in v.registry.specs <==> v.tasks[t].stage.source.reply != ContractError || k in w.registry.specs)
  {
    DeliverEffect(w.registry, PairOf(w, w.tasks[t]), w.tasks[t].stage.spec, d);
  }

  /** ... and it is filed with its own hash and pointer exactly when it was recorded now or had been filed before. */
  lemma ReturnedIsFiledExactly(w: World, t: nat, d: Delivery)
    requires Inv(w) && Possible(w, Published(t, d))
    requires Next(w, Published(t, d)).tasks[t].stage.Returned?
    ensures var task := w.tasks[t];
            var v := Next(w, Published(t, d));
            && v.tasks[t].stage.source.Publication?
            && (Filed(v.registry, PairOf(w, task), task.stage.spec)
                <==> v.tasks[t].stage.source.reply == Recorded || Filed(w.registry, PairOf(w, task), task.stage.spec))
  {
    DeliverEffect(w.registry, PairOf(w, w.tasks[t]), w.tasks[t].stage.spec, d);
  }

  /**
   From an empty registry, after any run: the registry accepted no triple twice; a spec returned
   on `Recorded` is filed to this day, one returned on any reply but a contract error is stored
   under its triple; so a returned spec that is nowhere stored was returned on a contract error.
   */
  lemma ReturnedSpecsAfterAnyRun(minTtl: nat, publisherOf: nat -> Address, events: seq<Event>, end: World, t: nat)
    requires minTtl <= MAX_ENTRY_TTL && Run(NoIndexers(minTtl, publisherOf), events, end)
    requires t in end.tasks && end.tasks[t].stage.Returned? && end.tasks[t].stage.source.Publication?
    ensures forall i, j | 0 <= i < j < |end.accepted| :: end.accepted[i] != end.accepted[j]
    ensures var task := end.tasks[t];
            var spec, reply := task.stage.spec, task.stage.source.reply;
            && (reply == Recorded ==> Filed(end.registry, PairOf(end, task), spec))
            && ((PairOf(end, task), spec.version) !in end.registry.specs ==> reply == ContractError)
  {
    InitialInv(minTtl, publisherOf);
    IndexersAreSafe(NoIndexers(minTtl, publisherOf), events, end);
    assert Honoured(end.registry, PairOf(end, end.tasks[t]), end.tasks[t].stage.spec, end.tasks[t].stage.source.reply);
  }

  // ---------------------------------------------------------------- returned, yet not stored

  lemma OneEvent(w: World, e: Event, rest: seq<Event>, end: World)
    requires Possible(w, e) && Run(Next(w, e), rest, end)
    ensures Run(w, [e] + rest, end)
  {
    assert ([e] + rest)[1..] == rest;
  }

  /** The steps of one discovery from the call to the publish reply, with nothing in between. */
  lemma DiscoveryRun(w: World, i: nat, spec: Spec, d: Delivery) returns (events: seq<Event>, end: World)
    requires i !in w.memories
    ensures Run(w, events, end) && w.nextTask in end.tasks && end.publisherOf == w.publisherOf
    ensures var (after, r) := Deliver(w.registry, Pair(spec.contractId, w.publisherOf(i)), spec, d);
            end.registry == after && end.tasks[w.nextTask] == Task(i, spec.contractId, AfterReply(spec, 1, r), 1)
  {
    var t := w.nextTask;
    var w1 := Next(w, Call(i, spec.contractId, 0));
    var w2 := Next(w1, Looked(t, None));
    var w3 := Next(w2, Discovered(t, spec));
    var w4 := Next(w3, Pointed(t));
    end := Next(w4, Published(t, d));
    OneEvent(w4, Published(t, d), [], end);
    OneEvent(w3, Pointed(t), [Published(t, d)] + [], end);
    OneEvent(w2, Discovered(t, spec), [Pointed(t)] + ([Published(t, d)] + []), end);
    OneEvent(w1, Looked(t, None), [Discovered(t, spec)] + ([Pointed(t)] + ([Published(t, d)] + [])), end);
    events := [Looked(t, None)] + ([Discovered(t, spec)] + ([Pointed(t)] + ([Published(t, d)] + [])));
    OneEvent(w, Call(i, spec.contractId, 0), events, end);
    events := [Call(i, spec.contractId, 0)] + events;
  }

  /**
   Someone publishes version "1"; its list expires; an indexer discovers version "2" and
   the registry refuses to be reached. Reported as a contract error the refusal makes the
   discovery return a spec that is nowhere stored.
   */
  lemma RefusalTakenForSuccess(minTtl: nat, publisherOf: nat -> Address, c: ContractId)
    returns (events: seq<Event>, end: World)
    requires minTtl <= MAX_ENTRY_TTL
    ensures Run(NoIndexers(minTtl, publisherOf), events, end) && 0 in end.tasks
    ensures var spec := Spec(c, "2", "h", "x");
            && end.tasks[0].stage == Returned(spec, Publication(ContractError))
            && (Pair(c, publisherOf(0)), "2") !in end.registry.specs
  {
    var w0, p := NoIndexers(minTtl, publisherOf), Pair(c, publisherOf(0));
    var publish, close := RegistryRuns.PublishBy(p, "1", "h", "x"), RegistryRuns.Close(MAX_ENTRY_TTL + 1, 0);
    RegistryRuns.InitialInv(minTtl);
    RegistryRuns.PublishRefreshes(w0.registry, p, "1", "h", "x");
    var w1 := Next(w0, Elsewhere(publish));
    var w2 := Next(w1, Elsewhere(close));
    assert VersionsKey(p) in w1.registry.liveUntil && Refreshed(w1.registry.liveUntil[VersionsKey(p)], 0);
    assert IsArchived(w2.registry, VersionsKey(p));
    events, end := DiscoveryRun(w2, 0, Spec(c, "2", "h", "x"), Executed(true, Generic));
    OneEvent(w1, Elsewhere(close), events, end);
    OneEvent(w0, Elsewhere(publish), [Elsewhere(close)] + events, end);
    events := [Elsewhere(publish)] + ([Elsewhere(close)] + events);
  }

  /** Someone else's version "1" is in place: the discovery returns its own spec, which is not the one filed. */
  lemma ReturnsAnotherSpecThanFiled(minTtl: nat, publisherOf: nat -> Address, c: ContractId)
    returns (events: seq<Event>, end: World)
    requires minTtl <= MAX_ENTRY_TTL
    ensures Run(NoIndexers(minTtl, publisherOf), events, end) && 0 in end.tasks
    ensures var spec := Spec(c, "1", "mine", "x");
            var k := (Pair(c, publisherOf(0)), "1");
            && end.tasks[0].stage == Returned(spec, Publication(AlreadyThere))
            && k in end.registry.specs && end.registry.specs[k].specHash == "theirs"
  {
    var w0, p := NoIndexers(minTtl, publisherOf), Pair(c, publisherOf(0));
    var publish := RegistryRuns.PublishBy(p, "1", "theirs", "x");
    RegistryRuns.InitialInv(minTtl);
    RegistryRuns.PublishRefreshes(w0.registry, p, "1", "theirs", "x");
    var w1 := Next(w0, Elsewhere(publish));
    events, end := DiscoveryRun(w1, 0, Spec(c, "1", "mine", "x"), Executed(true, Named));
    OneEvent(w0, Elsewhere(publish), events, end);
    events := [Elsewhere(publish)] + events;
  }

  // ---------------------------------------------------------------- when a discovery starts, and how it ends

  /** A call starts a discovery exactly when the contract is not being backed off from and none is running for it. */
  lemma StartsExactly(w: World, i: nat, c: ContractId, now: int)
    requires InFlightExact(w)
    ensures var v := Next(w, Call(i, c, now));
            var until := MemoryOf(w, i).undiscoverableUntil;
            var start := !(c in until && now < until[c])
                         && forall t | t in w.tasks :: !(w.tasks[t].indexer == i && w.tasks[t].contractId == c);
            && v.tasks == (if start then w.tasks[w.nextTask := Task(i, c, Looking, 0)] else w.tasks)
            && v.nextTask == (if start then w.nextTask + 1 else w.nextTask)
            && MemoryOf(v, i).undiscoverableUntil == until
  {
    var m := MemoryOf(w, i);
    if c in m.inFlight {
      assert m.inFlight[c] in w.tasks;
    }
  }

  /** The indexer backs off from the contract at least until then. */
  predicate BacksOff(w: World, i: nat, c: ContractId, until: int) {
    c in MemoryOf(w, i).undiscoverableUntil && until <= MemoryOf(w, i).undiscoverableUntil[c]
  }

  /** How many of the calls of an indexer for a contract, made before a time, start a discovery. */
  ghost function StartsBefore(w: World, events: seq<Event>, i: nat, c: ContractId, until: int): nat
    decreases |events|
  {
    if events == [] || !Possible(w, events[0]) then 0
    else
      var (e, v) := (events[0], Next(w, events[0]));
      (if e.Call? && e.indexer == i && e.contractId == c && e.now < until && v.nextTask > w.nextTask then 1 else 0)
      + StartsBefore(v, events[1..], i, c, until)
  }

  lemma BackOffStays(w: World, e: Event, i: nat, c: ContractId, until: int)
    requires Possible(w, e) && BacksOff(w, i, c, until) && (e.NoEmbeddedSpec? ==> e.now + e.ttl >= until)
    ensures BacksOff(Next(w, e), i, c, until)
    ensures e.Call? && e.indexer == i && e.contractId == c && e.now < until ==> Next(w, e) == w
  {
  }

  /**
   While an indexer backs off from a contract it starts no discovery for it before the retry
   time, whatever happens in between, as long as no later finding sets an earlier one.
   */
  lemma {:induction false} NoDiscoveryWhileBackingOff(w: World, events: seq<Event>, i: nat, c: ContractId, until: int)
    requires BacksOff(w, i, c, until)
    requires forall k | 0 <= k < |events| && events[k].NoEmbeddedSpec? :: events[k].now + events[k].ttl >= until
    ensures StartsBefore(w, events, i, c, until) == 0
    decreases |events|
  {
    if events != [] && Possible(w, events[0]) {
      BackOffStays(w, events[0], i, c, until);
      NoDiscoveryWhileBackingOff(Next(w, events[0]), events[1..], i, c, until);
    }
  }

  /** A discovery that finds no embedded interface returns nothing, and its indexer backs off from the contract. */
  lemma FindingNoneBacksOff(w: World, t: nat, now: int, ttl: int)
    requires Possible(w, NoEmbeddedSpec(t, now, ttl))
    ensures var v := Next(w, NoEmbeddedSpec(t, now, ttl));
            && t in v.tasks && v.tasks[t].stage == ReturnedNull
            && BacksOff(v, w.tasks[t].indexer, w.tasks[t].contractId, now + ttl)
  {
  }

  /**
   How a publish call ends. The discovery returns its spec when the registry stored it and
   the caller saw that; or, on the first attempt only, when the registry refused it as already
   published, or the caller saw a contract error for what was not stored. A message that
   mentions the sequence number leads to one second attempt. Everything else throws.
   */
  lemma PublishEndsExactly(w: World, t: nat, d: Delivery)
    requires Possible(w, Published(t, d)) && 1 <= w.tasks[t].stage.attempt <= 2
    ensures var (spec, first) := (w.tasks[t].stage.spec, w.tasks[t].stage.attempt == 1);
            var p := Pair(w.tasks[t].contractId, w.publisherOf(w.tasks[t].indexer));
            var (after, r) := Publish(w.registry, p, spec.version, spec.hash, spec.pointer);
            var v := Next(w, Published(t, d));
            var stored := d.Executed? && r.Ok?;
            var refused := d.Executed? && r == Err(AlreadyPublished) && d.message == Named;
            && v.registry == (if d.Executed? then after else w.registry)
            && match v.tasks[t].stage
               case Returned(s, _) => s == spec && ((stored && d.confirmed) || (first && !stored && (refused || d.message == Generic)))
               case Publishing(s, n) => s == spec && n == 2 && first && !(stored && d.confirmed) && d.message == MentionsSequence
               case Threw =>
                 && !(stored && d.confirmed)
                 && (first ==> d.message != MentionsSequence && (stored || (!refused && d.message != Generic)))
               case _ => false
  {
  }
}
