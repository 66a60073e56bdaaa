/**
 What the outcome of attestation resolution depends on: only the set of documents that
 verify, never their order or multiplicity, and for one attester only that attester's own.
 */
module AttestationTheorems {
  import opened Results
  import opened Attestations
  import opened AttestationPolicy

  // ---------------------------------------------------------------- the outcome in terms of documents

  /** Hashes are ordered as distinct documents have distinct hashes. */
  ghost predicate InjectiveRank(c: Crypto) {
    forall d: Doc, e: Doc :: c.hexRank(d) == c.hexRank(e) ==> d == e
  }

  ghost function Admitted(envelopes: seq<Envelope>, o: Options, c: Crypto): set<Doc> {
    set e | e in envelopes && EntryProblem(e, o, c) == None :: e.payload
  }

  ghost predicate RetiredIn(docs: set<Doc>, d: Doc) {
    exists r | r in docs :: r.supersedes == Some(H(d)) && r.attester == d.attester
  }

  function TrustOf(d: Doc, o: Options): Trust {
    ClassifyAttester(d.attester, o.deployer)
  }

  predicate Acceptable(d: Doc, o: Options) {
    ExpiryProblem(d, o.now) == None && MeetsMinimumTrust(TrustOf(d, o), o.minimumTrust)
  }

  ghost predicate LiveIn(docs: set<Doc>, d: Doc, o: Options) {
    d in docs && !RetiredIn(docs, d) && Acceptable(d, o)
  }

  function Created(d: Doc): int {
    match d.createdAt
    case Some(ms) => ms
    case None => 0
  }

  predicate Before(a: Doc, b: Doc, o: Options, c: Crypto) {
    var ta, tb := Rank(TrustOf(a, o)), Rank(TrustOf(b, o));
    || ta > tb
    || (ta == tb && Created(a) > Created(b))
    || (ta == tb && Created(a) == Created(b) && c.hexRank(a) < c.hexRank(b))
  }

  ghost predicate Ranked(ds: seq<Doc>, o: Options, c: Crypto) {
    forall i, j | 0 <= i < j < |ds| :: Before(ds[i], ds[j], o, c)
  }

  function Docs(rs: seq<Resolved>): (ds: seq<Doc>)
    ensures |ds| == |rs| && forall i | 0 <= i < |rs| :: ds[i] == rs[i].envelope.payload
  {
    if rs == [] then [] else [rs[0].envelope.payload] + Docs(rs[1..])
  }

  ghost predicate DistinctDocs(rs: seq<Resolved>) {
    forall i, j | 0 <= i < j < |rs| :: rs[i].envelope.payload != rs[j].envelope.payload
  }

  ghost predicate Graded(rs: seq<Resolved>, o: Options) {
    forall r | r in rs :: r.trust == TrustOf(r.envelope.payload, o)
  }

  // ---------------------------------------------------------------- candidates

  lemma {:induction false} CandidatesAreAdmitted(envelopes: seq<Envelope>, o: Options, c: Crypto)
    ensures var cs := Candidates(envelopes, o, c);
            && DistinctDocs(cs) && Graded(cs, o)
            && (forall r | r in cs :: r.envelope.publicKey == r.envelope.payload.attester)
            && (forall r | r in cs :: r.envelope.payload in Admitted(envelopes, o, c))
            && (forall d | d in Admitted(envelopes, o, c) :: exists r | r in cs :: r.envelope.payload == d)
  {
    if envelopes != [] {
      var n := |envelopes| - 1;
      var init, e := envelopes[..n], envelopes[n];
      CandidatesAreAdmitted(init, o, c);
      assert envelopes == init + [e];
      var before, cs := Candidates(init, o, c), Candidates(envelopes, o, c);
      forall d | d in Admitted(envelopes, o, c) ensures exists r | r in cs :: r.envelope.payload == d {
        if d in Admitted(init, o, c) {
          var r :| r in before && r.envelope.payload == d;
          assert r in cs;
        } else {
          assert d == e.payload;
          if !Seen(before, e) {
            assert cs[|before|].envelope == e;
          }
        }
      }
      if EntryProblem(e, o, c) == None && !Seen(before, e) {
        forall i | 0 <= i < |before| ensures before[i].envelope.payload != e.payload {
          assert before[i] in before;
          assert !SameKey(before[i].envelope, e);
        }
      }
    }
  }

  /** No document names its own hash. */
  lemma NotSelfSuperseding(d: Doc)
    ensures d.supersedes != Some(H(d))
  {
  }

  lemma RetiredByDocs(envelopes: seq<Envelope>, o: Options, c: Crypto, x: Resolved)
    requires x in Candidates(envelopes, o, c)
    ensures IsRetired(Candidates(envelopes, o, c), x) <==> RetiredIn(Admitted(envelopes, o, c), x.envelope.payload)
  {
    CandidatesAreAdmitted(envelopes, o, c);
    var cs, docs := Candidates(envelopes, o, c), Admitted(envelopes, o, c);
    if RetiredIn(docs, x.envelope.payload) {
      var d :| d in docs && d.supersedes == Some(H(x.envelope.payload)) && d.attester == x.envelope.payload.attester;
      var r :| r in cs && r.envelope.payload == d;
      NotSelfSuperseding(d);
      assert Retires(r, x);
    }
  }

  // ---------------------------------------------------------------- filters and sorting

  lemma {:induction false} LiveMembers(cs: seq<Resolved>, among: seq<Resolved>, o: Options)
    ensures forall r :: r in Live(cs, among, o) <==> r in among && !IsRetired(cs, r) && LateProblem(r, o) == None
    ensures DistinctDocs(among) ==> DistinctDocs(Live(cs, among, o))
  {
    if among != [] {
      var n := |among| - 1;
      LiveMembers(cs, among[..n], o);
      assert among == among[..n] + [among[n]];
      var before := Live(cs, among[..n], o);
      if DistinctDocs(among) {
        forall i | 0 <= i < |before| ensures before[i].envelope.payload != among[n].envelope.payload {
          assert before[i] in among[..n];
        }
      }
    }
  }

  lemma {:induction false} SupersededMembers(cs: seq<Resolved>, among: seq<Resolved>)
    ensures forall r :: r in Superseded(cs, among) <==> r in among && IsRetired(cs, r)
    ensures DistinctDocs(among) ==> DistinctDocs(Superseded(cs, among))
  {
    if among != [] {
      var n := |among| - 1;
      SupersededMembers(cs, among[..n]);
      assert among == among[..n] + [among[n]];
      var before := Superseded(cs, among[..n]);
      if DistinctDocs(among) {
        forall i | 0 <= i < |before| ensures before[i].envelope.payload != among[n].envelope.payload {
          assert before[i] in among[..n];
        }
      }
    }
  }

  lemma CompareIsBefore(a: Resolved, b: Resolved, o: Options, c: Crypto)
    requires InjectiveRank(c) && Graded([a, b], o) && a.envelope.payload != b.envelope.payload
    ensures CompareResolved(a, b, c) < 0 <==> Before(a.envelope.payload, b.envelope.payload, o, c)
    ensures CompareResolved(a, b, c) > 0 <==> Before(b.envelope.payload, a.envelope.payload, o, c)
    ensures CompareResolved(a, b, c) != 0
  {
    assert a in [a, b] && b in [a, b];
    assert c.hexRank(a.envelope.payload) != c.hexRank(b.envelope.payload);
  }

  lemma RankedCons(d: Doc, ds: seq<Doc>, o: Options, c: Crypto)
    requires Ranked(ds, o, c) && forall x | x in ds :: Before(d, x, o, c)
    ensures Ranked([d] + ds, o, c)
  {
    forall i, j | 0 <= i < j < |ds| + 1 ensures Before(([d] + ds)[i], ([d] + ds)[j], o, c) {
      assert ds[j - 1] in ds;
    }
  }

  lemma BeforeTransitive(x: Doc, y: Doc, z: Doc, o: Options, c: Crypto)
    requires Before(x, y, o, c) && Before(y, z, o, c)
    ensures Before(x, z, o, c)
  {
  }

  /** Goes first: ahead of the head, and so of everything. */
  lemma RankedFirst(d: Doc, ds: seq<Doc>, o: Options, c: Crypto)
    requires ds != [] && Ranked(ds, o, c) && Before(d, ds[0], o, c)
    ensures Ranked([d] + ds, o, c)
  {
    forall x | x in ds ensures Before(d, x, o, c) {
      if x != ds[0] {
        BeforeTransitive(d, ds[0], x, o, c);
      }
    }
    RankedCons(d, ds, o, c);
  }

  lemma {:induction false} InsertRanked(r: Resolved, rs: seq<Resolved>, o: Options, c: Crypto)
    requires InjectiveRank(c) && Graded([r] + rs, o) && Ranked(Docs(rs), o, c)
    requires forall x | x in rs :: x.envelope.payload != r.envelope.payload
    ensures Ranked(Docs(InsertResolved(r, rs, c)), o, c)
  {
    if rs != [] {
      assert rs[0] in rs && rs[0] in [r] + rs && r in [r] + rs;
      CompareIsBefore(r, rs[0], o, c);
      if CompareResolved(r, rs[0], c) <= 0 {
        RankedFirst(r.envelope.payload, Docs(rs), o, c);
      } else {
        assert Docs(rs)[1..] == Docs(rs[1..]);
        forall x | x in [r] + rs[1..] ensures x in [r] + rs {}
        InsertRanked(r, rs[1..], o, c);
        HeadStaysFirst(r, rs, o, c);
      }
    }
  }

  lemma HeadStaysFirst(r: Resolved, rs: seq<Resolved>, o: Options, c: Crypto)
    requires rs != [] && Ranked(Docs(rs), o, c) && Before(rs[0].envelope.payload, r.envelope.payload, o, c)
    requires Ranked(Docs(InsertResolved(r, rs[1..], c)), o, c)
    ensures Ranked([rs[0].envelope.payload] + Docs(InsertResolved(r, rs[1..], c)), o, c)
  {
    var first, tail := rs[0].envelope.payload, InsertResolved(r, rs[1..], c);
    forall d | d in Docs(tail) ensures Before(first, d, o, c) {
      var i :| 0 <= i < |tail| && Docs(tail)[i] == d;
      InsertedMember(r, rs[1..], c, tail[i]);
      if tail[i] != r {
        HeadIsBefore(rs, o, c, tail[i]);
      }
    }
    RankedCons(first, Docs(tail), o, c);
  }

  lemma InsertedMember(r: Resolved, rs: seq<Resolved>, c: Crypto, x: Resolved)
    requires x in InsertResolved(r, rs, c)
    ensures x == r || x in rs
  {
    assert x in multiset(InsertResolved(r, rs, c));
  }

  lemma HeadIsBefore(rs: seq<Resolved>, o: Options, c: Crypto, x: Resolved)
    requires rs != [] && Ranked(Docs(rs), o, c) && x in rs[1..]
    ensures Before(rs[0].envelope.payload, x.envelope.payload, o, c)
  {
    var k :| 1 <= k < |rs| && rs[k] == x;
    assert Before(Docs(rs)[0], Docs(rs)[k], o, c);
  }

  lemma {:induction false} SortRanked(rs: seq<Resolved>, o: Options, c: Crypto)
    requires InjectiveRank(c) && Graded(rs, o) && DistinctDocs(rs)
    ensures Ranked(Docs(SortResolved(rs, c)), o, c)
  {
    if rs != [] {
      SortRanked(rs[1..], o, c);
      var sorted := SortResolved(rs[1..], c);
      forall x | x in sorted ensures x in rs[1..] {
        assert x in multiset(sorted);
      }
      InsertRanked(rs[0], sorted, o, c);
    }
  }

  /** The ranking of a set of documents is unique. */
  lemma {:induction false} RankedUnique(a: seq<Doc>, b: seq<Doc>, o: Options, c: Crypto)
    requires Ranked(a, o, c) && Ranked(b, o, c)
    requires forall d :: d in a <==> d in b
    ensures a == b
  {
    assert a != [] ==> a[0] in b;
    assert b != [] ==> b[0] in a;
    if a != [] && b != [] {
      var i :| 0 <= i < |b| && b[i] == a[0];
      var j :| 0 <= j < |a| && a[j] == b[0];
      assert a[0] == b[0];
      forall d ensures d in a[1..] <==> d in b[1..] {
        if d in a[1..] {
          assert d in a;
        }
        if d in b[1..] {
          assert d in b;
        }
      }
      RankedUnique(a[1..], b[1..], o, c);
    }
  }

  // ---------------------------------------------------------------- the outcome, characterized

  lemma InDocs(rs: seq<Resolved>, d: Doc)
    ensures d in Docs(rs) <==> exists r | r in rs :: r.envelope.payload == d
  {
    if d in Docs(rs) {
      var i :| 0 <= i < |rs| && Docs(rs)[i] == d;
      assert rs[i] in rs;
    }
    if r :| r in rs && r.envelope.payload == d {
      var i :| 0 <= i < |rs| && rs[i] == r;
      assert Docs(rs)[i] == d;
    }
  }

  lemma EffectiveMembers(envelopes: seq<Envelope>, o: Options, c: Crypto, r: Resolved)
    ensures var cs := Candidates(envelopes, o, c);
            r in Resolve(envelopes, o, c).effective <==> r in cs && !IsRetired(cs, r) && LateProblem(r, o) == None
  {
    var cs := Candidates(envelopes, o, c);
    LiveMembers(cs, cs, o);
    var live, sorted := Live(cs, cs, o), Resolve(envelopes, o, c).effective;
    assert r in sorted <==> r in multiset(sorted);
    assert r in live <==> r in multiset(live);
  }

  lemma EffectiveDocument(envelopes: seq<Envelope>, o: Options, c: Crypto, d: Doc)
    ensures d in Docs(Resolve(envelopes, o, c).effective) <==> LiveIn(Admitted(envelopes, o, c), d, o)
  {
    CandidatesAreAdmitted(envelopes, o, c);
    InDocs(Resolve(envelopes, o, c).effective, d);
    if r :| r in Resolve(envelopes, o, c).effective && r.envelope.payload == d {
      EffectiveMembers(envelopes, o, c, r);
      RetiredByDocs(envelopes, o, c, r);
    }
    if LiveIn(Admitted(envelopes, o, c), d, o) {
      var x :| x in Candidates(envelopes, o, c) && x.envelope.payload == d;
      RetiredByDocs(envelopes, o, c, x);
      EffectiveMembers(envelopes, o, c, x);
    }
  }

  lemma SupersededDocument(envelopes: seq<Envelope>, o: Options, c: Crypto, d: Doc)
    ensures d in Docs(Resolve(envelopes, o, c).superseded)
       <==> d in Admitted(envelopes, o, c) && RetiredIn(Admitted(envelopes, o, c), d)
  {
    var cs := Candidates(envelopes, o, c);
    CandidatesAreAdmitted(envelopes, o, c);
    SupersededMembers(cs, cs);
    InDocs(Resolve(envelopes, o, c).superseded, d);
    if r :| r in Resolve(envelopes, o, c).superseded && r.envelope.payload == d {
      RetiredByDocs(envelopes, o, c, r);
    }
    if d in Admitted(envelopes, o, c) && RetiredIn(Admitted(envelopes, o, c), d) {
      var x :| x in cs && x.envelope.payload == d;
      RetiredByDocs(envelopes, o, c, x);
    }
  }

  /** `effective` ranks exactly the live documents; `superseded` lists exactly the retired ones, once each. */
  lemma ResolutionCharacterized(envelopes: seq<Envelope>, o: Options, c: Crypto)
    requires InjectiveRank(c)
    ensures var r, docs := Resolve(envelopes, o, c), Admitted(envelopes, o, c);
            && Ranked(Docs(r.effective), o, c)
            && (forall d :: d in Docs(r.effective) <==> LiveIn(docs, d, o))
            && (forall d :: d in Docs(r.superseded) <==> d in docs && RetiredIn(docs, d))
            && DistinctDocs(r.superseded)
  {
    var cs := Candidates(envelopes, o, c);
    CandidatesAreAdmitted(envelopes, o, c);
    LiveMembers(cs, cs, o);
    SupersededMembers(cs, cs);
    SortRanked(Live(cs, cs, o), o, c);
    var r, docs := Resolve(envelopes, o, c), Admitted(envelopes, o, c);
    forall d ensures d in Docs(r.effective) <==> LiveIn(docs, d, o) {
      EffectiveDocument(envelopes, o, c, d);
    }
    forall d ensures d in Docs(r.superseded) <==> d in docs && RetiredIn(docs, d) {
      SupersededDocument(envelopes, o, c, d);
    }
  }

  ghost predicate SameOutcome(a: Resolution, b: Resolution) {
    && Docs(a.effective) == Docs(b.effective)
    && (a.preferred.Some? <==> b.preferred.Some?)
    && (a.preferred.Some? ==> a.preferred.value.envelope.payload == b.preferred.value.envelope.payload)
    && a.conflicting == b.conflicting
    && (forall d :: d in Docs(a.superseded) <==> d in Docs(b.superseded))
    && |a.superseded| == |b.superseded|
  }

  /** The outcome depends only on which documents verify. */
  lemma OnlyAdmittedDocumentsMatter(a: seq<Envelope>, b: seq<Envelope>, o: Options, c: Crypto)
    requires InjectiveRank(c) && Admitted(a, o, c) == Admitted(b, o, c)
    ensures SameOutcome(Resolve(a, o, c), Resolve(b, o, c))
  {
    ResolutionCharacterized(a, o, c);
    ResolutionCharacterized(b, o, c);
    var ra, rb := Resolve(a, o, c), Resolve(b, o, c);
    RankedUnique(Docs(ra.effective), Docs(rb.effective), o, c);
    SameEvents(ra.effective, rb.effective);
    SameCount(ra.superseded, rb.superseded);
  }

  lemma SameEvents(a: seq<Resolved>, b: seq<Resolved>)
    requires Docs(a) == Docs(b)
    ensures EventTexts(a) == EventTexts(b)
  {
    forall t ensures t in EventTexts(a) <==> t in EventTexts(b) {
      if t in EventTexts(a) {
        var r :| r in a && r.envelope.payload.events == t;
        var i :| 0 <= i < |a| && a[i] == r;
        assert Docs(a)[i] == Docs(b)[i] && b[i] in b;
      }
      if t in EventTexts(b) {
        var r :| r in b && r.envelope.payload.events == t;
        var i :| 0 <= i < |b| && b[i] == r;
        assert Docs(a)[i] == Docs(b)[i] && a[i] in a;
      }
    }
  }

  ghost function DocSet(rs: seq<Resolved>): set<Doc> {
    set r | r in rs :: r.envelope.payload
  }

  lemma {:induction false} CountOfDistinct(rs: seq<Resolved>)
    requires DistinctDocs(rs)
    ensures |DocSet(rs)| == |rs|
  {
    if rs != [] {
      var n := |rs| - 1;
      CountOfDistinct(rs[..n]);
      assert rs == rs[..n] + [rs[n]];
      assert DocSet(rs) == DocSet(rs[..n]) + {rs[n].envelope.payload};
      assert rs[n].envelope.payload !in DocSet(rs[..n]);
    }
  }

  lemma DocSetOf(rs: seq<Resolved>)
    ensures forall d :: d in DocSet(rs) <==> d in Docs(rs)
  {
    forall d ensures d in DocSet(rs) <==> d in Docs(rs) {
      InDocs(rs, d);
    }
  }

  lemma SameCount(a: seq<Resolved>, b: seq<Resolved>)
    requires DistinctDocs(a) && DistinctDocs(b)
    requires forall d :: d in Docs(a) <==> d in Docs(b)
    ensures |a| == |b|
  {
    CountOfDistinct(a);
    CountOfDistinct(b);
    DocSetOf(a);
    DocSetOf(b);
    assert DocSet(a) == DocSet(b);
  }

  /** Any reordering of the envelopes gives the same outcome. */
  lemma OrderIrrelevant(a: seq<Envelope>, b: seq<Envelope>, o: Options, c: Crypto)
    requires InjectiveRank(c) && multiset(a) == multiset(b)
    ensures SameOutcome(Resolve(a, o, c), Resolve(b, o, c))
  {
    forall e ensures e in a <==> e in b {
      assert e in a <==> e in multiset(a);
      assert e in b <==> e in multiset(b);
    }
    assert Admitted(a, o, c) == Admitted(b, o, c);
    OnlyAdmittedDocumentsMatter(a, b, o, c);
  }

  // ---------------------------------------------------------------- attesters do not interfere

  /** Envelopes of other attesters neither remove nor add anything of one attester's. */
  lemma OthersCannotInterfere(own: seq<Envelope>, more: seq<Envelope>, o: Options, c: Crypto, d: Doc)
    requires InjectiveRank(c)
    requires forall e | e in Admitted(more, o, c) :: e.attester != d.attester
    ensures d in Docs(Resolve(own + more, o, c).effective) <==> d in Docs(Resolve(own, o, c).effective)
    ensures d in Docs(Resolve(own + more, o, c).superseded) <==> d in Docs(Resolve(own, o, c).superseded)
  {
    ResolutionCharacterized(own, o, c);
    ResolutionCharacterized(own + more, o, c);
    var few, all := Admitted(own, o, c), Admitted(own + more, o, c);
    assert all == few + Admitted(more, o, c);
    assert RetiredIn(all, d) <==> RetiredIn(few, d);
  }

  /** How many documents a chain of `supersedes` passes through. */
  function ChainLength(d: Doc): nat
    decreases d
  {
    match d.supersedes
    case Some(H(older)) => 1 + ChainLength(older)
    case _ => 0
  }

  lemma {:induction false} LongestChain(docs: set<Doc>) returns (top: Doc)
    requires docs != {}
    ensures top in docs && forall d | d in docs :: ChainLength(d) <= ChainLength(top)
  {
    top :| top in docs;
    if docs != {top} {
      var other := LongestChain(docs - {top});
      if ChainLength(other) > ChainLength(top) {
        top := other;
      }
      assert forall d | d in docs :: d == top || d in docs - {top};
    }
  }

  /** An attester with a verified document always keeps one that is not superseded. */
  lemma NeverAllSuperseded(envelopes: seq<Envelope>, o: Options, c: Crypto, d: Doc) returns (kept: Doc)
    requires d in Admitted(envelopes, o, c)
    ensures kept in Admitted(envelopes, o, c) && kept.attester == d.attester
    ensures !RetiredIn(Admitted(envelopes, o, c), kept)
  {
    var docs := Admitted(envelopes, o, c);
    var mine := set x | x in docs && x.attester == d.attester;
    assert d in mine;
    kept := LongestChain(mine);
    forall r | r in docs && r.attester == kept.attester ensures r.supersedes != Some(H(kept)) {
      assert r in mine;
      assert r.supersedes == Some(H(kept)) ==> ChainLength(r) == 1 + ChainLength(kept);
    }
  }

  // ---------------------------------------------------------------- time and trust floor

  function Unexpired(ds: seq<Doc>, now: int): seq<Doc> {
    if ds == [] then []
    else if ExpiryProblem(ds[0], now) == None then [ds[0]] + Unexpired(ds[1..], now)
    else Unexpired(ds[1..], now)
  }

  lemma {:induction false} UnexpiredRanked(ds: seq<Doc>, now: int, o: Options, c: Crypto)
    requires Ranked(ds, o, c)
    ensures Ranked(Unexpired(ds, now), o, c)
    ensures forall d :: d in Unexpired(ds, now) <==> d in ds && ExpiryProblem(d, now) == None
  {
    if ds != [] {
      UnexpiredRanked(ds[1..], now, o, c);
      forall d | d in Unexpired(ds[1..], now) ensures Before(ds[0], d, o, c) {
        var k :| 0 <= k < |ds[1..]| && ds[1..][k] == d;
      }
      assert forall d :: d in ds <==> d == ds[0] || d in ds[1..];
    }
  }

  /** Expiry is monotone, so what is live later is what is live now and has not expired since. */
  lemma LaterLive(docs: set<Doc>, d: Doc, o: Options, later: int)
    requires o.now <= later
    ensures LiveIn(docs, d, o.(now := later)) <==> LiveIn(docs, d, o) && ExpiryProblem(d, later) == None
  {
  }

  /** The options differ in nothing the admission of an envelope looks at. */
  lemma SameAdmission(envelopes: seq<Envelope>, o: Options, p: Options, c: Crypto)
    requires forall e: Envelope :: EntryProblem(e, o, c) == EntryProblem(e, p, c)
    ensures Admitted(envelopes, o, c) == Admitted(envelopes, p, c)
  {
  }

  /** As time passes the effective list only loses what expires, and the superseded set stays. */
  lemma LaterOnlyExpires(envelopes: seq<Envelope>, o: Options, later: int, c: Crypto)
    requires InjectiveRank(c) && o.now <= later
    ensures var r, s := Resolve(envelopes, o, c), Resolve(envelopes, o.(now := later), c);
            && Docs(s.effective) == Unexpired(Docs(r.effective), later)
            && forall d :: d in Docs(s.superseded) <==> d in Docs(r.superseded)
  {
    var o' := o.(now := later);
    SameAdmission(envelopes, o, o', c);
    var docs := Admitted(envelopes, o, c);
    ResolutionCharacterized(envelopes, o, c);
    ResolutionCharacterized(envelopes, o', c);
    var ds, ds' := Docs(Resolve(envelopes, o, c).effective), Docs(Resolve(envelopes, o', c).effective);
    UnexpiredRanked(ds, later, o, c);
    SameRanking(Unexpired(ds, later), o, o', c);
    forall d ensures d in ds' <==> d in Unexpired(ds, later) {
      LaterLive(docs, d, o, later);
    }
    RankedUnique(ds', Unexpired(ds, later), o', c);
  }

  lemma SameRanking(ds: seq<Doc>, o: Options, p: Options, c: Crypto)
    requires o.deployer == p.deployer && Ranked(ds, o, c)
    ensures Ranked(ds, p, c)
  {
    forall i, j | 0 <= i < j < |ds| ensures Before(ds[i], ds[j], p, c) {
      assert Before(ds[i], ds[j], o, c);
    }
  }

  /** How many leading documents meet the floor. */
  function AboveFloor(ds: seq<Doc>, floor: Trust, o: Options): (n: nat)
    ensures n <= |ds|
    ensures forall i | 0 <= i < n :: MeetsMinimumTrust(TrustOf(ds[i], o), floor)
    ensures n < |ds| ==> !MeetsMinimumTrust(TrustOf(ds[n], o), floor)
  {
    if ds == [] || !MeetsMinimumTrust(TrustOf(ds[0], o), floor) then 0
    else 1 + AboveFloor(ds[1..], floor, o)
  }

  /** Raising the trust floor truncates the effective list. */
  lemma HigherFloorTruncates(envelopes: seq<Envelope>, o: Options, floor: Trust, c: Crypto)
    requires InjectiveRank(c) && Rank(o.minimumTrust) <= Rank(floor)
    ensures var r, s := Resolve(envelopes, o, c), Resolve(envelopes, o.(minimumTrust := floor), c);
            Docs(s.effective) <= Docs(r.effective)
  {
    var o' := o.(minimumTrust := floor);
    SameAdmission(envelopes, o, o', c);
    ResolutionCharacterized(envelopes, o, c);
    ResolutionCharacterized(envelopes, o', c);
    var ds := Docs(Resolve(envelopes, o, c).effective);
    var ds' := Docs(Resolve(envelopes, o', c).effective);
    var n := AboveFloor(ds, floor, o);
    forall d ensures d in ds[..n] <==> d in ds && MeetsMinimumTrust(TrustOf(d, o), floor) {
      FloorCut(ds, floor, o, c, d);
    }
    SameRanking(ds[..n], o, o', c);
    RankedUnique(ds[..n], ds', o', c);
  }

  lemma FloorCut(ds: seq<Doc>, floor: Trust, o: Options, c: Crypto, d: Doc)
    requires Ranked(ds, o, c)
    ensures d in ds[..AboveFloor(ds, floor, o)] <==> d in ds && MeetsMinimumTrust(TrustOf(d, o), floor)
  {
    var n := AboveFloor(ds, floor, o);
    forall i | n <= i < |ds| ensures !MeetsMinimumTrust(TrustOf(ds[i], o), floor) {
      assert i > n ==> Before(ds[n], ds[i], o, c);
    }
    if d in ds && MeetsMinimumTrust(TrustOf(d, o), floor) {
      var i :| 0 <= i < |ds| && ds[i] == d;
      assert ds[..n][i] == d;
    }
  }

  // ---------------------------------------------------------------- nothing is lost

  lemma {:induction false} RejectionsRecorded(envelopes: seq<Envelope>, o: Options, c: Crypto, e: Envelope)
    requires e in envelopes && EntryProblem(e, o, c).Some?
    ensures Rejected(e, EntryProblem(e, o, c).value) in EntryRejections(envelopes, o, c)
  {
    var n := |envelopes| - 1;
    if envelopes[n] != e {
      assert e in envelopes[..n];
      RejectionsRecorded(envelopes[..n], o, c, e);
    }
  }

  lemma {:induction false} LateRejectionsRecorded(cs: seq<Resolved>, among: seq<Resolved>, o: Options, x: Resolved)
    requires x in among && !IsRetired(cs, x) && LateProblem(x, o).Some?
    ensures Rejected(x.envelope, LateProblem(x, o).value) in LateRejections(cs, among, o)
  {
    var n := |among| - 1;
    if among[n] != x {
      assert x in among[..n];
      LateRejectionsRecorded(cs, among[..n], o, x);
    }
  }

  /** The document was dropped after verification, for its expiry or its trust tier. */
  ghost predicate RejectedLate(r: Resolution, d: Doc) {
    exists x | x in r.rejected :: x.envelope.payload == d && x.code in {Malformed, Expired, BelowMinimumTrust}
  }

  /** Every envelope is rejected with its reason, or its document is effective, superseded or rejected later. */
  lemma EveryEnvelopeAccountedFor(envelopes: seq<Envelope>, o: Options, c: Crypto, e: Envelope)
    requires e in envelopes
    ensures var r := Resolve(envelopes, o, c);
            if EntryProblem(e, o, c).Some? then Rejected(e, EntryProblem(e, o, c).value) in r.rejected
            else e.payload in Docs(r.effective) || e.payload in Docs(r.superseded) || RejectedLate(r, e.payload)
  {
    var r, cs := Resolve(envelopes, o, c), Candidates(envelopes, o, c);
    if EntryProblem(e, o, c).Some? {
      RejectionsRecorded(envelopes, o, c, e);
    } else {
      EffectiveDocument(envelopes, o, c, e.payload);
      SupersededDocument(envelopes, o, c, e.payload);
      CandidatesAreAdmitted(envelopes, o, c);
      assert e.payload in Admitted(envelopes, o, c);
      var x :| x in cs && x.envelope.payload == e.payload;
      if e.payload !in Docs(r.superseded) && e.payload !in Docs(r.effective) {
        RetiredByDocs(envelopes, o, c, x);
        LateRejectionsRecorded(cs, cs, o, x);
        assert Rejected(x.envelope, LateProblem(x, o).value) in r.rejected;
      }
    }
  }
}
