/**
 The outcome of attestation resolution in terms of the envelopes handed in: which documents
 are believed, in which order, and why every other envelope is not.
 */
module AttestationOutcome {
  import opened Results
  import opened Strings
  import opened Attestations
  import opened AttestationPolicy
  import opened AttestationTheorems

  // ---------------------------------------------------------------- what an envelope must be

  /** Signed by the attester it names, for the domain and contract asked for, and for the code expected, if any is. */
  predicate Genuine(e: Envelope, o: Options, c: Crypto) {
    && e.v == 1
    && c.validKey(e.publicKey)
    && e.publicKey == e.payload.attester
    && c.verifies(e.publicKey, e.payload, o.domain, e.signature)
    && (o.expectedWasmHash.Some? ==>
          e.payload.wasmHash.Some? && SameLetters(o.expectedWasmHash.value, e.payload.wasmHash.value))
    && e.payload.contractId == o.contractId
  }

  /** The first requirement the envelope misses. */
  predicate FirstFailure(e: Envelope, o: Options, c: Crypto, code: InvalidCode) {
    match code
    case UnsupportedVersion => e.v != 1
    case BadPublicKey => e.v == 1 && !c.validKey(e.publicKey)
    case AttesterMismatch => e.v == 1 && c.validKey(e.publicKey) && e.publicKey != e.payload.attester
    case BadSignature =>
      && e.v == 1 && c.validKey(e.publicKey) && e.publicKey == e.payload.attester
      && !c.verifies(e.publicKey, e.payload, o.domain, e.signature)
    case NotAWasmAttestation => Signed(e, o, c) && o.expectedWasmHash.Some? && e.payload.wasmHash.None?
    case WasmHashMismatch =>
      && Signed(e, o, c) && o.expectedWasmHash.Some? && e.payload.wasmHash.Some?
      && !SameLetters(o.expectedWasmHash.value, e.payload.wasmHash.value)
    case WrongContract =>
      && Genuine(e, o.(contractId := e.payload.contractId), c) && e.payload.contractId != o.contractId
    case _ => false
  }

  predicate Signed(e: Envelope, o: Options, c: Crypto) {
    && e.v == 1 && c.validKey(e.publicKey) && e.publicKey == e.payload.attester
    && c.verifies(e.publicKey, e.payload, o.domain, e.signature)
  }

  /** Some genuine envelope carries the document. */
  ghost predicate Stated(envelopes: seq<Envelope>, o: Options, c: Crypto, d: Doc) {
    exists e | e in envelopes :: e.payload == d && Genuine(e, o, c)
  }

  /** Some genuine envelope of the same attester replaces the document. */
  ghost predicate Withdrawn(envelopes: seq<Envelope>, o: Options, c: Crypto, d: Doc) {
    exists e | e in envelopes ::
      Genuine(e, o, c) && e.payload.attester == d.attester && e.payload.supersedes == Some(H(d))
  }

  predicate Timely(d: Doc, now: int) {
    d.expiresAt.Never? || (d.expiresAt.At? && now < d.expiresAt.ms)
  }

  predicate ByDeployer(d: Doc, o: Options) {
    o.deployer == Some(d.attester)
  }

  /** Unbound asks for nothing, third party that the deployer be known, deployer that it be the attester. */
  predicate TrustedEnough(d: Doc, o: Options) {
    match o.minimumTrust
    case Unbound => true
    case ThirdParty => o.deployer.Some?
    case Deployer => ByDeployer(d, o)
  }

  /** The deployer's documents come first, then newer ones, then the smaller hash. */
  predicate Precedes(a: Doc, b: Doc, o: Options, c: Crypto) {
    var s, t := if a.createdAt.Some? then a.createdAt.value else 0, if b.createdAt.Some? then b.createdAt.value else 0;
    || (ByDeployer(a, o) && !ByDeployer(b, o))
    || ((ByDeployer(a, o) <==> ByDeployer(b, o)) && (s > t || (s == t && c.hexRank(a) < c.hexRank(b))))
  }

  /** The tier an attestation is labelled with. */
  predicate RightTier(d: Doc, o: Options, tier: Trust) {
    match tier
    case Unbound => o.deployer.None?
    case ThirdParty => o.deployer.Some? && !ByDeployer(d, o)
    case Deployer => ByDeployer(d, o)
  }

  /** Why a genuine document that nobody withdrew is dropped. */
  predicate LateReason(d: Doc, o: Options, code: InvalidCode) {
    match code
    case Malformed => d.expiresAt.MalformedExpiry?
    case Expired => d.expiresAt.At? && d.expiresAt.ms <= o.now
    case BelowMinimumTrust => Timely(d, o.now) && !TrustedEnough(d, o)
    case _ => false
  }

  ghost predicate Lists(rs: seq<Resolved>, d: Doc) {
    exists x | x in rs :: x.envelope.payload == d
  }

  // ---------------------------------------------------------------- one envelope

  lemma PassesExactly(e: Envelope, o: Options, c: Crypto)
    ensures EntryProblem(e, o, c) == None <==> Genuine(e, o, c)
    ensures EntryProblem(e, o, c).Some? ==> FirstFailure(e, o, c, EntryProblem(e, o, c).value)
  {
    if o.expectedWasmHash.Some? && e.payload.wasmHash.Some? {
      LowerCaseDecides(o.expectedWasmHash.value, e.payload.wasmHash.value);
    }
  }

  lemma StatedIsAdmitted(envelopes: seq<Envelope>, o: Options, c: Crypto)
    ensures forall d :: d in Admitted(envelopes, o, c) <==> Stated(envelopes, o, c, d)
    ensures forall d :: RetiredIn(Admitted(envelopes, o, c), d) <==> Withdrawn(envelopes, o, c, d)
  {
    forall e ensures EntryProblem(e, o, c) == None <==> Genuine(e, o, c) {
      PassesExactly(e, o, c);
    }
    forall d ensures RetiredIn(Admitted(envelopes, o, c), d) <==> Withdrawn(envelopes, o, c, d) {
      if Withdrawn(envelopes, o, c, d) {
        var e :| e in envelopes && Genuine(e, o, c) && e.payload.attester == d.attester && e.payload.supersedes == Some(H(d));
        assert e.payload in Admitted(envelopes, o, c);
      }
    }
  }

  lemma LateExactly(d: Doc, o: Options, x: Resolved)
    requires x.envelope.payload == d && x.trust == TrustOf(d, o)
    ensures LateProblem(x, o) == None <==> Timely(d, o.now) && TrustedEnough(d, o)
    ensures LateProblem(x, o).Some? ==> LateReason(d, o, LateProblem(x, o).value)
    ensures Acceptable(d, o) <==> Timely(d, o.now) && TrustedEnough(d, o)
    ensures RightTier(d, o, x.trust)
  {
  }

  // ---------------------------------------------------------------- the candidates come from the envelopes

  lemma {:induction false} CandidatesComeIn(envelopes: seq<Envelope>, o: Options, c: Crypto)
    ensures forall x | x in Candidates(envelopes, o, c) ::
              && x.envelope in envelopes && EntryProblem(x.envelope, o, c) == None
              && x.trust == TrustOf(x.envelope.payload, o)
  {
    if envelopes != [] {
      var n := |envelopes| - 1;
      CandidatesComeIn(envelopes[..n], o, c);
      assert envelopes[n] in envelopes && forall e | e in envelopes[..n] :: e in envelopes;
    }
  }

  /** Whatever is believed or superseded came in a genuine envelope, and bears the right tier. */
  lemma ResolvedAreGenuine(envelopes: seq<Envelope>, o: Options, c: Crypto, x: Resolved)
    requires x in Resolve(envelopes, o, c).effective || x in Resolve(envelopes, o, c).superseded
    ensures x.envelope in envelopes && Genuine(x.envelope, o, c) && RightTier(x.envelope.payload, o, x.trust)
  {
    var cs := Candidates(envelopes, o, c);
    EffectiveMembers(envelopes, o, c, x);
    SupersededMembers(cs, cs);
    CandidatesComeIn(envelopes, o, c);
    PassesExactly(x.envelope, o, c);
    LateExactly(x.envelope.payload, o, x);
  }

  // ---------------------------------------------------------------- main results

  /** Believed are exactly the documents genuinely stated, not withdrawn by their attester, in time and trusted enough. */
  lemma EffectiveExactly(envelopes: seq<Envelope>, o: Options, c: Crypto, d: Doc)
    ensures Lists(Resolve(envelopes, o, c).effective, d)
       <==> && Stated(envelopes, o, c, d) && !Withdrawn(envelopes, o, c, d)
            && Timely(d, o.now) && TrustedEnough(d, o)
  {
    InDocs(Resolve(envelopes, o, c).effective, d);
    EffectiveDocument(envelopes, o, c, d);
    StatedIsAdmitted(envelopes, o, c);
    LateExactly(d, o, Resolved(Envelope(1, d, "", ""), TrustOf(d, o)));
  }

  /** Superseded are exactly the documents genuinely stated and withdrawn by their attester. */
  lemma SupersededExactly(envelopes: seq<Envelope>, o: Options, c: Crypto, d: Doc)
    ensures Lists(Resolve(envelopes, o, c).superseded, d)
       <==> Stated(envelopes, o, c, d) && Withdrawn(envelopes, o, c, d)
  {
    InDocs(Resolve(envelopes, o, c).superseded, d);
    SupersededDocument(envelopes, o, c, d);
    StatedIsAdmitted(envelopes, o, c);
  }

  /** The believed stand in order, each document once; the preferred is the first; a conflict is a difference in events. */
  lemma BelievedInOrder(envelopes: seq<Envelope>, o: Options, c: Crypto)
    requires InjectiveRank(c)
    ensures var r := Resolve(envelopes, o, c);
            && (forall i, j | 0 <= i < j < |r.effective| ::
                  Precedes(r.effective[i].envelope.payload, r.effective[j].envelope.payload, o, c))
            && r.preferred == (if r.effective == [] then None else Some(r.effective[0]))
            && (r.conflicting <==> exists a, b | a in r.effective && b in r.effective ::
                                     a.envelope.payload.events != b.envelope.payload.events)
  {
    var r := Resolve(envelopes, o, c);
    ResolutionCharacterized(envelopes, o, c);
    forall i, j | 0 <= i < j < |r.effective|
      ensures Precedes(r.effective[i].envelope.payload, r.effective[j].envelope.payload, o, c)
    {
      BeforePrecedes(Docs(r.effective)[i], Docs(r.effective)[j], o, c);
    }
    ConflictExactly(r.effective);
  }

  lemma BeforePrecedes(a: Doc, b: Doc, o: Options, c: Crypto)
    ensures Before(a, b, o, c) <==> Precedes(a, b, o, c)
  {
  }

  lemma ConflictExactly(rs: seq<Resolved>)
    ensures |EventTexts(rs)| > 1
       <==> exists a, b | a in rs && b in rs :: a.envelope.payload.events != b.envelope.payload.events
  {
    var texts := EventTexts(rs);
    if a, b :| a in rs && b in rs && a.envelope.payload.events != b.envelope.payload.events {
      var s, t := a.envelope.payload.events, b.envelope.payload.events;
      assert s in texts && t in texts;
      assert |texts| == |texts - {s}| + 1;
      assert t in texts - {s};
    }
    if |texts| > 1 {
      var s :| s in texts;
      assert texts != {s};
      var t :| t in texts && t != s;
      var a :| a in rs && a.envelope.payload.events == s;
      var b :| b in rs && b.envelope.payload.events == t;
    }
  }

  lemma {:induction false} EntryRejectionsCameIn(envelopes: seq<Envelope>, o: Options, c: Crypto, x: Rejected)
    requires x in EntryRejections(envelopes, o, c)
    ensures x.envelope in envelopes && EntryProblem(x.envelope, o, c) == Some(x.code)
  {
    var n := |envelopes| - 1;
    if x in EntryRejections(envelopes[..n], o, c) {
      EntryRejectionsCameIn(envelopes[..n], o, c, x);
    }
  }

  lemma {:induction false} LateRejectionsCameIn(cs: seq<Resolved>, among: seq<Resolved>, o: Options, x: Rejected)
    requires x in LateRejections(cs, among, o)
    ensures exists r | r in among :: r.envelope == x.envelope && !IsRetired(cs, r) && LateProblem(r, o) == Some(x.code)
  {
    var n := |among| - 1;
    if x in LateRejections(cs, among[..n], o) {
      LateRejectionsCameIn(cs, among[..n], o, x);
      var r :| r in among[..n] && r.envelope == x.envelope && !IsRetired(cs, r) && LateProblem(r, o) == Some(x.code);
      assert r in among;
    } else {
      assert among[n] in among && among[n].envelope == x.envelope;
    }
  }

  /** Every rejection is of an envelope handed in, for the first requirement it misses, or for expiry or trust. */
  lemma RejectedForCause(envelopes: seq<Envelope>, o: Options, c: Crypto, x: Rejected)
    requires x in Resolve(envelopes, o, c).rejected
    ensures x.envelope in envelopes
    ensures || FirstFailure(x.envelope, o, c, x.code)
            || (&& Genuine(x.envelope, o, c) && !Withdrawn(envelopes, o, c, x.envelope.payload)
                && LateReason(x.envelope.payload, o, x.code))
  {
    var cs := Candidates(envelopes, o, c);
    if x in EntryRejections(envelopes, o, c) {
      EntryRejectionsCameIn(envelopes, o, c, x);
      PassesExactly(x.envelope, o, c);
    } else {
      LateRejectionsCameIn(cs, cs, o, x);
      var r :| r in cs && r.envelope == x.envelope && !IsRetired(cs, r) && LateProblem(r, o) == Some(x.code);
      CandidatesComeIn(envelopes, o, c);
      PassesExactly(r.envelope, o, c);
      LateExactly(r.envelope.payload, o, r);
      RetiredByDocs(envelopes, o, c, r);
      StatedIsAdmitted(envelopes, o, c);
    }
  }

  /** No envelope is lost: it misses a requirement and is rejected for it, or its document is believed, superseded or dropped late. */
  lemma EveryEnvelopeAnswered(envelopes: seq<Envelope>, o: Options, c: Crypto, e: Envelope)
    requires e in envelopes
    ensures var r := Resolve(envelopes, o, c);
            if Genuine(e, o, c) then
              || Lists(r.effective, e.payload) || Lists(r.superseded, e.payload)
              || exists x | x in r.rejected :: x.envelope.payload == e.payload && LateReason(e.payload, o, x.code)
            else exists x | x in r.rejected :: x.envelope == e && FirstFailure(e, o, c, x.code)
  {
    var r, cs := Resolve(envelopes, o, c), Candidates(envelopes, o, c);
    PassesExactly(e, o, c);
    if Genuine(e, o, c) {
      StatedIsAdmitted(envelopes, o, c);
      SupersededExactly(envelopes, o, c, e.payload);
      EffectiveExactly(envelopes, o, c, e.payload);
      if !Lists(r.effective, e.payload) && !Lists(r.superseded, e.payload) {
        DroppedLate(envelopes, o, c, e);
      }
    } else {
      RejectionsRecorded(envelopes, o, c, e);
      assert Rejected(e, EntryProblem(e, o, c).value) in r.rejected;
    }
  }

  lemma DroppedLate(envelopes: seq<Envelope>, o: Options, c: Crypto, e: Envelope)
    requires e in envelopes && Genuine(e, o, c) && !Withdrawn(envelopes, o, c, e.payload)
    requires !(Timely(e.payload, o.now) && TrustedEnough(e.payload, o))
    ensures exists x | x in Resolve(envelopes, o, c).rejected ::
              x.envelope.payload == e.payload && LateReason(e.payload, o, x.code)
  {
    var cs := Candidates(envelopes, o, c);
    PassesExactly(e, o, c);
    assert e.payload in Admitted(envelopes, o, c);
    CandidatesAreAdmitted(envelopes, o, c);
    var x :| x in cs && x.envelope.payload == e.payload;
    RetiredByDocs(envelopes, o, c, x);
    StatedIsAdmitted(envelopes, o, c);
    LateExactly(e.payload, o, x);
    LateRejectionsRecorded(cs, cs, o, x);
    assert Rejected(x.envelope, LateProblem(x, o).value) in Resolve(envelopes, o, c).rejected;
  }
}
