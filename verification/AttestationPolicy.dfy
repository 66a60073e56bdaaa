/** Which attestations of a contract to believe. */
module AttestationPolicy {
  import opened Results
  import opened Attestations

  datatype Rejected = Rejected(envelope: Envelope, code: InvalidCode)

  datatype Resolution = Resolution(
    effective: seq<Resolved>,
    superseded: seq<Resolved>,
    rejected: seq<Rejected>,
    preferred: Option<Resolved>,
    conflicting: bool)

  // ---------------------------------------------------------------- the computation, as functions

  /** The envelope passes verification and is about the contract asked for. */
  function EntryProblem(e: Envelope, o: Options, c: Crypto): Option<InvalidCode> {
    match VerifyAttestation(e, o, c, false)
    case Some(code) => Some(code)
    case None => if e.payload.contractId != o.contractId then Some(WrongContract) else None
  }

  predicate SameKey(a: Envelope, b: Envelope) {
    a.publicKey == b.publicKey && H(a.payload) == H(b.payload)
  }

  predicate Seen(candidates: seq<Resolved>, e: Envelope) {
    exists i | 0 <= i < |candidates| :: SameKey(candidates[i].envelope, e)
  }

  function Candidates(envelopes: seq<Envelope>, o: Options, c: Crypto): seq<Resolved> {
    if envelopes == [] then []
    else
      var n := |envelopes| - 1;
      var before := Candidates(envelopes[..n], o, c);
      var e := envelopes[n];
      if EntryProblem(e, o, c).Some? || Seen(before, e) then before
      else before + [Resolved(e, ClassifyAttester(e.payload.attester, o.deployer))]
  }

  function EntryRejections(envelopes: seq<Envelope>, o: Options, c: Crypto): seq<Rejected> {
    if envelopes == [] then []
    else
      var n := |envelopes| - 1;
      var before := EntryRejections(envelopes[..n], o, c);
      match EntryProblem(envelopes[n], o, c)
      case Some(code) => before + [Rejected(envelopes[n], code)]
      case None => before
  }

  predicate Retires(replacement: Resolved, original: Resolved) {
    && replacement != original
    && replacement.envelope.payload.supersedes == Some(H(original.envelope.payload))
    && original.envelope.payload.attester == replacement.envelope.payload.attester
  }

  predicate IsRetired(candidates: seq<Resolved>, original: Resolved) {
    exists r | r in candidates :: Retires(r, original)
  }

  /** Why a candidate that was not retired is dropped, if it is. */
  function LateProblem(r: Resolved, o: Options): Option<InvalidCode> {
    match ExpiryProblem(r.envelope.payload, o.now)
    case Some(code) => Some(code)
    case None => if MeetsMinimumTrust(r.trust, o.minimumTrust) then None else Some(BelowMinimumTrust)
  }

  function Live(candidates: seq<Resolved>, among: seq<Resolved>, o: Options): seq<Resolved> {
    if among == [] then []
    else
      var n := |among| - 1;
      var before := Live(candidates, among[..n], o);
      if IsRetired(candidates, among[n]) || LateProblem(among[n], o).Some? then before
      else before + [among[n]]
  }

  function LateRejections(candidates: seq<Resolved>, among: seq<Resolved>, o: Options): seq<Rejected> {
    if among == [] then []
    else
      var n := |among| - 1;
      var before := LateRejections(candidates, among[..n], o);
      if IsRetired(candidates, among[n]) || LateProblem(among[n], o) == None then before
      else before + [Rejected(among[n].envelope, LateProblem(among[n], o).value)]
  }

  function Superseded(candidates: seq<Resolved>, among: seq<Resolved>): seq<Resolved> {
    if among == [] then []
    else
      var n := |among| - 1;
      var before := Superseded(candidates, among[..n]);
      if IsRetired(candidates, among[n]) then before + [among[n]] else before
  }

  function InsertResolved(r: Resolved, sorted: seq<Resolved>, c: Crypto): (s: seq<Resolved>)
    ensures multiset(s) == multiset{r} + multiset(sorted)
  {
    if sorted == [] || CompareResolved(r, sorted[0], c) <= 0 then [r] + sorted
    else
      assert sorted == [sorted[0]] + sorted[1..];
      [sorted[0]] + InsertResolved(r, sorted[1..], c)
  }

  function SortResolved(rs: seq<Resolved>, c: Crypto): (s: seq<Resolved>)
    ensures multiset(s) == multiset(rs)
  {
    if rs == [] then []
    else
      assert rs == [rs[0]] + rs[1..];
      InsertResolved(rs[0], SortResolved(rs[1..], c), c)
  }

  function EventTexts(rs: seq<Resolved>): set<string> {
    set r | r in rs :: r.envelope.payload.events
  }

  function Resolve(envelopes: seq<Envelope>, o: Options, c: Crypto): Resolution {
    var candidates := Candidates(envelopes, o, c);
    var effective := SortResolved(Live(candidates, candidates, o), c);
    Resolution(
      effective,
      Superseded(candidates, candidates),
      EntryRejections(envelopes, o, c) + LateRejections(candidates, candidates, o),
      if effective == [] then None else Some(effective[0]),
      |EventTexts(effective)| > 1)
  }

  // ---------------------------------------------------------------- the computation, as the source's loops

  method CollectCandidates(envelopes: seq<Envelope>, o: Options, c: Crypto)
    returns (candidates: seq<Resolved>, rejected: seq<Rejected>)
    ensures candidates == Candidates(envelopes, o, c)
    ensures rejected == EntryRejections(envelopes, o, c)
  {
    rejected, candidates := [], [];
    var seen: set<(string, Hash)> := {};
    for i := 0 to |envelopes|
      invariant candidates == Candidates(envelopes[..i], o, c)
      invariant rejected == EntryRejections(envelopes[..i], o, c)
      invariant forall e: Envelope :: (e.publicKey, H(e.payload)) in seen <==> Seen(candidates, e)
    {
      assert envelopes[..i + 1][..i] == envelopes[..i];
      var e := envelopes[i];
      var problem := EntryProblem(e, o, c);
      if problem.Some? {
        rejected := rejected + [Rejected(e, problem.value)];
      } else if (e.publicKey, H(e.payload)) !in seen {
        seen := seen + {(e.publicKey, H(e.payload))};
        var candidate := Resolved(e, ClassifyAttester(e.payload.attester, o.deployer));
        SeenAppend(candidates, candidate);
        candidates := candidates + [candidate];
      }
    }
    assert envelopes[..|envelopes|] == envelopes;
  }

  method CollectRetired(candidates: seq<Resolved>) returns (retired: set<Resolved>)
    ensures forall x :: x in retired <==> x in candidates && IsRetired(candidates, x)
  {
    retired := {};
    for i := 0 to |candidates|
      invariant forall x :: x in retired <==> x in candidates && IsRetired(candidates[..i], x)
    {
      var earlier := retired;
      for j := 0 to |candidates|
        invariant forall x :: x in retired <==> x in earlier || (x in candidates[..j] && Retires(candidates[i], x))
      {
        if Retires(candidates[i], candidates[j]) {
          retired := retired + {candidates[j]};
        }
        assert candidates[..j + 1] == candidates[..j] + [candidates[j]];
      }
      assert candidates[..|candidates|] == candidates;
      assert candidates[..i + 1] == candidates[..i] + [candidates[i]];
    }
    assert candidates[..|candidates|] == candidates;
  }

  method ResolveAttestations(envelopes: seq<Envelope>, o: Options, c: Crypto) returns (r: Resolution)
    ensures r == Resolve(envelopes, o, c)
  {
    var candidates, rejected := CollectCandidates(envelopes, o, c);
    var retired := CollectRetired(candidates);
    var effective: seq<Resolved> := [];
    var superseded: seq<Resolved> := [];
    var late: seq<Rejected> := [];
    for i := 0 to |candidates|
      invariant effective == Live(candidates, candidates[..i], o)
      invariant superseded == Superseded(candidates, candidates[..i])
      invariant late == LateRejections(candidates, candidates[..i], o)
    {
      assert candidates[..i + 1][..i] == candidates[..i];
      var candidate := candidates[i];
      if candidate in retired {
        superseded := superseded + [candidate];
      } else {
        var problem := LateProblem(candidate, o);
        if problem.Some? {
          late := late + [Rejected(candidate.envelope, problem.value)];
        } else {
          effective := effective + [candidate];
        }
      }
    }
    assert candidates[..|candidates|] == candidates;
    effective := SortResolved(effective, c);
    r := Resolution(effective, superseded, rejected + late,
                    if effective == [] then None else Some(effective[0]), |EventTexts(effective)| > 1);
  }

  lemma SeenAppend(before: seq<Resolved>, r: Resolved)
    ensures forall e: Envelope :: Seen(before + [r], e) <==> Seen(before, e) || SameKey(r.envelope, e)
  {
    var after := before + [r];
    assert after[|before|] == r;
    forall e: Envelope | Seen(before, e) ensures Seen(after, e) {
      var i :| 0 <= i < |before| && SameKey(before[i].envelope, e);
      assert after[i] == before[i];
    }
  }
}
