/**
 Attestation documents, their envelopes, and the verification of one envelope.

 SHA-256 is modelled as the constructor `Hash.H`, so distinct documents have distinct hashes
 and no document can name the hash of one that names it. Signature and key checks are
 parameters (`Crypto`), as is the order of hashes in hexadecimal.
 */
module Attestations {
  import opened Results
  import opened Strings

  /** What a document may name in `supersedes`, after lower-casing. */
  datatype Hash = H(doc: Doc) | UnknownHash(text: string)

  datatype Expiry = Never | At(ms: int) | MalformedExpiry

  datatype Doc = Doc(
    attester: string,
    contractId: string,
    events: string,             // canonical text of the events
    createdAt: Option<int>,     // None when it does not parse as a date
    expiresAt: Expiry,
    wasmHash: Option<string>,   // None unless executableKind is "wasm"
    supersedes: Option<Hash>,
    rest: string)

  datatype Envelope = Envelope(v: int, payload: Doc, publicKey: string, signature: string)

  datatype Crypto = Crypto(
    validKey: string -> bool,
    verifies: (string, Doc, string, string) -> bool,  // key, document, domain, signature
    hexRank: Doc -> int)

  datatype InvalidCode =
    | UnsupportedVersion | BadPublicKey | AttesterMismatch | BadSignature
    | Malformed | Expired | NotAWasmAttestation | WasmHashMismatch
    | WrongContract | BelowMinimumTrust

  datatype Options = Options(
    contractId: string,
    deployer: Option<string>,
    minimumTrust: Trust,
    expectedWasmHash: Option<string>,
    domain: string,
    now: int)

  datatype Trust = Unbound | ThirdParty | Deployer

  function Rank(t: Trust): int {
    match t
    case Unbound => 0
    case ThirdParty => 1
    case Deployer => 2
  }

  function ClassifyAttester(attester: string, deployer: Option<string>): Trust {
    match deployer
    case None => Unbound
    case Some(d) => if attester == d then Deployer else ThirdParty
  }

  predicate MeetsMinimumTrust(trust: Trust, minimum: Trust) {
    Rank(trust) >= Rank(minimum)
  }

  function ExpiryProblem(d: Doc, now: int): Option<InvalidCode> {
    match d.expiresAt
    case Never => None
    case MalformedExpiry => Some(Malformed)
    case At(ms) => if ms <= now then Some(Expired) else None
  }

  /** The checks of one envelope, in order; None means valid. */
  function VerifyAttestation(e: Envelope, o: Options, c: Crypto, checkExpiry: bool): Option<InvalidCode> {
    if e.v != 1 then Some(UnsupportedVersion)
    else if !c.validKey(e.publicKey) then Some(BadPublicKey)
    else if e.publicKey != e.payload.attester then Some(AttesterMismatch)
    else if !c.verifies(e.publicKey, e.payload, o.domain, e.signature) then Some(BadSignature)
    else if checkExpiry && ExpiryProblem(e.payload, o.now).Some? then ExpiryProblem(e.payload, o.now)
    else
      match o.expectedWasmHash
      case None => None
      case Some(expected) =>
        if e.payload.wasmHash == None then Some(NotAWasmAttestation)
        else if ToLowerCase(expected) != ToLowerCase(e.payload.wasmHash.value) then Some(WasmHashMismatch)
        else None
  }

  datatype Resolved = Resolved(envelope: Envelope, trust: Trust)

  function CreatedAtMs(r: Resolved): int {
    match r.envelope.payload.createdAt
    case Some(ms) => ms
    case None => 0
  }

  /** Negative when `a` ranks before `b`: higher trust, then newer, then smaller hash. */
  function CompareResolved(a: Resolved, b: Resolved, c: Crypto): int {
    var byTrust := Rank(b.trust) - Rank(a.trust);
    if byTrust != 0 then byTrust
    else
      var byTime := CreatedAtMs(b) - CreatedAtMs(a);
      if byTime != 0 then byTime
      else
        var ha, hb := c.hexRank(a.envelope.payload), c.hexRank(b.envelope.payload);
        if ha < hb then -1 else if ha > hb then 1 else 0
  }
}
