/** The message an attestation signs: a domain line, then the canonical text of the document. */
module AttestationMessage {
  import opened Results
  import opened CanonicalJson
  import opened JsonParser
  import opened CanonicalForm

  datatype SigningFault = MalformedDomain | NotCanonicalizable(fault: Fault)

  const NEWLINE: Unit := 0x0A

  predicate LowerLetter(u: Unit) { 0x61 <= u <= 0x7A }

  predicate DigitUnitAt(d: Text, i: nat)
    requires i < |d|
  {
    0x30 <= d[i] <= 0x39
  }

  predicate WordUnit(u: Unit) { LowerLetter(u) || 0x30 <= u <= 0x39 || u == 0x2D }

  /** A match of [a-z][a-z0-9-]*-v[1-9][0-9]* whose "-v" starts at position i. */
  predicate DomainSplitAt(d: Text, i: nat) {
    && 1 <= i && i + 2 < |d|
    && LowerLetter(d[0]) && (forall j | 0 <= j < i :: WordUnit(d[j]))
    && d[i] == 0x2D && d[i + 1] == 0x76
    && d[i + 2] != 0x30 && forall j: nat | i + 2 <= j < |d| :: DigitUnitAt(d, j)
  }

  predicate WellFormedDomain(d: Text) {
    exists i: nat | i < |d| :: DomainSplitAt(d, i)
  }

  function SigningMessage(domain: Text, document: Value): Result<Text, SigningFault> {
    if !WellFormedDomain(domain) then Err(MalformedDomain)
    else
      match CanonicalizeJson(document)
      case Ok(text) => Ok(domain + [NEWLINE] + text)
      case Err(fault) => Err(NotCanonicalizable(fault))
  }

  lemma DomainHasNoNewline(d: Text)
    requires WellFormedDomain(d)
    ensures NEWLINE !in d
  {
    var i: nat :| i < |d| && DomainSplitAt(d, i);
    forall j: nat | j < |d| ensures d[j] != NEWLINE {
      if j < i {
        assert WordUnit(d[j]);
      } else if j >= i + 2 {
        assert DigitUnitAt(d, j);
      }
    }
  }

  /** Two texts split at their first newline are equal only if both halves are. */
  lemma FirstLineUnique(a: Text, x: Text, b: Text, y: Text)
    requires NEWLINE !in a && NEWLINE !in b
    requires a + [NEWLINE] + x == b + [NEWLINE] + y
    ensures a == b && x == y
  {
    var t, u := a + [NEWLINE] + x, b + [NEWLINE] + y;
    assert t[|a|] == NEWLINE && u[|b|] == NEWLINE;
    assert a == t[..|a|] && b == u[..|b|];
    assert x == t[|a| + 1..] && y == u[|b| + 1..];
  }

  /** Signing messages agree exactly when the domains are equal and the documents mean the same. */
  lemma MessageDeterminesDomainAndDocument(d: Text, v: Value, e: Text, w: Value)
    requires WellFormed(v) && WellFormed(w)
    requires SigningMessage(d, v).Ok? && SigningMessage(e, w).Ok?
    ensures SigningMessage(d, v) == SigningMessage(e, w) <==> d == e && Meaning(v) == Meaning(w)
  {
    TextIsNormalForm(v, w);
    DomainHasNoNewline(d);
    DomainHasNoNewline(e);
    if SigningMessage(d, v) == SigningMessage(e, w) {
      FirstLineUnique(d, CanonicalizeJson(v).value, e, CanonicalizeJson(w).value);
    }
  }

  /**
   A message exists exactly for a domain of the form [a-z][a-z0-9-]*-v[1-9][0-9]* and a
   document that can be made canonical: the domain is its first line, and the rest is read
   back as the document.
   */
  lemma MessageIsDomainThenDocument(d: Text, v: Value)
    requires WellFormed(v)
    ensures SigningMessage(d, v).Ok? <==> WellFormedDomain(d) && CanonicalizeJson(v).Ok?
    ensures SigningMessage(d, v) == Err(MalformedDomain) <==> !WellFormedDomain(d)
    ensures SigningMessage(d, v).Ok? ==>
              var t := SigningMessage(d, v).value;
              && |d| < |t| && t[..|d|] == d && NEWLINE !in d && t[|d|] == 0x0A
              && ParseJson(t[|d| + 1..]) == Some(Meaning(v))
  {
    if SigningMessage(d, v).Ok? {
      var t := SigningMessage(d, v).value;
      DomainHasNoNewline(d);
      ParserInvertsSerializer(v);
      assert t[|d| + 1..] == CanonicalizeJson(v).value;
    }
  }
}
