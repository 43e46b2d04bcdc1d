/** The policy engine's two calls: decide and seal, and verify a decision handed back. */
module PolicyEngine {
  import opened Basics
  import opened Fields
  import opened Rfc3339
  import opened DecisionSeal
  import Seals = AuditSeal

  const EFFECT_ALLOW: int := 1

  /** A signed 64-bit integer. */
  type I64 = n: int | -0x8000_0000_0000_0000 <= n < 0x8000_0000_0000_0000

  /** A protobuf duration. */
  datatype Duration = Duration(seconds: I64, nanos: int)

  datatype DecisionResponse = DecisionResponse(
    effect: int,
    decisionHash: Octets,
    policyVersion: Bytes,
    reasons: seq<Bytes>,
    maxTtl: Option<Duration>,
    constraints: seq<Bytes>,
    issuedAt: Option<int>,
    signature: Bytes,
    signatureKeyId: Bytes)

  /** A negative lifetime counts as none. */
  function TtlOf(maxTtl: Option<Duration>): U64 {
    if maxTtl.Some? && maxTtl.value.seconds > 0 then maxTtl.value.seconds else 0
  }

  /** The request identifier is not part of a response and is sealed as empty. */
  function FieldsOf(r: DecisionResponse, issuedAt: Bytes): Option<DecisionFields> {
    if !ValidTimestamp(issuedAt) then None
    else Some(DecisionFields("", r.decisionHash, r.policyVersion, r.effect == EFFECT_ALLOW, r.reasons,
                             TtlOf(r.maxTtl), r.constraints, issuedAt))
  }

  datatype Verdict = Valid | Invalid(reason: Bytes)

  /** The texts of the errors, in UTF-8. */
  function ErrorText(e: DecisionSeal.VerifyError): Bytes {
    match e
    case MissingSignature => "signature ou identifiant de cl\U{C3}\U{A9} absent"
    case UnknownKeyId => "identifiant de cl\U{C3}\U{A9} inconnu"
    case InvalidSignature => "signature invalide"
  }

  /** The verdict on a decision whose stamp has been written out. */
  function VerifyStamped(c: Crypto, keys: seq<Seals.VerifyingKey>, d: DecisionResponse, issuedAt: Bytes): Verdict {
    match FieldsOf(d, issuedAt)
    case None => Invalid("issued_at_invalide")
    case Some(fields) =>
      match DecisionSeal.Verify(c, keys, fields, d.signatureKeyId, d.signature)
      case None => Valid
      case Some(e) => Invalid(ErrorText(e))
  }

  function VerifyDecision(c: Crypto, keys: seq<Seals.VerifyingKey>, decision: Option<DecisionResponse>): Verdict {
    match decision
    case None => Invalid("decision_absente")
    case Some(d) =>
      if d.issuedAt.None? then Invalid("issued_at_absent")
      else VerifyStamped(c, keys, d, Format(d.issuedAt.value))
  }

  // ----- exactly when a decision verifies ------------------------------------------------------

  /** What the decision says to whoever reads it, in the order in which it is sealed: an
      effect of 1 is an ALLOW, and a lifetime counts in whole seconds from zero up. */
  function Said(d: DecisionResponse, issuedAt: Timestamp): DecisionFields {
    DecisionFields(
      "", d.decisionHash, d.policyVersion, d.effect == 1, d.reasons,
      if d.maxTtl.None? || d.maxTtl.value.seconds < 0 then 0 else d.maxTtl.value.seconds,
      d.constraints, issuedAt)
  }

  /** The decision carries a signature of what it says at this stamp, by the first key
      published under the identifier it names. */
  ghost predicate SealedAs(c: Crypto, keys: seq<Seals.VerifyingKey>, d: DecisionResponse, issuedAt: Bytes) {
    && ValidTimestamp(issuedAt) && d.signatureKeyId != "" && d.signature != ""
    && exists raw :: Seals.Published(keys, d.signatureKeyId, raw)
         && c.CheckMessage(raw, SignedMessage(Said(d, issuedAt)), d.signature)
  }

  lemma SealCheckExact(c: Crypto, keys: seq<Seals.VerifyingKey>, f: DecisionFields, keyId: Bytes, signature: Bytes)
    ensures DecisionSeal.Verify(c, keys, f, keyId, signature).None? <==>
      && keyId != "" && signature != ""
      && exists raw :: Seals.Published(keys, keyId, raw) && c.CheckMessage(raw, SignedMessage(f), signature)
    ensures DecisionSeal.Verify(c, keys, f, keyId, signature) == Some(MissingSignature) <==> keyId == "" || signature == ""
    ensures DecisionSeal.Verify(c, keys, f, keyId, signature) == Some(UnknownKeyId) <==>
      keyId != "" && signature != "" && Seals.Unpublished(keys, keyId)
  {
    Seals.FindKeyExact(keys, keyId);
    var key := Seals.FindKey(keys, keyId);
    if key.Some? { assert Seals.Published(keys, keyId, key.value); }
  }

  /** Why a decision at a stamp that can be written is not valid. */
  function Reason(keys: seq<Seals.VerifyingKey>, d: DecisionResponse): Bytes {
    if d.signatureKeyId == "" || d.signature == "" then "signature ou identifiant de cl\U{C3}\U{A9} absent"
    else if Seals.Unpublished(keys, d.signatureKeyId) then "identifiant de cl\U{C3}\U{A9} inconnu"
    else "signature invalide"
  }

  lemma StampedExact(c: Crypto, keys: seq<Seals.VerifyingKey>, d: DecisionResponse, issuedAt: Bytes)
    ensures VerifyStamped(c, keys, d, issuedAt) ==
      if !ValidTimestamp(issuedAt) then Invalid("issued_at_invalide")
      else if SealedAs(c, keys, d, issuedAt) then Valid
      else Invalid(Reason(keys, d))
  {
    if ValidTimestamp(issuedAt) {
      assert FieldsOf(d, issuedAt) == Some(Said(d, issuedAt));
      SealCheckExact(c, keys, Said(d, issuedAt), d.signatureKeyId, d.signature);
    }
  }

  /** A decision is valid if and only if it is there, its stamp is in the years 0 to 9999 and
      it is sealed as it stands; every other one is refused, each for its own reason. */
  lemma VerifyDecisionExact(c: Crypto, keys: seq<Seals.VerifyingKey>, decision: Option<DecisionResponse>)
    ensures VerifyDecision(c, keys, decision) == Valid <==>
      && decision.Some? && decision.value.issuedAt.Some?
      && -62_167_219_200 <= decision.value.issuedAt.value <= 253_402_300_799
      && SealedAs(c, keys, decision.value, Format(decision.value.issuedAt.value))
    ensures decision.None? ==> VerifyDecision(c, keys, decision) == Invalid("decision_absente")
    ensures decision.Some? && decision.value.issuedAt.None? ==>
      VerifyDecision(c, keys, decision) == Invalid("issued_at_absent")
    ensures decision.Some? && decision.value.issuedAt.Some? && VerifyDecision(c, keys, decision) != Valid ==>
      VerifyDecision(c, keys, decision) ==
        if -62_167_219_200 <= decision.value.issuedAt.value <= 253_402_300_799 then Invalid(Reason(keys, decision.value))
        else Invalid("issued_at_invalide")
  {
    if decision.Some? && decision.value.issuedAt.Some? {
      TimestampAccepts(decision.value.issuedAt.value);
      StampedExact(c, keys, decision.value, Format(decision.value.issuedAt.value));
    }
  }

  datatype DecideError = BadClock | SealingUnavailable

  /** The response of the policy evaluation is stamped and signed in place. The stamp goes
      through its text and back, and loses nothing: the call fails exactly when the clock
      has left the years 0 to 9999 or the device does not answer, it changes nothing but
      the stamp and the signature, and whatever it returns verifies. */
  method Decide(c: Crypto, keyId: Bytes, raw: Bytes, sign: Digest -> Option<Bytes>, evaluated: DecisionResponse, now: int)
    returns (r: Result<DecisionResponse, DecideError>)
    requires keyId != ""
    requires forall digest :: sign(digest).Some? ==> c.Genuine(raw, digest, sign(digest).value)
    ensures r == Err(BadClock) <==> !InRange(now)
    ensures r.Ok? ==>
      && FieldsOf(evaluated, Format(now)).Some?
      && sign(c.sha256(SignedMessage(FieldsOf(evaluated, Format(now)).value))) == Some(r.value.signature)
      && r.value == evaluated.(issuedAt := Some(now), signature := r.value.signature, signatureKeyId := keyId)
      && VerifyDecision(c, [Seals.VerifyingKey(keyId, raw)], Some(r.value)) == Valid
    ensures r.Err? && InRange(now) ==>
      FieldsOf(evaluated, Format(now)).Some? && sign(c.sha256(SignedMessage(FieldsOf(evaluated, Format(now)).value))).None?
  {
    var response := evaluated;
    var issuedAt := Format(now);
    TimestampAccepts(now);
    var fields := FieldsOf(response, issuedAt);
    if fields.None? { return Err(BadClock); }
    var signature := sign(c.sha256(SignedMessage(fields.value)));
    if signature.None? { return Err(SealingUnavailable); }
    SecondsRoundTrip(now);
    response := response.(issuedAt := Some(SecondsOf(issuedAt)));
    response := response.(signature := signature.value);
    response := response.(signatureKeyId := keyId);
    assert FieldsOf(response, issuedAt) == fields;
    r := Ok(response);
  }

  /** What one decision has in common with another when their signed messages agree. */
  predicate SameScope(r: DecisionResponse, s: DecisionResponse) {
    && r.decisionHash == s.decisionHash
    && r.policyVersion == s.policyVersion
    && (r.effect == EFFECT_ALLOW <==> s.effect == EFFECT_ALLOW)
    && r.reasons == s.reasons
    && TtlOf(r.maxTtl) == TtlOf(s.maxTtl)
    && r.constraints == s.constraints
  }

  /** The exact scope of a signature: it can be moved from one stamped decision to another
      if and only if they agree on hash, policy, being an ALLOW, reasons, lifetime in whole
      seconds, constraints and second of issue. */
  lemma SignatureScope(r: DecisionResponse, s: DecisionResponse, t: int, u: int)
    requires InRange(t) && InRange(u)
    ensures FieldsOf(r, Format(t)).Some? && FieldsOf(s, Format(u)).Some?
    ensures SignedMessage(FieldsOf(r, Format(t)).value) == SignedMessage(FieldsOf(s, Format(u)).value) <==>
      SameScope(r, s) && t == u
  {
    TimestampAccepts(t);
    TimestampAccepts(u);
    FormatOrder(t, u);
    var f, g := FieldsOf(r, Format(t)).value, FieldsOf(s, Format(u)).value;
    if SignedMessage(f) == SignedMessage(g) { SignedMessageInjective(f, g); }
  }

  /** The verdict on a decision depends on its lifetime only as it was sealed, so that a
      negative lifetime verifies in place of none. */
  lemma VerdictIgnoresNegativeTtl(c: Crypto, keys: seq<Seals.VerifyingKey>, d: DecisionResponse, maxTtl: Option<Duration>)
    requires TtlOf(maxTtl) == TtlOf(d.maxTtl)
    ensures VerifyDecision(c, keys, Some(d.(maxTtl := maxTtl))) == VerifyDecision(c, keys, Some(d))
  {
    if d.issuedAt.Some? {
      assert FieldsOf(d.(maxTtl := maxTtl), Format(d.issuedAt.value)) == FieldsOf(d, Format(d.issuedAt.value));
    }
  }
}
