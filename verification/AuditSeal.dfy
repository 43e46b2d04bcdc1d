/** Sealing and verifying one audit event (suite `audit-seal/v1`). */
module AuditSeal {
  import opened Basics
  import opened Sorting
  import opened Json
  import opened Canonical
  import opened Documents
  import opened AuditDocument

  const SUITE_V1: Bytes := "audit-seal/v1"
  const DOMAIN_PREFIX_V1: Bytes := "zero-secret/audit-seal/v1"
  const NUL: Bytes := [0 as char]
  const MAX_BYTES: int := 8192
  const MAX_REASONS: int := 16
  const COMPONENT_V1: Bytes := "ecdsa-p256"
  const REQUIRED_COMPONENTS_V1: seq<Bytes> := [COMPONENT_V1]

  datatype SealError = InvalidFields(field: Bytes) | SealingUnavailable

  datatype VerifyError =
    | UnknownSuite
    | TooLarge
    | MalformedDocument
    | NonCanonical
    | InvalidSignatureArity
    | UnknownKeyId
    | InvalidSignature
    | UnexpectedAuthorityDomain

  datatype VerifyingKey = VerifyingKey(keyId: Bytes, raw: Bytes)

  datatype AcceptancePolicy = AcceptancePolicy(acceptedSuites: seq<Bytes>, expectedAuthorityDomain: Bytes)

  datatype VerifiedEvent = VerifiedEvent(
    eventId: Bytes,
    sequence: U64,
    prevHash: Digest,
    occurredAt: Bytes,
    authorityDomain: Bytes,
    eventType: EventType)

  function SignedMessage(prefix: Bytes, unsigned: Members): Bytes {
    prefix + NUL + CanonicalBytes(Obj(unsigned))
  }

  // ----- sealing -----------------------------------------------------------------------

  function CouplingError(eventType: EventType, decision: Option<Decision>): Option<SealError> {
    if eventType.RequiresDecision() != decision.Some? then Some(InvalidFields("decision"))
    else if decision.Some? && |decision.value.reasons| > MAX_REASONS then Some(InvalidFields("decision.reasons"))
    else None
  }

  function SealSignature(keyId: Bytes, valueHex: Bytes): WireSignature {
    WireSignature(SUITE_V1, [WireComponent(COMPONENT_V1, keyId, valueHex)])
  }

  /** What inserting the signature will add: a comma, the key, a colon, and a signature
      object measured on a placeholder of 128 zeros. */
  function SignatureOverhead(keyId: Bytes): nat {
    1 + |"\"signature\":"| + |CanonicalBytes(SignatureValue(SealSignature(keyId, seq(128, _ => '0'))))|
  }

  predicate SizeFits(unsigned: Members, keyId: Bytes) {
    |CanonicalBytes(Obj(unsigned))| + SignatureOverhead(keyId) <= MAX_BYTES
  }

  function SealedBytes(unsigned: Members, keyId: Bytes, signature: Bytes): Bytes {
    CanonicalBytes(Obj(unsigned + [Entry("signature", SignatureValue(SealSignature(keyId, HexEncode(signature))))]))
  }

  /** `sign` is the device's answer to this one call: ECDSA is randomised, so two calls
      may be given different functions. */
  function Seal(c: Crypto, keyId: Bytes, sign: Digest -> Option<Bytes>, f: EventFields): Result<Bytes, SealError> {
    var coupling := CouplingError(f.eventType, f.decision);
    if coupling.Some? then Err(coupling.value)
    else
      var unsigned := UnsignedDocument(f);
      if !SizeFits(unsigned, keyId) then Err(InvalidFields("size"))
      else
        match sign(c.sha256(SignedMessage(DOMAIN_PREFIX_V1, unsigned)))
        case None => Err(SealingUnavailable)
        case Some(signature) => Ok(SealedBytes(unsigned, keyId, signature))
  }

  // ----- verifying ---------------------------------------------------------------------

  function FindKey(keys: seq<VerifyingKey>, keyId: Bytes): Option<Bytes> {
    if keys == [] then None
    else if keys[0].keyId == keyId then Some(keys[0].raw)
    else FindKey(keys[1..], keyId)
  }

  /** The first key in the list under this identifier is `raw`. */
  ghost predicate Published(keys: seq<VerifyingKey>, keyId: Bytes, raw: Bytes) {
    exists i :: PublishedAt(keys, keyId, raw, i)
  }

  predicate PublishedAt(keys: seq<VerifyingKey>, keyId: Bytes, raw: Bytes, i: int) {
    && 0 <= i < |keys| && keys[i] == VerifyingKey(keyId, raw)
    && forall k | 0 <= k < i :: keys[k].keyId != keyId
  }

  predicate Unpublished(keys: seq<VerifyingKey>, keyId: Bytes) {
    forall i | 0 <= i < |keys| :: keys[i].keyId != keyId
  }

  /** Looking a key up finds the first one published under its identifier, and finds nothing
      exactly when none is. */
  lemma {:induction false} FindKeyExact(keys: seq<VerifyingKey>, keyId: Bytes)
    ensures forall raw :: FindKey(keys, keyId) == Some(raw) <==> Published(keys, keyId, raw)
    ensures FindKey(keys, keyId).None? <==> Unpublished(keys, keyId)
  {
    if keys != [] {
      FindKeyExact(keys[1..], keyId);
      forall raw
        ensures FindKey(keys, keyId) == Some(raw) <==> Published(keys, keyId, raw)
      {
        PublishedStep(keys, keyId, raw);
      }
      assert forall i | 1 <= i < |keys| :: keys[i] == keys[1..][i - 1];
    }
  }

  lemma PublishedStep(keys: seq<VerifyingKey>, keyId: Bytes, raw: Bytes)
    requires keys != []
    ensures Published(keys, keyId, raw) <==>
      if keys[0].keyId == keyId then keys[0].raw == raw else Published(keys[1..], keyId, raw)
  {
    var rest := keys[1..];
    if keys[0].keyId == keyId {
      if keys[0].raw == raw { assert PublishedAt(keys, keyId, raw, 0); }
      if Published(keys, keyId, raw) { var i :| PublishedAt(keys, keyId, raw, i); }
    } else {
      if Published(keys, keyId, raw) {
        var i :| PublishedAt(keys, keyId, raw, i);
        assert forall k | 0 <= k < |rest| :: rest[k] == keys[k + 1];
        assert PublishedAt(rest, keyId, raw, i - 1);
      }
      if Published(rest, keyId, raw) {
        var i :| PublishedAt(rest, keyId, raw, i);
        assert forall k | 1 <= k < |keys| :: keys[k] == rest[k - 1];
        assert PublishedAt(keys, keyId, raw, i + 1);
      }
    }
  }

  /** Every component is resolved and checked; one that cannot be resolved ends the walk,
      one that does not verify only spoils the verdict. */
  function CheckComponents(c: Crypto, keys: seq<VerifyingKey>, message: Bytes, components: seq<WireComponent>)
    : Result<bool, VerifyError>
  {
    if components == [] then Ok(true)
    else
      match FindKey(keys, components[0].keyId)
      case None => Err(UnknownKeyId)
      case Some(raw) =>
        match HexDecode(components[0].value)
        case None => Err(InvalidSignature)
        case Some(signature) =>
          var rest :- CheckComponents(c, keys, message, components[1..]);
          Ok(c.CheckMessage(raw, message, signature) && rest)
  }

  function ComponentNames(components: seq<WireComponent>): (names: seq<Bytes>)
    ensures |names| == |components|
  {
    seq(|components|, i requires 0 <= i < |components| => components[i].component)
  }

  predicate DecisionWellShaped(d: WireDecision) {
    && |d.reasons| <= MAX_REASONS
    && HexDecode(d.decisionHash).Some?
    && |HexDecode(d.decisionHash).value| == 32
  }

  /** The checks of form on a document that has been read, in the original's order. */
  function ShapeError(b: WireBody, signature: WireSignature, policy: AcceptancePolicy): Option<VerifyError> {
    var eventType := EventTypeFromStr(b.eventType);
    if b.schemaVersion != 1 then Some(MalformedDocument)
    else if signature.suite !in policy.acceptedSuites then Some(UnknownSuite)
    else if eventType.None? then Some(MalformedDocument)
    else if ActorKindFromStr(b.actor.kind).None? then Some(MalformedDocument)
    else if OutcomeFromStr(b.outcome).None? then Some(MalformedDocument)
    else if eventType.value.RequiresDecision() != b.decision.Some? then Some(MalformedDocument)
    else if b.decision.Some? && !DecisionWellShaped(b.decision.value) then Some(MalformedDocument)
    else if signature.suite != SUITE_V1 then Some(UnknownSuite)
    else if ComponentNames(signature.components) != REQUIRED_COMPONENTS_V1 then Some(InvalidSignatureArity)
    else None
  }

  /** What is reported of a document whose form and signature are in order. */
  function Report(b: WireBody, policy: AcceptancePolicy): Result<VerifiedEvent, VerifyError> {
    var eventType := EventTypeFromStr(b.eventType);
    var prevHash := HexDecode(b.prevHash);
    if b.authorityDomain != policy.expectedAuthorityDomain then Err(UnexpectedAuthorityDomain)
    else if eventType.None? || prevHash.None? || |prevHash.value| != 32 then Err(MalformedDocument)
    else Ok(VerifiedEvent(b.eventId, b.sequence, prevHash.value, b.occurredAt, b.authorityDomain, eventType.value))
  }

  /** Form, then canonicity, then signatures, then context. */
  function CheckParts(c: Crypto, keys: seq<VerifyingKey>, canonical: bool, message: Bytes, b: WireBody,
                      signature: WireSignature, policy: AcceptancePolicy): Result<VerifiedEvent, VerifyError> {
    var shape := ShapeError(b, signature, policy);
    if shape.Some? then Err(shape.value)
    else if !canonical then Err(NonCanonical)
    else
      var allValid :- CheckComponents(c, keys, message, signature.components);
      if !allValid then Err(InvalidSignature) else Report(b, policy)
  }

  /** The checks made on a document that has been read. */
  function CheckDocument(c: Crypto, keys: seq<VerifyingKey>, bytes: Bytes, doc: WireDocument, policy: AcceptancePolicy)
    : Result<VerifiedEvent, VerifyError>
  {
    CheckParts(c, keys, CanonicalBytes(FullDocument(doc)) == bytes,
               SignedMessage(DOMAIN_PREFIX_V1, UnsignedFromWire(doc.body)), doc.body, doc.signature, policy)
  }

  function Verify(c: Crypto, keys: seq<VerifyingKey>, bytes: Bytes, policy: AcceptancePolicy)
    : Result<VerifiedEvent, VerifyError>
  {
    if |bytes| > MAX_BYTES then Err(TooLarge)
    else
      match Parse(bytes)
      case None => Err(MalformedDocument)
      case Some(v) =>
        match ReadDocument(v)
        case None => Err(MalformedDocument)
        case Some(doc) => CheckDocument(c, keys, bytes, doc, policy)
  }

  /** The component loop with its running verdict. */
  method CheckComponentsLoop(c: Crypto, keys: seq<VerifyingKey>, message: Bytes, components: seq<WireComponent>)
    returns (r: Result<bool, VerifyError>)
    ensures r == CheckComponents(c, keys, message, components)
  {
    var allValid := true;
    var i := 0;
    while i < |components|
      invariant 0 <= i <= |components|
      invariant CheckComponents(c, keys, message, components) ==
        Combine(allValid, CheckComponents(c, keys, message, components[i..]))
    {
      var key := FindKey(keys, components[i].keyId);
      if key.None? { return Err(UnknownKeyId); }
      var signature := HexDecode(components[i].value);
      if signature.None? { return Err(InvalidSignature); }
      assert components[i..][1..] == components[i + 1..];
      allValid := allValid && c.CheckMessage(key.value, message, signature.value);
      i := i + 1;
    }
    r := Ok(allValid);
  }

  function Combine(soFar: bool, rest: Result<bool, VerifyError>): Result<bool, VerifyError> {
    match rest
    case Err(e) => Err(e)
    case Ok(b) => Ok(soFar && b)
  }

  // ----- the two builders agree ----------------------------------------------------------

  function WireActorOf(a: Actor): WireActor {
    WireActor(a.subjectId, a.kind.ContractStr(), AalStr(a.aal), a.authMethod)
  }

  function WireTargetOf(t: Target): WireTarget {
    WireTarget(t.targetType, t.id)
  }

  function WireContextOf(x: Context): WireContext {
    WireContext(x.sourceNetwork, x.ticketRef, x.justification)
  }

  function WireDecisionOf(d: Decision): WireDecision {
    WireDecision(d.requestId, HexEncode(d.decisionHash), d.policyVersion, d.reasons,
                 if d.grantedTtl.Some? then Some(d.grantedTtl.value) else None,
                 HexOption(d.signature), d.signatureKeyId)
  }

  function WireBodyOf(f: EventFields): WireBody {
    WireBody(1, f.eventId, f.sequence, HexEncode(f.prevHash), f.occurredAt, f.authorityDomain,
             f.eventType.ContractStr(), WireActorOf(f.actor),
             if f.target.Some? then Some(WireTargetOf(f.target.value)) else None,
             f.outcome.ContractStr(),
             if f.context.Some? then Some(WireContextOf(f.context.value)) else None,
             if f.decision.Some? then Some(WireDecisionOf(f.decision.value)) else None)
  }

  /** Building from typed fields and rebuilding from the wire give the same members in
      the same order, whatever optional fields are absent. */
  lemma BuildersAgree(f: EventFields)
    ensures UnsignedDocument(f) == UnsignedFromWire(WireBodyOf(f))
  {
    var b := WireBodyOf(f);
    assert ActorValue(f.actor) == Obj(Build(ActorSlots(b.actor)));
    assert f.target.Some? ==> TargetValue(f.target.value) == Obj(Build(TargetSlots(b.target.value)));
    assert f.context.Some? ==> ContextValue(f.context.value) == Obj(Build(ContextSlots(b.context.value)));
    assert f.decision.Some? ==> DecisionValue(f.decision.value) == Obj(Build(DecisionSlots(b.decision.value)));
  }
}
