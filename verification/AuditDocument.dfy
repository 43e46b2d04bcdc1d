/** The audit event: its typed fields, its wire form, the two document builders (from
    fields when sealing, from the wire when verifying) and the strict reader. */
module AuditDocument {
  import opened Basics
  import opened Sorting
  import opened Json
  import opened Documents
  import opened Fields

  // ----- contract strings --------------------------------------------------------------

  datatype EventType =
    | AuthenticatorRegistered
    | AuthenticatorRevoked
    | AuthenticationAttempted
    | AuthenticationSucceeded
    | AuthenticationFailed
    | RecoveryInitiated
    | QuorumOperation
    | AuditChainVerified
    | PolicyDecided
    | CredentialIssued
  {
    function ContractStr(): Bytes {
      match this
      case AuthenticatorRegistered => "authenticator.registered"
      case AuthenticatorRevoked => "authenticator.revoked"
      case AuthenticationAttempted => "authentication.attempted"
      case AuthenticationSucceeded => "authentication.succeeded"
      case AuthenticationFailed => "authentication.failed"
      case RecoveryInitiated => "recovery.initiated"
      case QuorumOperation => "quorum.operation"
      case AuditChainVerified => "audit.chain_verified"
      case PolicyDecided => "policy.decided"
      case CredentialIssued => "credential.issued"
    }

    predicate RequiresDecision() {
      PolicyDecided? || CredentialIssued?
    }
  }

  function EventTypeFromStr(s: Bytes): (r: Option<EventType>)
    ensures r.Some? ==> r.value.ContractStr() == s
  {
    if s == "authenticator.registered" then Some(AuthenticatorRegistered)
    else if s == "authenticator.revoked" then Some(AuthenticatorRevoked)
    else if s == "authentication.attempted" then Some(AuthenticationAttempted)
    else if s == "authentication.succeeded" then Some(AuthenticationSucceeded)
    else if s == "authentication.failed" then Some(AuthenticationFailed)
    else if s == "recovery.initiated" then Some(RecoveryInitiated)
    else if s == "quorum.operation" then Some(QuorumOperation)
    else if s == "audit.chain_verified" then Some(AuditChainVerified)
    else if s == "policy.decided" then Some(PolicyDecided)
    else if s == "credential.issued" then Some(CredentialIssued)
    else None
  }

  datatype ActorKind = Human | Workload | System {
    function ContractStr(): Bytes {
      match this
      case Human => "human"
      case Workload => "workload"
      case System => "system"
    }
  }

  function ActorKindFromStr(s: Bytes): (r: Option<ActorKind>)
    ensures r.Some? ==> r.value.ContractStr() == s
  {
    if s == "human" then Some(Human)
    else if s == "workload" then Some(Workload)
    else if s == "system" then Some(System)
    else None
  }

  datatype Outcome = Success | Denied | Error {
    function ContractStr(): Bytes {
      match this
      case Success => "success"
      case Denied => "denied"
      case Error => "error"
    }
  }

  function OutcomeFromStr(s: Bytes): (r: Option<Outcome>)
    ensures r.Some? ==> r.value.ContractStr() == s
  {
    if s == "success" then Some(Success)
    else if s == "denied" then Some(Denied)
    else if s == "error" then Some(Error)
    else None
  }

  datatype AssuranceLevel = Aal1 | Aal2 | Aal3 {
    function ContractStr(): Bytes {
      match this
      case Aal1 => "AAL1"
      case Aal2 => "AAL2"
      case Aal3 => "AAL3"
    }
  }

  function AssuranceLevelFromStr(s: Bytes): (r: Option<AssuranceLevel>)
    ensures r.Some? ==> r.value.ContractStr() == s
  {
    if s == "AAL1" then Some(Aal1)
    else if s == "AAL2" then Some(Aal2)
    else if s == "AAL3" then Some(Aal3)
    else None
  }

  lemma ContractStrings(e: EventType, k: ActorKind, o: Outcome, a: AssuranceLevel)
    ensures EventTypeFromStr(e.ContractStr()) == Some(e)
    ensures ActorKindFromStr(k.ContractStr()) == Some(k)
    ensures OutcomeFromStr(o.ContractStr()) == Some(o)
    ensures AssuranceLevelFromStr(a.ContractStr()) == Some(a)
  {
  }

  /** The events by their names, and the two of them that report a decision. */
  lemma EventNames(e: EventType)
    ensures e.ContractStr() == match e
      case AuthenticatorRegistered => "authenticator.registered"
      case AuthenticatorRevoked => "authenticator.revoked"
      case AuthenticationAttempted => "authentication.attempted"
      case AuthenticationSucceeded => "authentication.succeeded"
      case AuthenticationFailed => "authentication.failed"
      case RecoveryInitiated => "recovery.initiated"
      case QuorumOperation => "quorum.operation"
      case AuditChainVerified => "audit.chain_verified"
      case PolicyDecided => "policy.decided"
      case CredentialIssued => "credential.issued"
    ensures e.RequiresDecision() <==> e.ContractStr() in {"policy.decided", "credential.issued"}
  {
  }

  // ----- typed fields, as handed to the sealer ------------------------------------------

  datatype Actor = Actor(
    subjectId: ShortText,
    kind: ActorKind,
    aal: Option<AssuranceLevel>,
    authMethod: Option<AuthMethodText>)

  datatype Target = Target(targetType: ShortText, id: ShortText)

  datatype Context = Context(
    sourceNetwork: Option<ShortText>,
    ticketRef: Option<ShortText>,
    justification: Option<Justification>)

  datatype Decision = Decision(
    requestId: RequestId,
    decisionHash: Digest,
    policyVersion: ShortText,
    reasons: seq<ShortText>,
    grantedTtl: Option<U32>,
    signature: Option<Octets>,
    signatureKeyId: Option<ShortText>)

  datatype EventFields = EventFields(
    eventId: EventId,
    sequence: Sequence,
    prevHash: Digest,
    occurredAt: Timestamp,
    authorityDomain: AuthorityDomain,
    eventType: EventType,
    actor: Actor,
    target: Option<Target>,
    outcome: Outcome,
    context: Option<Context>,
    decision: Option<Decision>)

  function AalStr(o: Option<AssuranceLevel>): Option<Bytes> {
    if o.Some? then Some(o.value.ContractStr()) else None
  }

  function HexOption(o: Option<Bytes>): Option<Bytes> {
    if o.Some? then Some(HexEncode(o.value)) else None
  }

  function ActorValue(a: Actor): Json {
    Obj(Build([
      Entry("subject_id", Some(Str(a.subjectId))),
      Entry("kind", Some(Str(a.kind.ContractStr()))),
      Entry("aal", OptStr(AalStr(a.aal))),
      Entry("auth_method", OptStr(a.authMethod))]))
  }

  function TargetValue(t: Target): Json {
    Obj(Build([
      Entry("type", Some(Str(t.targetType))),
      Entry("id", Some(Str(t.id)))]))
  }

  function ContextValue(c: Context): Json {
    Obj(Build([
      Entry("source_network", OptStr(c.sourceNetwork)),
      Entry("ticket_ref", OptStr(c.ticketRef)),
      Entry("justification", OptStr(c.justification))]))
  }

  function DecisionValue(d: Decision): Json {
    Obj(Build([
      Entry("request_id", Some(Str(d.requestId))),
      Entry("decision_hash", Some(Str(HexEncode(d.decisionHash)))),
      Entry("policy_version", Some(Str(d.policyVersion))),
      Entry("reasons", Some(StrArray(d.reasons))),
      Entry("granted_ttl_seconds", OptNum(d.grantedTtl)),
      Entry("decision_signature", OptStr(HexOption(d.signature))),
      Entry("decision_signature_key_id", OptStr(d.signatureKeyId))]))
  }

  /** The document without its signature, built from typed fields. */
  function UnsignedDocument(f: EventFields): Members {
    Build([
      Entry("schema_version", Some(Num(1))),
      Entry("event_id", Some(Str(f.eventId))),
      Entry("sequence", Some(Num(f.sequence))),
      Entry("prev_hash", Some(Str(HexEncode(f.prevHash)))),
      Entry("occurred_at", Some(Str(f.occurredAt))),
      Entry("authority_domain", Some(Str(f.authorityDomain))),
      Entry("event_type", Some(Str(f.eventType.ContractStr()))),
      Entry("actor", Some(ActorValue(f.actor))),
      Entry("target", if f.target.Some? then Some(TargetValue(f.target.value)) else None),
      Entry("outcome", Some(Str(f.outcome.ContractStr()))),
      Entry("context", if f.context.Some? then Some(ContextValue(f.context.value)) else None),
      Entry("decision", if f.decision.Some? then Some(DecisionValue(f.decision.value)) else None)])
  }

  // ----- wire form -----------------------------------------------------------------------

  datatype WireActor = WireActor(
    subjectId: Bytes, kind: Bytes, aal: Option<Bytes>, authMethod: Option<Bytes>)

  datatype WireTarget = WireTarget(targetType: Bytes, id: Bytes)

  datatype WireContext = WireContext(
    sourceNetwork: Option<Bytes>, ticketRef: Option<Bytes>, justification: Option<Bytes>)

  datatype WireDecision = WireDecision(
    requestId: Bytes,
    decisionHash: Bytes,
    policyVersion: Bytes,
    reasons: seq<Bytes>,
    grantedTtl: Option<U64>,
    signature: Option<Bytes>,
    signatureKeyId: Option<Bytes>)

  datatype WireBody = WireBody(
    schemaVersion: U32,
    eventId: Bytes,
    sequence: U64,
    prevHash: Bytes,
    occurredAt: Bytes,
    authorityDomain: Bytes,
    eventType: Bytes,
    actor: WireActor,
    target: Option<WireTarget>,
    outcome: Bytes,
    context: Option<WireContext>,
    decision: Option<WireDecision>)

  datatype WireComponent = WireComponent(component: Bytes, keyId: Bytes, value: Bytes)

  datatype WireSignature = WireSignature(suite: Bytes, components: seq<WireComponent>)

  datatype WireDocument = WireDocument(body: WireBody, signature: WireSignature)

  function ActorSlots(a: WireActor): Slots {
    [Entry("subject_id", Some(Str(a.subjectId))),
     Entry("kind", Some(Str(a.kind))),
     Entry("aal", OptStr(a.aal)),
     Entry("auth_method", OptStr(a.authMethod))]
  }

  function TargetSlots(t: WireTarget): Slots {
    [Entry("type", Some(Str(t.targetType))),
     Entry("id", Some(Str(t.id)))]
  }

  function ContextSlots(c: WireContext): Slots {
    [Entry("source_network", OptStr(c.sourceNetwork)),
     Entry("ticket_ref", OptStr(c.ticketRef)),
     Entry("justification", OptStr(c.justification))]
  }

  function DecisionSlots(d: WireDecision): Slots {
    [Entry("request_id", Some(Str(d.requestId))),
     Entry("decision_hash", Some(Str(d.decisionHash))),
     Entry("policy_version", Some(Str(d.policyVersion))),
     Entry("reasons", Some(StrArray(d.reasons))),
     Entry("granted_ttl_seconds", OptNum(d.grantedTtl)),
     Entry("decision_signature", OptStr(d.signature)),
     Entry("decision_signature_key_id", OptStr(d.signatureKeyId))]
  }

  function BodySlots(b: WireBody): Slots {
    [Entry("schema_version", Some(Num(b.schemaVersion))),
     Entry("event_id", Some(Str(b.eventId))),
     Entry("sequence", Some(Num(b.sequence))),
     Entry("prev_hash", Some(Str(b.prevHash))),
     Entry("occurred_at", Some(Str(b.occurredAt))),
     Entry("authority_domain", Some(Str(b.authorityDomain))),
     Entry("event_type", Some(Str(b.eventType))),
     Entry("actor", Some(Obj(Build(ActorSlots(b.actor))))),
     Entry("target", if b.target.Some? then Some(Obj(Build(TargetSlots(b.target.value)))) else None),
     Entry("outcome", Some(Str(b.outcome))),
     Entry("context", if b.context.Some? then Some(Obj(Build(ContextSlots(b.context.value)))) else None),
     Entry("decision", if b.decision.Some? then Some(Obj(Build(DecisionSlots(b.decision.value)))) else None)]
  }

  /** The document without its signature, rebuilt from what was read off the wire. */
  function UnsignedFromWire(b: WireBody): Members {
    Build(BodySlots(b))
  }

  function ComponentSlots(c: WireComponent): Slots {
    [Entry("component", Some(Str(c.component))),
     Entry("key_id", Some(Str(c.keyId))),
     Entry("value", Some(Str(c.value)))]
  }

  function ComponentsValue(cs: seq<WireComponent>): (v: Json)
    ensures v.Arr? && |v.items| == |cs|
    ensures forall i | 0 <= i < |cs| :: v.items[i] == Obj(Build(ComponentSlots(cs[i])))
  {
    Arr(seq(|cs|, i requires 0 <= i < |cs| => Obj(Build(ComponentSlots(cs[i])))))
  }

  function SignatureSlots(s: WireSignature): Slots {
    [Entry("suite", Some(Str(s.suite))),
     Entry("components", Some(ComponentsValue(s.components)))]
  }

  function SignatureValue(s: WireSignature): Json {
    Obj(Build(SignatureSlots(s)))
  }

  function FullDocument(doc: WireDocument): Json {
    Obj(UnsignedFromWire(doc.body) + [Entry("signature", SignatureValue(doc.signature))])
  }

  // ----- strict reader -----------------------------------------------------------------

  const ACTOR_KEYS: seq<Bytes> := ["subject_id", "kind", "aal", "auth_method"]
  const TARGET_KEYS: seq<Bytes> := ["type", "id"]
  const CONTEXT_KEYS: seq<Bytes> := ["source_network", "ticket_ref", "justification"]
  const DECISION_KEYS: seq<Bytes> :=
    ["request_id", "decision_hash", "policy_version", "reasons", "granted_ttl_seconds",
     "decision_signature", "decision_signature_key_id"]
  const COMPONENT_KEYS: seq<Bytes> := ["component", "key_id", "value"]
  const SIGNATURE_KEYS: seq<Bytes> := ["suite", "components"]
  const DOCUMENT_KEYS: seq<Bytes> :=
    ["schema_version", "event_id", "sequence", "prev_hash", "occurred_at", "authority_domain",
     "event_type", "actor", "target", "outcome", "context", "decision", "signature"]

  function ReadActor(v: Json): Option<WireActor> {
    var ms :- StrictMembers(v, ACTOR_KEYS);
    var subjectId :- ReadStr(ms, "subject_id");
    var kind :- ReadStr(ms, "kind");
    var aal :- ReadOptStr(ms, "aal");
    var authMethod :- ReadOptStr(ms, "auth_method");
    Some(WireActor(subjectId, kind, aal, authMethod))
  }

  function ReadTarget(v: Json): Option<WireTarget> {
    var ms :- StrictMembers(v, TARGET_KEYS);
    var targetType :- ReadStr(ms, "type");
    var id :- ReadStr(ms, "id");
    Some(WireTarget(targetType, id))
  }

  function ReadContext(v: Json): Option<WireContext> {
    var ms :- StrictMembers(v, CONTEXT_KEYS);
    var sourceNetwork :- ReadOptStr(ms, "source_network");
    var ticketRef :- ReadOptStr(ms, "ticket_ref");
    var justification :- ReadOptStr(ms, "justification");
    Some(WireContext(sourceNetwork, ticketRef, justification))
  }

  function ReadDecision(v: Json): Option<WireDecision> {
    var ms :- StrictMembers(v, DECISION_KEYS);
    var requestId :- ReadStr(ms, "request_id");
    var decisionHash :- ReadStr(ms, "decision_hash");
    var policyVersion :- ReadStr(ms, "policy_version");
    var reasons :- ReadStrings(ms, "reasons");
    var grantedTtl :- ReadOptU64(ms, "granted_ttl_seconds");
    var signature :- ReadOptStr(ms, "decision_signature");
    var signatureKeyId :- ReadOptStr(ms, "decision_signature_key_id");
    Some(WireDecision(requestId, decisionHash, policyVersion, reasons, grantedTtl, signature, signatureKeyId))
  }

  function ReadOptTarget(ms: Members): Option<Option<WireTarget>> {
    match Lookup<Json>(ms, "target")
    case None => Some(None)
    case Some(Null) => Some(None)
    case Some(v) => var t :- ReadTarget(v); Some(Some(t))
  }

  function ReadOptContext(ms: Members): Option<Option<WireContext>> {
    match Lookup<Json>(ms, "context")
    case None => Some(None)
    case Some(Null) => Some(None)
    case Some(v) => var c :- ReadContext(v); Some(Some(c))
  }

  function ReadOptDecision(ms: Members): Option<Option<WireDecision>> {
    match Lookup<Json>(ms, "decision")
    case None => Some(None)
    case Some(Null) => Some(None)
    case Some(v) => var d :- ReadDecision(v); Some(Some(d))
  }

  function ReadBody(ms: Members): Option<WireBody> {
    var schemaVersion :- ReadNum(ms, "schema_version", U32_LIMIT);
    var eventId :- ReadStr(ms, "event_id");
    var sequence :- ReadNum(ms, "sequence", U64_LIMIT);
    var prevHash :- ReadStr(ms, "prev_hash");
    var occurredAt :- ReadStr(ms, "occurred_at");
    var authorityDomain :- ReadStr(ms, "authority_domain");
    var eventType :- ReadStr(ms, "event_type");
    var actorValue :- Lookup(ms, "actor");
    var actor :- ReadActor(actorValue);
    var target :- ReadOptTarget(ms);
    var outcome :- ReadStr(ms, "outcome");
    var context :- ReadOptContext(ms);
    var decision :- ReadOptDecision(ms);
    Some(WireBody(schemaVersion, eventId, sequence, prevHash, occurredAt, authorityDomain,
                  eventType, actor, target, outcome, context, decision))
  }

  function ReadComponent(v: Json): Option<WireComponent> {
    var ms :- StrictMembers(v, COMPONENT_KEYS);
    var component :- ReadStr(ms, "component");
    var keyId :- ReadStr(ms, "key_id");
    var value :- ReadStr(ms, "value");
    Some(WireComponent(component, keyId, value))
  }

  function ReadComponents(items: seq<Json>): Option<seq<WireComponent>> {
    if items == [] then Some([])
    else
      var first :- ReadComponent(items[0]);
      var rest :- ReadComponents(items[1..]);
      Some([first] + rest)
  }

  function ReadSignature(v: Json): Option<WireSignature> {
    var ms :- StrictMembers(v, SIGNATURE_KEYS);
    var suite :- ReadStr(ms, "suite");
    match Lookup<Json>(ms, "components")
    case Some(Arr(items)) => var components :- ReadComponents(items); Some(WireSignature(suite, components))
    case _ => None
  }

  function ReadDocument(v: Json): Option<WireDocument> {
    var ms :- StrictMembers(v, DOCUMENT_KEYS);
    var body :- ReadBody(ms);
    var signatureValue :- Lookup(ms, "signature");
    var signature :- ReadSignature(signatureValue);
    Some(WireDocument(body, signature))
  }
}
