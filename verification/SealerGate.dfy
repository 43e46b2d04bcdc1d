/** The field gate between the collector and the sealer: a request of raw strings and
    octets becomes typed event fields, or is refused. */
module SealerGate {
  import opened Basics
  import opened Fields
  import opened Rfc3339
  import opened AuditDocument

  datatype ProtoActor = ProtoActor(subjectId: Bytes, kind: Bytes, aal: Option<Bytes>, authMethod: Option<Bytes>)

  datatype ProtoTarget = ProtoTarget(targetType: Bytes, id: Bytes)

  datatype ProtoContext = ProtoContext(
    sourceNetwork: Option<Bytes>, ticketRef: Option<Bytes>, justification: Option<Bytes>)

  datatype ProtoDecision = ProtoDecision(
    requestId: Bytes,
    decisionHash: Octets,
    policyVersion: Bytes,
    reasons: seq<Bytes>,
    grantedTtl: Option<U32>,
    signature: Option<Octets>,
    signatureKeyId: Option<Bytes>)

  datatype SealRequest = SealRequest(
    eventId: Bytes,
    sequence: U64,
    prevHash: Octets,
    occurredAt: Option<int>,
    authorityDomain: Bytes,
    eventType: Bytes,
    actor: Option<ProtoActor>,
    target: Option<ProtoTarget>,
    outcome: Bytes,
    context: Option<ProtoContext>,
    decision: Option<ProtoDecision>)

  /** How a field that cannot be written is reported. */
  function InvalidField(field: Bytes): Bytes {
    "champ invalide : '" + field + "'"
  }

  function ToShortText(s: Bytes, field: Bytes): Result<ShortText, Bytes> {
    if BoundedAscii(s, 256) then Ok(s) else Err(InvalidField(field))
  }

  function ToOptShortText(o: Option<Bytes>): Result<Option<ShortText>, Bytes> {
    if o.None? then Ok(None)
    else if BoundedAscii(o.value, 256) then Ok(Some(o.value))
    else Err(InvalidField("text"))
  }

  function ToOptJustification(o: Option<Bytes>): Result<Option<Justification>, Bytes> {
    if o.None? then Ok(None)
    else if BoundedAscii(o.value, 512) then Ok(Some(o.value))
    else Err(InvalidField("context.justification"))
  }

  function ToOptAuthMethod(o: Option<Bytes>): Result<Option<AuthMethodText>, Bytes> {
    if o.None? then Ok(None)
    else if BoundedAscii(o.value, 64) then Ok(Some(o.value))
    else Err(InvalidField("auth_method"))
  }

  function ToOptAal(o: Option<Bytes>): Result<Option<AssuranceLevel>, Bytes> {
    if o.None? then Ok(None)
    else if AssuranceLevelFromStr(o.value).Some? then Ok(Some(AssuranceLevelFromStr(o.value).value))
    else Err("aal_inconnu")
  }

  function ToReasons(reasons: seq<Bytes>): Result<seq<ShortText>, Bytes> {
    if forall i | 0 <= i < |reasons| :: BoundedAscii(reasons[i], 256) then Ok(reasons)
    else Err(InvalidField("decision.reasons"))
  }

  function ActorFromProto(a: ProtoActor): Result<Actor, Bytes> {
    AssembleActor(ActorKindFromStr(a.kind), ToOptAal(a.aal), a)
  }

  function AssembleActor(kind: Option<ActorKind>, aal: Result<Option<AssuranceLevel>, Bytes>, a: ProtoActor)
    : Result<Actor, Bytes>
  {
    if kind.None? then Err("actor_kind_inconnu")
    else
      var level :- aal;
      var authMethod :- ToOptAuthMethod(a.authMethod);
      var subjectId :- ToShortText(a.subjectId, "subject_id");
      Ok(Actor(subjectId, kind.value, level, authMethod))
  }

  function TargetFromProto(t: ProtoTarget): Result<Target, Bytes> {
    var targetType :- ToShortText(t.targetType, "text");
    var id :- ToShortText(t.id, "text");
    Ok(Target(targetType, id))
  }

  function ContextFromProto(c: ProtoContext): Result<Context, Bytes> {
    var sourceNetwork :- ToOptShortText(c.sourceNetwork);
    var ticketRef :- ToOptShortText(c.ticketRef);
    var justification :- ToOptJustification(c.justification);
    Ok(Context(sourceNetwork, ticketRef, justification))
  }

  function DecisionFromProto(d: ProtoDecision): Result<Decision, Bytes> {
    if |d.decisionHash| != 32 then Err("decision_hash_doit_faire_32_octets")
    else
      var reasons :- ToReasons(d.reasons);
      if !ValidUuid(d.requestId, false) then Err(InvalidField("decision.request_id"))
      else
        var policyVersion :- ToShortText(d.policyVersion, "decision.policy_version");
        var signatureKeyId :- ToOptShortText(d.signatureKeyId);
        Ok(Decision(d.requestId, d.decisionHash, policyVersion, reasons, d.grantedTtl, d.signature, signatureKeyId))
  }

  function OptTarget(o: Option<ProtoTarget>): Result<Option<Target>, Bytes> {
    if o.None? then Ok(None) else var t :- TargetFromProto(o.value); Ok(Some(t))
  }

  function OptContext(o: Option<ProtoContext>): Result<Option<Context>, Bytes> {
    if o.None? then Ok(None) else var c :- ContextFromProto(o.value); Ok(Some(c))
  }

  function OptDecision(o: Option<ProtoDecision>): Result<Option<Decision>, Bytes> {
    if o.None? then Ok(None) else var d :- DecisionFromProto(o.value); Ok(Some(d))
  }

  function FieldsFromRequest(req: SealRequest): Result<EventFields, Bytes> {
    AssembleFields(
      req, EventTypeFromStr(req.eventType), OutcomeFromStr(req.outcome),
      if req.actor.Some? then ActorFromProto(req.actor.value) else Err("actor_absent"),
      OptTarget(req.target), OptContext(req.context), OptDecision(req.decision))
  }

  /** The converted parts put together, in the order in which a refusal is reported. */
  function AssembleFields(
    req: SealRequest, eventType: Option<EventType>, outcome: Option<Outcome>, actor: Result<Actor, Bytes>,
    target: Result<Option<Target>, Bytes>, context: Result<Option<Context>, Bytes>,
    decision: Result<Option<Decision>, Bytes>): Result<EventFields, Bytes>
  {
    if eventType.None? then Err("event_type_inconnu_ou_non_supporte")
    else if outcome.None? then Err("outcome_inconnu")
    else if |req.prevHash| != 32 then Err("prev_hash_doit_faire_32_octets")
    else if req.occurredAt.None? then Err("occurred_at_absent")
    else
      var a :- actor;
      var t :- target;
      var c :- context;
      var d :- decision;
      var occurredAt := Format(req.occurredAt.value);
      if !ValidUuid(req.eventId, true) then Err(InvalidField("event_id"))
      else if req.sequence > MAX_SAFE_INTEGER then Err(InvalidField("sequence"))
      else if !ValidTimestamp(occurredAt) then Err(InvalidField("timestamp"))
      else if !BoundedAscii(req.authorityDomain, 128) then Err(InvalidField("authority_domain"))
      else Ok(EventFields(req.eventId, req.sequence, req.prevHash, occurredAt, req.authorityDomain,
                          eventType.value, a, t, outcome.value, c, d))
  }

  // ----- the gate is exact -----------------------------------------------------------------

  function ProtoActorOf(a: Actor): ProtoActor {
    ProtoActor(a.subjectId, a.kind.ContractStr(), AalStr(a.aal), a.authMethod)
  }

  function ProtoTargetOf(t: Target): ProtoTarget {
    ProtoTarget(t.targetType, t.id)
  }

  function ProtoContextOf(c: Context): ProtoContext {
    ProtoContext(c.sourceNetwork, c.ticketRef, c.justification)
  }

  function ProtoDecisionOf(d: Decision): ProtoDecision {
    ProtoDecision(d.requestId, d.decisionHash, d.policyVersion, d.reasons, d.grantedTtl, d.signature, d.signatureKeyId)
  }

  /** The request that asks for exactly these fields at this instant. */
  function RequestOf(f: EventFields, seconds: int): SealRequest {
    SealRequest(
      f.eventId, f.sequence, f.prevHash, Some(seconds), f.authorityDomain, f.eventType.ContractStr(),
      Some(ProtoActorOf(f.actor)),
      if f.target.Some? then Some(ProtoTargetOf(f.target.value)) else None,
      f.outcome.ContractStr(),
      if f.context.Some? then Some(ProtoContextOf(f.context.value)) else None,
      if f.decision.Some? then Some(ProtoDecisionOf(f.decision.value)) else None)
  }

  lemma StringsExact(s: Bytes, e: EventType, k: ActorKind, o: Outcome, a: AssuranceLevel)
    ensures EventTypeFromStr(s) == Some(e) <==> s == e.ContractStr()
    ensures ActorKindFromStr(s) == Some(k) <==> s == k.ContractStr()
    ensures OutcomeFromStr(s) == Some(o) <==> s == o.ContractStr()
    ensures AssuranceLevelFromStr(s) == Some(a) <==> s == a.ContractStr()
  {
    ContractStrings(e, k, o, a);
  }

  lemma ActorExact(p: ProtoActor, a: Actor)
    ensures ActorFromProto(p) == Ok(a) <==> p == ProtoActorOf(a)
  {
  }

  lemma TargetExact(p: Option<ProtoTarget>, t: Option<Target>)
    ensures OptTarget(p) == Ok(t) <==> p == (if t.Some? then Some(ProtoTargetOf(t.value)) else None)
  {
  }

  lemma ContextExact(p: Option<ProtoContext>, c: Option<Context>)
    ensures OptContext(p) == Ok(c) <==> p == (if c.Some? then Some(ProtoContextOf(c.value)) else None)
  {
  }

  lemma DecisionExact(p: Option<ProtoDecision>, d: Option<Decision>)
    ensures OptDecision(p) == Ok(d) <==> p == (if d.Some? then Some(ProtoDecisionOf(d.value)) else None)
  {
  }

  lemma AssembleExact(
    req: SealRequest, eventType: Option<EventType>, outcome: Option<Outcome>, actor: Result<Actor, Bytes>,
    target: Result<Option<Target>, Bytes>, context: Result<Option<Context>, Bytes>,
    decision: Result<Option<Decision>, Bytes>, f: EventFields)
    ensures AssembleFields(req, eventType, outcome, actor, target, context, decision) == Ok(f) <==>
      && eventType == Some(f.eventType) && outcome == Some(f.outcome) && actor == Ok(f.actor)
      && target == Ok(f.target) && context == Ok(f.context) && decision == Ok(f.decision)
      && req.eventId == f.eventId && req.sequence == f.sequence && req.prevHash == f.prevHash
      && req.authorityDomain == f.authorityDomain
      && req.occurredAt.Some? && f.occurredAt == Format(req.occurredAt.value)
  {
  }

  /** The gate lets a request through with fields `f` exactly when the request says
      nothing but `f`: nothing is dropped, defaulted or altered on the way. */
  lemma GateExact(req: SealRequest, f: EventFields)
    ensures FieldsFromRequest(req) == Ok(f) <==>
      req.occurredAt.Some? && f.occurredAt == Format(req.occurredAt.value) && req == RequestOf(f, req.occurredAt.value)
  {
    var actor := if req.actor.Some? then ActorFromProto(req.actor.value) else Err("actor_absent");
    AssembleExact(req, EventTypeFromStr(req.eventType), OutcomeFromStr(req.outcome), actor,
                  OptTarget(req.target), OptContext(req.context), OptDecision(req.decision), f);
    StringsExact(req.eventType, f.eventType, Human, Success, Aal1);
    StringsExact(req.outcome, PolicyDecided, Human, f.outcome, Aal1);
    if req.actor.Some? { ActorExact(req.actor.value, f.actor); }
    TargetExact(req.target, f.target);
    ContextExact(req.context, f.context);
    DecisionExact(req.decision, f.decision);
  }

  // ----- what is refused, and why ------------------------------------------------------------

  predicate Unwritable(o: Option<Bytes>, max: nat) {
    o.Some? && !BoundedAscii(o.value, max)
  }

  /** Why an actor is refused, if it is; likewise for the other parts. */
  function ActorReason(a: ProtoActor): Option<Bytes> {
    if a.kind !in {"human", "workload", "system"} then Some("actor_kind_inconnu")
    else if a.aal.Some? && a.aal.value !in {"AAL1", "AAL2", "AAL3"} then Some("aal_inconnu")
    else if Unwritable(a.authMethod, 64) then Some(InvalidField("auth_method"))
    else if !BoundedAscii(a.subjectId, 256) then Some(InvalidField("subject_id"))
    else None
  }

  function TargetReason(t: ProtoTarget): Option<Bytes> {
    if BoundedAscii(t.targetType, 256) && BoundedAscii(t.id, 256) then None else Some(InvalidField("text"))
  }

  function ContextReason(c: ProtoContext): Option<Bytes> {
    if Unwritable(c.sourceNetwork, 256) || Unwritable(c.ticketRef, 256) then Some(InvalidField("text"))
    else if Unwritable(c.justification, 512) then Some(InvalidField("context.justification"))
    else None
  }

  function DecisionReason(d: ProtoDecision): Option<Bytes> {
    if |d.decisionHash| != 32 then Some("decision_hash_doit_faire_32_octets")
    else if exists i | 0 <= i < |d.reasons| :: !BoundedAscii(d.reasons[i], 256) then Some(InvalidField("decision.reasons"))
    else if !ValidUuid(d.requestId, false) then Some(InvalidField("decision.request_id"))
    else if !BoundedAscii(d.policyVersion, 256) then Some(InvalidField("decision.policy_version"))
    else if Unwritable(d.signatureKeyId, 256) then Some(InvalidField("text"))
    else None
  }

  function First(a: Option<Bytes>, b: Option<Bytes>): Option<Bytes> {
    if a.Some? then a else b
  }

  function PartsReason(req: SealRequest): Option<Bytes>
    requires req.actor.Some?
  {
    First(ActorReason(req.actor.value),
    First(if req.target.Some? then TargetReason(req.target.value) else None,
    First(if req.context.Some? then ContextReason(req.context.value) else None,
          if req.decision.Some? then DecisionReason(req.decision.value) else None)))
  }

  function EnvelopeReason(req: SealRequest): Option<Bytes>
    requires req.occurredAt.Some?
  {
    if !ValidUuid(req.eventId, true) then Some(InvalidField("event_id"))
    else if req.sequence > 0x1F_FFFF_FFFF_FFFF then Some(InvalidField("sequence"))
    else if !(-62_167_219_200 <= req.occurredAt.value <= 253_402_300_799) then Some(InvalidField("timestamp"))
    else if !BoundedAscii(req.authorityDomain, 128) then Some(InvalidField("authority_domain"))
    else None
  }

  /** The reason why a request is refused, in the order of the checks; none if it passes. */
  ghost function Reason(req: SealRequest): Option<Bytes> {
    if !exists e: EventType :: e.ContractStr() == req.eventType then Some("event_type_inconnu_ou_non_supporte")
    else if req.outcome !in {"success", "denied", "error"} then Some("outcome_inconnu")
    else if |req.prevHash| != 32 then Some("prev_hash_doit_faire_32_octets")
    else if req.occurredAt.None? then Some("occurred_at_absent")
    else if req.actor.None? then Some("actor_absent")
    else First(PartsReason(req), EnvelopeReason(req))
  }

  predicate Refuses<T>(r: Result<T, Bytes>, reason: Option<Bytes>) {
    if r.Ok? then reason.None? else reason == Some(r.error)
  }

  lemma ActorRefuses(a: ProtoActor)
    ensures Refuses(ActorFromProto(a), ActorReason(a))
  {
  }

  lemma PartsRefuse(t: ProtoTarget, c: ProtoContext, d: ProtoDecision)
    ensures Refuses(TargetFromProto(t), TargetReason(t))
    ensures Refuses(ContextFromProto(c), ContextReason(c))
    ensures Refuses(DecisionFromProto(d), DecisionReason(d))
  {
  }

  lemma KnownTypes(s: Bytes)
    ensures EventTypeFromStr(s).Some? <==> exists e: EventType :: e.ContractStr() == s
  {
    var r := EventTypeFromStr(s);
    if r.Some? { StringsExact(s, r.value, Human, Success, Aal1); }
    forall e: EventType | e.ContractStr() == s
      ensures r.Some?
    {
      StringsExact(s, e, Human, Success, Aal1);
    }
  }

  lemma OptionalRefuse(req: SealRequest)
    ensures Refuses(OptTarget(req.target), if req.target.Some? then TargetReason(req.target.value) else None)
    ensures Refuses(OptContext(req.context), if req.context.Some? then ContextReason(req.context.value) else None)
    ensures Refuses(OptDecision(req.decision), if req.decision.Some? then DecisionReason(req.decision.value) else None)
  {
    var t := if req.target.Some? then req.target.value else ProtoTarget("", "");
    var c := if req.context.Some? then req.context.value else ProtoContext(None, None, None);
    var d := if req.decision.Some? then req.decision.value else ProtoDecision("", "", "", [], None, None, None);
    PartsRefuse(t, c, d);
  }

  lemma AssembleRefuses(
    req: SealRequest, eventType: Option<EventType>, outcome: Option<Outcome>, actor: Result<Actor, Bytes>,
    target: Result<Option<Target>, Bytes>, context: Result<Option<Context>, Bytes>,
    decision: Result<Option<Decision>, Bytes>, a: Option<Bytes>, t: Option<Bytes>, c: Option<Bytes>, d: Option<Bytes>)
    requires eventType.Some? && outcome.Some? && |req.prevHash| == 32 && req.occurredAt.Some?
    requires Refuses(actor, a) && Refuses(target, t) && Refuses(context, c) && Refuses(decision, d)
    ensures Refuses(AssembleFields(req, eventType, outcome, actor, target, context, decision),
                    First(First(a, First(t, First(c, d))), EnvelopeReason(req)))
  {
    TimestampAccepts(req.occurredAt.value);
  }

  /** The gate refuses a request exactly for the first reason that there is. */
  lemma GateRefuses(req: SealRequest)
    ensures Refuses(FieldsFromRequest(req), Reason(req))
  {
    var eventType, outcome := EventTypeFromStr(req.eventType), OutcomeFromStr(req.outcome);
    KnownTypes(req.eventType);
    assert outcome.Some? <==> req.outcome in {"success", "denied", "error"};
    if eventType.Some? && outcome.Some? && |req.prevHash| == 32 && req.occurredAt.Some? && req.actor.Some? {
      RestRefuses(req, eventType, outcome);
    }
  }

  lemma RestRefuses(req: SealRequest, eventType: Option<EventType>, outcome: Option<Outcome>)
    requires eventType.Some? && outcome.Some? && |req.prevHash| == 32 && req.occurredAt.Some? && req.actor.Some?
    ensures Refuses(AssembleFields(req, eventType, outcome, ActorFromProto(req.actor.value), OptTarget(req.target),
                                   OptContext(req.context), OptDecision(req.decision)),
                    First(PartsReason(req), EnvelopeReason(req)))
  {
    OptionalRefuse(req);
    ActorRefuses(req.actor.value);
    AssembleRefuses(
      req, eventType, outcome, ActorFromProto(req.actor.value), OptTarget(req.target), OptContext(req.context),
      OptDecision(req.decision), ActorReason(req.actor.value),
      if req.target.Some? then TargetReason(req.target.value) else None,
      if req.context.Some? then ContextReason(req.context.value) else None,
      if req.decision.Some? then DecisionReason(req.decision.value) else None);
  }
}
