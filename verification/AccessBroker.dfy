/** From an access request to a lease: authenticate the requester, verify the approvals,
    ask the policy engine, have the credential issued. */
module AccessBroker {
  import opened Basics
  import opened PolicyEngine
  import opened Quorum
  import opened Emission

  const MAX_JUSTIFICATION_LENGTH: int := 512

  /** The identity service's answer about an assertion, for an expected authority domain. */
  type Identity = (Bytes, Bytes) -> Answer

  datatype RawApproval = RawApproval(assertion: Bytes, approvedAt: int)

  /** An approval as the policy engine sees it; the time is declared, not verified. */
  datatype Approval = Approval(approverId: Bytes, approvedAt: int, signature: Bytes)

  datatype AuthLevel = Unspecified | Level1 | Level2 | Level3

  datatype Principal = Principal(
    subjectId: Bytes,
    aal: Bytes,
    authMethod: Bytes,
    authenticatedAt: int,
    roles: seq<Bytes>,
    authorityDomain: Bytes)

  datatype Resource = Resource(resourceType: Bytes, id: Bytes, authorityDomain: Bytes, attributes: map<Bytes, Bytes>)

  /** Declared by the requester, not verified. */
  datatype Posture = Posture(managed: bool, diskEncrypted: bool, agentVersion: Bytes, evaluatedAt: int)

  datatype AccessRequest = AccessRequest(
    requestId: Bytes,
    principal: Principal,
    verb: Bytes,
    resource: Resource,
    sourceNetwork: Bytes,
    posture: Posture,
    ticketRef: Bytes,
    justification: Bytes,
    approvals: seq<RawApproval>,
    expectedAuthorityDomain: Bytes)

  datatype DecisionRequest = DecisionRequest(
    requestId: Bytes,
    principal: Principal,
    level: AuthLevel,
    verb: Bytes,
    resource: Resource,
    requestedAt: int,
    sourceNetwork: Bytes,
    posture: Posture,
    ticketRef: Bytes,
    justification: Bytes,
    approvals: seq<Approval>)

  datatype Decision =
    | TransportFailure
    | NotDecided(reason: Bytes)
    | Decided(signed: DecisionResponse)
  {
    predicate Allows() { Decided? && signed.effect == EFFECT_ALLOW }
  }

  function AuthLevelFromString(s: Bytes): AuthLevel {
    if s == "AAL1" then Level1 else if s == "AAL2" then Level2 else if s == "AAL3" then Level3 else Unspecified
  }

  /** Only the three texts mean a level; everything else is unspecified. */
  lemma AuthLevelExact(s: Bytes)
    ensures AuthLevelFromString(s) == Level1 <==> s == "AAL1"
    ensures AuthLevelFromString(s) == Level2 <==> s == "AAL2"
    ensures AuthLevelFromString(s) == Level3 <==> s == "AAL3"
    ensures AuthLevelFromString(s) == Unspecified <==> s !in {"AAL1", "AAL2", "AAL3"}
  {
    assert "AAL1"[3] == '1' && "AAL2"[3] == '2' && "AAL3"[3] == '3';
  }

  // ----- approvals ---------------------------------------------------------------------------

  function ToApproval(check: Bytes -> Answer, raw: RawApproval): Approval
    requires check(raw.assertion).Valid?
  {
    Approval(check(raw.assertion).subject, raw.approvedAt, raw.assertion)
  }

  /** The approvals whose assertion verifies, in their order. */
  function VerifiedApprovals(check: Bytes -> Answer, raws: seq<RawApproval>): seq<Approval> {
    if raws == [] then []
    else
      var n := |raws| - 1;
      var front := VerifiedApprovals(check, raws[..n]);
      if check(raws[n].assertion).Valid? then front + [ToApproval(check, raws[n])] else front
  }

  predicate Backed(check: Bytes -> Answer, raws: seq<RawApproval>, a: Approval) {
    exists i | 0 <= i < |raws| :: check(raws[i].assertion).Valid? && a == ToApproval(check, raws[i])
  }

  /** Exactly the approvals backed by a valid assertion are passed on. */
  lemma {:induction false} VerifiedApprovalsExact(check: Bytes -> Answer, raws: seq<RawApproval>)
    ensures forall a :: a in VerifiedApprovals(check, raws) <==> Backed(check, raws, a)
  {
    if raws != [] {
      var n := |raws| - 1;
      VerifiedApprovalsExact(check, raws[..n]);
      forall a
        ensures a in VerifiedApprovals(check, raws) <==> Backed(check, raws, a)
      {
        BackedStep(check, raws, a);
      }
    }
  }

  /** And in their order, each as often as it was presented: the verified approvals of two
      lists are those of the one followed by those of the other. */
  lemma {:induction false} VerifiedApprovalsConcat(check: Bytes -> Answer, a: seq<RawApproval>, b: seq<RawApproval>)
    ensures VerifiedApprovals(check, a + b) == VerifiedApprovals(check, a) + VerifiedApprovals(check, b)
  {
    if b == [] {
      assert a + b == a;
    } else {
      var n := |b| - 1;
      assert (a + b)[..|a| + n] == a + b[..n];
      VerifiedApprovalsConcat(check, a, b[..n]);
    }
  }

  /** A single one is passed on exactly if it verifies: under the name of its subject, at the
      declared time, with its assertion. */
  lemma OneApproval(check: Bytes -> Answer, raw: RawApproval)
    ensures VerifiedApprovals(check, [raw]) ==
      match check(raw.assertion)
      case Valid(subject, _, _) => [Approval(subject, raw.approvedAt, raw.assertion)]
      case _ => []
  {
    assert [raw][..0] == [];
  }

  lemma BackedStep(check: Bytes -> Answer, raws: seq<RawApproval>, a: Approval)
    requires raws != []
    ensures
      var n := |raws| - 1;
      Backed(check, raws, a) <==>
        Backed(check, raws[..n], a) || (check(raws[n].assertion).Valid? && a == ToApproval(check, raws[n]))
  {
    var n := |raws| - 1;
    if Backed(check, raws[..n], a) {
      var i :| 0 <= i < n && check(raws[..n][i].assertion).Valid? && a == ToApproval(check, raws[..n][i]);
      assert raws[i] == raws[..n][i];
    }
    if Backed(check, raws, a) {
      var i :| 0 <= i < |raws| && check(raws[i].assertion).Valid? && a == ToApproval(check, raws[i]);
      if i < n { assert raws[..n][i] == raws[i]; }
    }
  }

  predicate AllAnswered(check: Bytes -> Answer, raws: seq<RawApproval>) {
    forall i | 0 <= i < |raws| :: !check(raws[i].assertion).Unavailable?
  }

  // ----- asking the policy engine --------------------------------------------------------------

  predicate WellFormed(req: AccessRequest) {
    && |req.justification| <= MAX_JUSTIFICATION_LENGTH
    && req.principal.subjectId != "" && req.resource.resourceType != "" && req.verb != ""
  }

  /** How the assertions of a request are checked: all for the domain it names. */
  function CheckIn(identity: Identity, domain: Bytes): Bytes -> Answer {
    assertion => identity(assertion, domain)
  }

  /** What the policy engine is asked, if it is asked at all: the request as it was made, the
      broker's own clock, and the verified approvals. */
  function Question(identity: Identity, req: AccessRequest, now: int): Option<DecisionRequest> {
    var check := CheckIn(identity, req.expectedAuthorityDomain);
    var verified := VerifiedApprovals(check, req.approvals);
    if !WellFormed(req) || !AllAnswered(check, req.approvals) || verified == [] then None
    else Some(DecisionRequest(
      req.requestId, req.principal, AuthLevelFromString(req.principal.aal), req.verb, req.resource, now,
      req.sourceNetwork, req.posture, req.ticketRef, req.justification, verified))
  }

  /** The policy engine is consulted exactly when the request is well formed, every
      approval got an answer and at least one of them verifies; it is then shown the
      verified approvals and no others. `asked` are the calls made to it. */
  method Decide(identity: Identity, pdp: DecisionRequest -> Option<DecisionResponse>, req: AccessRequest, now: int)
    returns (d: Decision, asked: Option<DecisionRequest>)
    ensures asked == Question(identity, req, now)
    ensures asked.Some? ==>
      d == (if pdp(asked.value).Some? then Decided(pdp(asked.value).value) else TransportFailure)
    ensures asked.None? ==>
      if |req.justification| > 512 then d == NotDecided("justification_trop_longue")
      else if req.principal.subjectId == "" || req.resource.resourceType == "" || req.verb == "" then
        d == NotDecided("champ_requis_absent")
      else if EveryoneAnswered(identity, req.expectedAuthorityDomain, req.approvals) then
        d == NotDecided("approbation_verifiee_absente")
      else d == TransportFailure
  {
    asked := None;
    if |req.justification| > MAX_JUSTIFICATION_LENGTH { return NotDecided("justification_trop_longue"), asked; }
    if req.principal.subjectId == "" || req.resource.resourceType == "" || req.verb == "" {
      return NotDecided("champ_requis_absent"), asked;
    }
    ghost var check := CheckIn(identity, req.expectedAuthorityDomain);
    var verified: seq<Approval> := [];
    for i := 0 to |req.approvals|
      invariant verified == VerifiedApprovals(check, req.approvals[..i])
      invariant AllAnswered(check, req.approvals[..i])
    {
      assert req.approvals[..i + 1][..i] == req.approvals[..i];
      var raw := req.approvals[i];
      var answer := identity(raw.assertion, req.expectedAuthorityDomain);
      if answer.Unavailable? { return TransportFailure, asked; }
      if answer.Valid? { verified := verified + [Approval(answer.subject, raw.approvedAt, raw.assertion)]; }
    }
    assert req.approvals[..|req.approvals|] == req.approvals;
    if verified == [] { return NotDecided("approbation_verifiee_absente"), asked; }
    var question := DecisionRequest(
      req.requestId, req.principal, AuthLevelFromString(req.principal.aal), req.verb, req.resource, now,
      req.sourceNetwork, req.posture, req.ticketRef, req.justification, verified);
    asked := Some(question);
    var answer := pdp(question);
    if answer.None? { return TransportFailure, asked; }
    d := Decided(answer.value);
  }

  // ----- the handler -------------------------------------------------------------------------

  datatype PostureBody = PostureBody(
    managed: Option<bool>, diskEncrypted: Option<bool>, agentVersion: Option<Bytes>, evaluatedAt: Option<int>)

  datatype Body = Body(
    verb: Bytes,
    resource: Resource,
    ticketRef: Bytes,
    justification: Bytes,
    expectedAuthorityDomain: Bytes,
    sourceNetwork: Option<Bytes>,
    posture: Option<PostureBody>,
    approvals: Option<seq<RawApproval>>)

  datatype Response =
    | HttpError(status: int, reason: Bytes)
    | Answered(allowed: bool, leaseId: Option<Bytes>)

  const NO_POSTURE: Posture := Posture(false, false, "", 0)

  function OrElse<T>(o: Option<T>, fallback: T): T {
    if o.Some? then o.value else fallback
  }

  /** A part that is not declared is the weakest. */
  function PostureFrom(p: PostureBody): Posture {
    Posture(OrElse(p.managed, NO_POSTURE.managed), OrElse(p.diskEncrypted, NO_POSTURE.diskEncrypted),
            OrElse(p.agentVersion, NO_POSTURE.agentVersion), OrElse(p.evaluatedAt, NO_POSTURE.evaluatedAt))
  }

  /** The request made for a requester whose assertion is valid: who asks comes from the
      assertion and the clock, never from the body. */
  function RequestFor(requester: Answer, body: Body, requestId: Bytes, now: int): AccessRequest
    requires requester.Valid?
  {
    AccessRequest(
      requestId,
      Principal(requester.subject, requester.aal, requester.authMethod, now, [], body.expectedAuthorityDomain),
      body.verb, body.resource, OrElse(body.sourceNetwork, ""),
      if body.posture.Some? then PostureFrom(body.posture.value) else NO_POSTURE,
      body.ticketRef, body.justification, OrElse(body.approvals, []), body.expectedAuthorityDomain)
  }

  function OrderFor(body: Body, signed: DecisionResponse): Order {
    Order(body.verb, body.resource.id, Some(signed))
  }

  /** The question is about this requester, at the level the assertion shows, and for what
      the body asks; what the body does not declare is empty, or the weakest posture. */
  predicate AsksFor(requester: Answer, body: Body, requestId: Bytes, now: int, asked: DecisionRequest)
    requires requester.Valid?
  {
    && asked.requestId == requestId && asked.requestedAt == now
    && asked.principal == Principal(requester.subject, requester.aal, requester.authMethod, now, [], body.expectedAuthorityDomain)
    && (asked.level == Level1 <==> requester.aal == "AAL1")
    && (asked.level == Level2 <==> requester.aal == "AAL2")
    && (asked.level == Level3 <==> requester.aal == "AAL3")
    && asked.verb == body.verb && asked.resource == body.resource
    && asked.ticketRef == body.ticketRef && asked.justification == body.justification && |body.justification| <= 512
    && asked.sourceNetwork == (if body.sourceNetwork.Some? then body.sourceNetwork.value else "")
    && (asked.posture.managed <==> body.posture.Some? && body.posture.value.managed == Some(true))
    && (asked.posture.diskEncrypted <==> body.posture.Some? && body.posture.value.diskEncrypted == Some(true))
    && (body.posture.Some? && body.posture.value.agentVersion.Some? ==>
          asked.posture.agentVersion == body.posture.value.agentVersion.value)
    && (body.posture.None? || body.posture.value.agentVersion.None? ==> asked.posture.agentVersion == "")
    && (body.posture.Some? && body.posture.value.evaluatedAt.Some? ==>
          asked.posture.evaluatedAt == body.posture.value.evaluatedAt.value)
    && (body.posture.None? || body.posture.value.evaluatedAt.None? ==> asked.posture.evaluatedAt == 0)
  }

  /** What a lease identifier given out by the broker stands for: a requester whose assertion
      is valid, a question asked for that very requester with at least one approval, each
      backed by a valid assertion, and the decision that answers it with an ALLOW. */
  ghost predicate Earned(identity: Identity, assertion: Bytes, body: Body, requestId: Bytes, now: int,
                         asked: DecisionRequest, signed: DecisionResponse) {
    var requester := identity(assertion, body.expectedAuthorityDomain);
    && requester.Valid?
    && AsksFor(requester, body, requestId, now, asked)
    && asked.approvals != []
    && (forall a | a in asked.approvals ::
          Backed(CheckIn(identity, body.expectedAuthorityDomain), OrElse(body.approvals, []), a))
    && signed.effect == 1
  }

  lemma QuestionEarns(identity: Identity, assertion: Bytes, body: Body, requestId: Bytes, now: int,
                      asked: DecisionRequest, signed: DecisionResponse)
    requires identity(assertion, body.expectedAuthorityDomain).Valid? && signed.effect == EFFECT_ALLOW
    requires
      Question(identity, RequestFor(identity(assertion, body.expectedAuthorityDomain), body, requestId, now), now) == Some(asked)
    ensures Earned(identity, assertion, body, requestId, now, asked, signed)
  {
    VerifiedApprovalsExact(CheckIn(identity, body.expectedAuthorityDomain), OrElse(body.approvals, []));
    AuthLevelExact(identity(assertion, body.expectedAuthorityDomain).aal);
  }

  /** The request can be put to the policy engine: it is well formed, every approval got an
      answer and one of them verifies. */
  predicate CanAsk(identity: Identity, requester: Answer, body: Body)
    requires requester.Valid?
  {
    && Complete(requester, body)
    && EveryoneAnswered(identity, body.expectedAuthorityDomain, ApprovalsOf(body))
    && SomeoneApproves(identity, body.expectedAuthorityDomain, ApprovalsOf(body))
  }

  /** What a request must say, and how long its justification may be. */
  predicate Complete(requester: Answer, body: Body)
    requires requester.Valid?
  {
    |body.justification| <= 512 && requester.subject != "" && body.resource.resourceType != "" && body.verb != ""
  }

  function ApprovalsOf(body: Body): seq<RawApproval> {
    if body.approvals.Some? then body.approvals.value else []
  }

  predicate EveryoneAnswered(identity: Identity, domain: Bytes, raws: seq<RawApproval>) {
    forall i | 0 <= i < |raws| :: !identity(raws[i].assertion, domain).Unavailable?
  }

  predicate SomeoneApproves(identity: Identity, domain: Bytes, raws: seq<RawApproval>) {
    exists i | 0 <= i < |raws| :: identity(raws[i].assertion, domain).Valid?
  }

  lemma CanAskExact(identity: Identity, requester: Answer, body: Body, requestId: Bytes, now: int)
    requires requester.Valid?
    ensures Question(identity, RequestFor(requester, body, requestId, now), now).Some? <==> CanAsk(identity, requester, body)
  {
    ApprovalsExact(identity, body.expectedAuthorityDomain, ApprovalsOf(body));
  }

  lemma ApprovalsExact(identity: Identity, domain: Bytes, raws: seq<RawApproval>)
    ensures AllAnswered(CheckIn(identity, domain), raws) <==> EveryoneAnswered(identity, domain, raws)
    ensures VerifiedApprovals(CheckIn(identity, domain), raws) != [] <==> SomeoneApproves(identity, domain, raws)
  {
    var check := CheckIn(identity, domain);
    assert forall i | 0 <= i < |raws| :: check(raws[i].assertion) == identity(raws[i].assertion, domain);
    VerifiedApprovalsExact(check, raws);
    var verified := VerifiedApprovals(check, raws);
    if verified != [] {
      assert Backed(check, raws, verified[0]);
    }
    if SomeoneApproves(identity, domain, raws) {
      var i :| 0 <= i < |raws| && identity(raws[i].assertion, domain).Valid?;
      assert check(raws[i].assertion).Valid?;
      assert Backed(check, raws, ToApproval(check, raws[i]));
    }
  }

  /** A lease identifier is returned only when it is earned, for a decision that verifies
      and was not used before; and then it is the lease that this decision asked for. */
  method CreateAccessRequest(
    identity: Identity, pdp: DecisionRequest -> Option<DecisionResponse>, verify: Verifier,
    issueLease: (Bytes, int) -> Option<Bytes>, issuer: Issuer, assertion: Bytes, requestId: Bytes, body: Body, now: int)
    returns (r: Response, asked: Option<DecisionRequest>)
    requires issuer.Valid()
    modifies issuer, issuer.store
    ensures issuer.Valid()
    ensures r.Answered? && r.leaseId.Some? ==>
      && asked.Some? && pdp(asked.value).Some?
      && Earned(identity, assertion, body, requestId, now, asked.value, pdp(asked.value).value)
      && pdp(asked.value).value.decisionHash !in old(issuer.store.consumed)
      && |issuer.requests| == |old(issuer.requests)| + 1
      && var made := issuer.requests[|old(issuer.requests)|];
      && made.decision == pdp(asked.value).value && Justified(verify, made)
      && made.path == "database/creds/" + body.resource.id
      && issueLease(made.path, made.ttlSeconds) == r.leaseId
    ensures
      var requester := identity(assertion, body.expectedAuthorityDomain);
      && (requester.Unavailable? ==> r == HttpError(502, "verification_du_demandeur_indisponible"))
      && (requester.Refused? ==> r == HttpError(401, "assertion_du_demandeur_invalide"))
      && (requester.Valid? ==> (asked.Some? <==> CanAsk(identity, requester, body)))
      && (!requester.Valid? ==> asked.None?)
      && (asked.Some? && pdp(asked.value).None? ==> r == HttpError(502, "echec_de_transport"))
      && (asked.Some? && pdp(asked.value).Some? ==> r.Answered? && (r.allowed <==> pdp(asked.value).value.effect == 1))
      && (requester.Valid? && asked.None? ==>
            r == if Complete(requester, body) && !EveryoneAnswered(identity, body.expectedAuthorityDomain, ApprovalsOf(body))
                 then HttpError(502, "echec_de_transport") else Answered(false, None))
    ensures !(r.Answered? && r.allowed) ==> issuer.requests == old(issuer.requests)
    ensures r.Answered? && r.allowed ==>
      && asked.Some? && pdp(asked.value).Some? && pdp(asked.value).value.effect == EFFECT_ALLOW
      && var signed := pdp(asked.value).value;
      && (r.leaseId.Some? <==>
            && verify(signed) == Some(Verdict.Valid) && signed.decisionHash !in old(issuer.store.consumed)
            && body.verb == "db.connect"
            && issueLease("database/creds/" + body.resource.id,
                          if signed.maxTtl.None? then 0 else signed.maxTtl.value.seconds).Some?)
  {
    asked := None;
    var requester := identity(assertion, body.expectedAuthorityDomain);
    if requester.Unavailable? { return HttpError(502, "verification_du_demandeur_indisponible"), asked; }
    if !requester.Valid? { return HttpError(401, "assertion_du_demandeur_invalide"), asked; }
    var req := RequestFor(requester, body, requestId, now);
    CanAskExact(identity, requester, body, requestId, now);
    var decision;
    decision, asked := Decide(identity, pdp, req, now);
    if decision.TransportFailure? { return HttpError(502, "echec_de_transport"), asked; }
    if !decision.Allows() { return Answered(false, None), asked; }
    QuestionEarns(identity, assertion, body, requestId, now, asked.value, decision.signed);
    var emission := issuer.Emit(verify, issueLease, OrderFor(body, decision.signed));
    r := Answered(true, if emission.Allowed? then Some(emission.leaseId) else None);
  }
}
