/** Authentication requests under every interleaving: consume the challenge, check the
    ceremony, advance the counter, seal the assertion, append its audit event, answer.
    The audit log is the shared one, with all its other writers. */
module Authentication {
  import opened Basics
  import opened Fields
  import opened AuditDocument
  import opened WebAuthn
  import opened IdentityStore
  import AuditStore
  import AuditLog
  import Assertions = IdentityAssertion

  /** The provider's configuration and the services it calls. */
  datatype Provider = Provider(
    log: AuditLog.Services,
    ceremony: (Bytes, Proof, Credential) -> Option<CeremonyClaims>,
    issue: (AuditLog.Device, Assertions.Claims) -> Option<Bytes>,
    stamp: int -> Bytes,
    domain: AuthorityDomain,
    audience: Bytes,
    ttl: int)

  /** A sealed assertion with the claims it carries. */
  datatype Sealed = Sealed(claims: Assertions.Claims, assertion: Bytes)

  datatype Stage = NoHead | HeadKnown | RowSealed

  /** Where a request stands between two steps; `commit` is the rank of its counter
      update among all of them. */
  datatype Phase =
    | Consumed(challenge: Bytes, proof: Proof)
    | Verified(challenge: Bytes, proof: Proof, claims: CeremonyClaims)
    | Advanced(challenge: Bytes, commit: nat, claims: CeremonyClaims)
    | Issued(challenge: Bytes, commit: nat, sealed: Sealed, stage: Stage)

  /** A successful counter update, with the proof and the claims it rests on. */
  datatype Commit = Commit(challenge: Bytes, proof: Proof, claims: CeremonyClaims) {
    function CredentialId(): Bytes { proof.credentialId }

    function Counter(): nat { claims.newSignCount }
  }

  /** An assertion handed to a client. */
  datatype Returned = Returned(challenge: Bytes, commit: nat, sealed: Sealed)

  datatype State = State(
    challenges: Challenges,
    authenticators: Authenticators,
    requests: map<nat, Phase>,
    commits: seq<Commit>,
    returned: seq<Returned>,
    log: AuditLog.State)

  datatype Action =
    | IssueChallenge(challenge: Bytes, row: Challenge)
    | ConsumeOther(challenge: Bytes, kind: Bytes, now: int)
    | Register(credentialId: Bytes, credential: Credential)
    | Revoke(credentialId: Bytes)
    | Consume(r: nat, challenge: Bytes, proof: Proof, now: int)
    | Check(r: nat)
    | AdvanceCounter(r: nat)
    | SealAssertion(r: nat, device: AuditLog.Device, eventId: Bytes, now: int)
    | ReadHead(r: nat)
    | SealEvent(r: nat, device: AuditLog.Device, now: int)
    | Append(r: nat)
    | Abort(r: nat)
    | OtherWriter(a: AuditLog.Action)

  const Initial: State := State(map[], map[], map[], [], [], AuditLog.Initial)

  // ----- what is sealed --------------------------------------------------------------------

  /** The claims of an assertion issued at `now`; any part that is not valid is an internal
      error and ends the request. */
  function ClaimsFor(p: Provider, claims: CeremonyClaims, eventId: Bytes, now: int): Option<Assertions.Claims> {
    if !BoundedAscii(claims.subjectId, 256) || !BoundedAscii(claims.authMethod, 64) || !BoundedAscii(p.audience, 256)
       || !ValidTimestamp(p.stamp(now)) || !ValidTimestamp(p.stamp(now + p.ttl)) || !ValidUuid(eventId, true)
    then None
    else Some(Assertions.Claims(p.domain, claims.subjectId, if claims.aal2 then Aal2 else Aal1, claims.authMethod,
                                p.audience, p.stamp(now), p.stamp(now + p.ttl), eventId))
  }

  /** The digest in hexadecimal: 64 characters, so always a short text (see below). */
  function DigestText(p: Provider, assertion: Bytes): ShortText {
    var text := HexEncode(p.log.sha256(assertion));
    if BoundedAscii(text, 256) then text else "-"
  }

  lemma DigestTextIsDigest(p: Provider, assertion: Bytes)
    ensures DigestText(p, assertion) == HexEncode(p.log.sha256(assertion))
  {
    HexIsAscii(p.log.sha256(assertion));
  }

  const TARGET_TYPE: ShortText := "identity_assertion"

  function SuccessTarget(p: Provider, assertion: Bytes): Target {
    Target(TARGET_TYPE, DigestText(p, assertion))
  }

  /** The audit event that covers an assertion: same event id, same subject, and the digest
      of the assertion as target. Sequence and previous hash are only placeholders, filled
      in from the chain head. */
  function SuccessEvent(p: Provider, s: Sealed, occurredAt: Timestamp): EventFields {
    EventFields(s.claims.auditEventId, 0, p.log.sha256(s.assertion), occurredAt, p.domain, AuthenticationSucceeded,
                Actor(s.claims.subjectId, Human, None, None), Some(SuccessTarget(p, s.assertion)),
                Success, None, None)
  }

  // ----- steps -----------------------------------------------------------------------------

  function Leave(s: State, r: nat): State {
    s.(requests := s.requests - {r})
  }

  function Enter(s: State, r: nat, phase: Phase): State {
    s.(requests := s.requests[r := phase])
  }

  function CheckStep(p: Provider, s: State, r: nat, phase: Phase): State
    requires phase.Consumed?
  {
    var id := phase.proof.credentialId;
    if id !in s.authenticators then Leave(s, r)
    else
      match p.ceremony(phase.challenge, phase.proof, s.authenticators[id])
      case None => Leave(s, r)
      case Some(claims) => Enter(s, r, Verified(phase.challenge, phase.proof, claims))
  }

  function AdvanceStep(s: State, r: nat, phase: Phase): State
    requires phase.Verified?
  {
    var id, counter := phase.proof.credentialId, phase.claims.newSignCount;
    if !Advances(s.authenticators, id, counter) then Leave(s, r)
    else
      Enter(s, r, Advanced(phase.challenge, |s.commits|, phase.claims)).(
        authenticators := Advance(s.authenticators, id, counter),
        commits := s.commits + [Commit(phase.challenge, phase.proof, phase.claims)])
  }

  function SealStep(p: Provider, s: State, r: nat, phase: Phase, device: AuditLog.Device, eventId: Bytes, now: int): State
    requires phase.Advanced?
  {
    match ClaimsFor(p, phase.claims, eventId, now)
    case None => Leave(s, r)
    case Some(claims) =>
      match p.issue(device, claims)
      case None => Leave(s, r)
      case Some(assertion) =>
        Enter(s, r, Issued(phase.challenge, phase.commit, Sealed(claims, assertion), NoHead))
  }

  function EventStep(p: Provider, s: State, r: nat, phase: Phase, device: AuditLog.Device, now: int): State
    requires phase.Issued?
  {
    if !ValidTimestamp(p.stamp(now)) then Leave(s, r)
    else
      var log := AuditLog.Apply(p.log, s.log, AuditLog.SealFields(r, SuccessEvent(p, phase.sealed, p.stamp(now)), device));
      var after := s.(log := log);
      if AuditLog.PhaseOf(log, r).Ready? then Enter(after, r, phase.(stage := RowSealed)) else Leave(after, r)
  }

  function AppendStep(p: Provider, s: State, r: nat, phase: Phase): State
    requires phase.Issued?
  {
    var ready := AuditLog.PhaseOf(s.log, r);
    var after := Leave(s, r).(log := AuditLog.Apply(p.log, s.log, AuditLog.Insert(r)));
    if ready.Ready? && !AuditStore.Conflicts(s.log.table, ready.row)
    then after.(returned := s.returned + [Returned(phase.challenge, phase.commit, phase.sealed)])
    else after
  }

  /** A step of one request, given where it stands. */
  function RequestStep(p: Provider, s: State, a: Action, phase: Phase): State {
    match a
    case Check(r) => if phase.Consumed? then CheckStep(p, s, r, phase) else s
    case AdvanceCounter(r) => if phase.Verified? then AdvanceStep(s, r, phase) else s
    case SealAssertion(r, device, eventId, now) =>
      if phase.Advanced? then SealStep(p, s, r, phase, device, eventId, now) else s
    case ReadHead(r) =>
      if phase.Issued? && phase.stage.NoHead?
      then Enter(s, r, phase.(stage := HeadKnown)).(
             log := AuditLog.Apply(p.log, s.log, AuditLog.ReadHeadHashed(r, p.domain)))
      else s
    case SealEvent(r, device, now) =>
      if phase.Issued? && phase.stage.HeadKnown? then EventStep(p, s, r, phase, device, now) else s
    case Append(r) => if phase.Issued? && phase.stage.RowSealed? then AppendStep(p, s, r, phase) else s
    case Abort(r) => Leave(s, r)
    case _ => s
  }

  predicate OfRequest(a: Action) {
    a.Check? || a.AdvanceCounter? || a.SealAssertion? || a.ReadHead? || a.SealEvent? || a.Append? || a.Abort?
  }

  /** One step of the whole system. A step that does not fit changes nothing; the other
      writers of the log never write under the name of a request in progress. */
  function Apply(p: Provider, s: State, a: Action): State {
    match a
    case IssueChallenge(challenge, row) =>
      if challenge in s.challenges then s else s.(challenges := s.challenges[challenge := row])
    case ConsumeOther(challenge, kind, now) =>
      if Consumable(s.challenges, challenge, kind, now) && kind != AUTHENTICATION
      then s.(challenges := MarkUsed(s.challenges, challenge)) else s
    case Register(id, credential) =>
      if id in s.authenticators then s else s.(authenticators := s.authenticators[id := credential])
    case Revoke(id) =>
      if id !in s.authenticators then s
      else s.(authenticators := s.authenticators[id := s.authenticators[id].(revoked := true)])
    case Consume(r, challenge, proof, now) =>
      if r in s.requests || !Consumable(s.challenges, challenge, AUTHENTICATION, now) then s
      else Enter(s, r, Consumed(challenge, proof)).(challenges := MarkUsed(s.challenges, challenge))
    case OtherWriter(x) =>
      if x.w in s.requests then s else s.(log := AuditLog.Apply(p.log, s.log, x))
    case _ => if a.r in s.requests then RequestStep(p, s, a, s.requests[a.r]) else s
  }

  function Run(p: Provider, s: State, actions: seq<Action>): State {
    if actions == [] then s
    else Apply(p, Run(p, s, actions[..|actions| - 1]), actions[|actions| - 1])
  }
}
