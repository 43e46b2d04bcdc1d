/** One authentication request that no other step disturbs: exactly when it is answered with
    an assertion, and with which. */
module Logins {
  import opened Basics
  import opened Fields
  import opened AuditDocument
  import opened WebAuthn
  import opened IdentityStore
  import opened Authentication
  import opened ProviderWrites
  import AuditLog
  import AuditStore
  import Assertions = IdentityAssertion

  /** What the client sends, and what the clock, the devices and the generator of event
      identifiers say on the way. */
  datatype Login = Login(
    challenge: Bytes,
    proof: Proof,
    arrivedAt: int,
    assertionDevice: AuditLog.Device,
    eventId: Bytes,
    issuedAt: int,
    auditDevice: AuditLog.Device,
    recordedAt: int)

  // ----- the conditions, one for each step -----------------------------------------------------

  /** The challenge was issued for an authentication, is unused and has not expired. */
  predicate Fresh(s: State, x: Login) {
    && x.challenge in s.challenges
    && s.challenges[x.challenge].kind == "authentication"
    && !s.challenges[x.challenge].used
    && x.arrivedAt < s.challenges[x.challenge].expiresAt
  }

  predicate Proves(p: Provider, s: State, x: Login) {
    && x.proof.credentialId in s.authenticators
    && p.ceremony(x.challenge, x.proof, s.authenticators[x.proof.credentialId]).Some?
  }

  function ProvedClaims(p: Provider, s: State, x: Login): CeremonyClaims
    requires Proves(p, s, x)
  {
    p.ceremony(x.challenge, x.proof, s.authenticators[x.proof.credentialId]).value
  }

  predicate Counts(p: Provider, s: State, x: Login) {
    Proves(p, s, x) && s.authenticators[x.proof.credentialId].signCount < ProvedClaims(p, s, x).newSignCount
  }

  /** Every text of the claims can be written. */
  predicate Writable(p: Provider, claims: CeremonyClaims, x: Login) {
    && BoundedAscii(claims.subjectId, 256) && BoundedAscii(claims.authMethod, 64) && BoundedAscii(p.audience, 256)
    && ValidTimestamp(p.stamp(x.issuedAt)) && ValidTimestamp(p.stamp(x.issuedAt + p.ttl)) && ValidUuid(x.eventId, true)
  }

  /** The claims of the assertion. */
  function ClaimsOf(p: Provider, claims: CeremonyClaims, x: Login): Assertions.Claims
    requires Writable(p, claims, x)
  {
    Assertions.Claims(p.domain, claims.subjectId, if claims.aal2 then Aal2 else Aal1, claims.authMethod, p.audience,
                      p.stamp(x.issuedAt), p.stamp(x.issuedAt + p.ttl), x.eventId)
  }

  predicate Issues(p: Provider, claims: CeremonyClaims, x: Login) {
    Writable(p, claims, x) && p.issue(x.assertionDevice, ClaimsOf(p, claims, x)).Some?
  }

  function AssertionOf(p: Provider, claims: CeremonyClaims, x: Login): Sealed
    requires Issues(p, claims, x)
  {
    Sealed(ClaimsOf(p, claims, x), p.issue(x.assertionDevice, ClaimsOf(p, claims, x)).value)
  }

  /** The covering event, in the texts of the contract: the human who authenticated, and the
      digest of the assertion as its target. */
  lemma EventSays(p: Provider, sealed: Sealed, occurredAt: Timestamp)
    ensures
      var f := SuccessEvent(p, sealed, occurredAt);
      && f.eventId == sealed.claims.auditEventId && f.occurredAt == occurredAt
      && f.eventType.ContractStr() == "authentication.succeeded" && f.outcome.ContractStr() == "success"
      && f.actor.subjectId == sealed.claims.subjectId && f.actor.kind.ContractStr() == "human"
      && f.actor.aal.None? && f.actor.authMethod.None? && f.context.None? && f.decision.None?
      && f.target.Some? && f.target.value.targetType == "identity_assertion"
      && f.target.value.id == HexEncode(p.log.sha256(sealed.assertion))
  {
    DigestTextIsDigest(p, sealed.assertion);
  }

  /** The covering event can be stamped and written behind the domain's last one. */
  predicate Records(p: Provider, s: State, sealed: Sealed, x: Login) {
    && ValidTimestamp(p.stamp(x.recordedAt))
    && Writes(p.log, s.log.table, p.domain, SuccessEvent(p, sealed, p.stamp(x.recordedAt)), x.auditDevice)
  }

  predicate Succeeds(p: Provider, s: State, x: Login) {
    && Fresh(s, x) && Counts(p, s, x)
    && Issues(p, ProvedClaims(p, s, x), x)
    && Records(p, s, AssertionOf(p, ProvedClaims(p, s, x), x), x)
  }

  // ----- what goes before ------------------------------------------------------------------------

  /** A challenge that was just issued for an authentication is fresh until it expires. */
  lemma IssuedIsFresh(p: Provider, s: State, x: Login, row: Challenge)
    requires x.challenge !in s.challenges && row.kind == "authentication" && !row.used
    ensures Fresh(Apply(p, s, IssueChallenge(x.challenge, row)), x) <==> x.arrivedAt < row.expiresAt
  {
  }

  /** A challenge is never issued twice, nor an authenticator registered twice. */
  lemma FirstStays(p: Provider, s: State, challenge: Bytes, row: Challenge, id: Bytes, credential: Credential)
    ensures challenge in s.challenges ==> Apply(p, s, IssueChallenge(challenge, row)) == s
    ensures id in s.authenticators ==> Apply(p, s, Register(id, credential)) == s
  {
  }

  lemma RegisteredIsKnown(p: Provider, s: State, id: Bytes, credential: Credential)
    requires id !in s.authenticators
    ensures Apply(p, s, Register(id, credential)) == s.(authenticators := s.authenticators[id := credential])
  {
  }

  /** A challenge of another kind, a registration's say, is spent in the same way and only by
      its own kind. */
  lemma SpentElsewhere(p: Provider, s: State, challenge: Bytes, kind: Bytes, now: int)
    requires kind != "authentication" && challenge in s.challenges
    ensures
      var row := s.challenges[challenge];
      Apply(p, s, ConsumeOther(challenge, kind, now)) ==
        if row.kind == kind && !row.used && now < row.expiresAt
        then s.(challenges := s.challenges[challenge := row.(used := true)]) else s
  {
  }

  /** The other writers of the log go on as they would without the requests. */
  lemma OthersGoOn(p: Provider, s: State, a: AuditLog.Action)
    requires a.w !in s.requests
    ensures Apply(p, s, OtherWriter(a)) == s.(log := AuditLog.Apply(p.log, s.log, a))
  {
  }

  /** A request may end anywhere: what it did before stays done. */
  lemma AbortExact(p: Provider, s: State, r: nat)
    ensures
      var t := Apply(p, s, Abort(r));
      && r !in t.requests
      && (forall q | q != r :: (q in t.requests <==> q in s.requests) && (q in s.requests ==> t.requests[q] == s.requests[q]))
      && t.challenges == s.challenges && t.authenticators == s.authenticators
      && t.commits == s.commits && t.returned == s.returned && t.log == s.log
  {
  }

  // ----- the steps -------------------------------------------------------------------------------

  function AfterProof(p: Provider, s: State, r: nat, x: Login): State {
    Apply(p, Apply(p, Apply(p, s, Consume(r, x.challenge, x.proof, x.arrivedAt)), Check(r)), AdvanceCounter(r))
  }

  function AfterIssue(p: Provider, s: State, r: nat, x: Login): State {
    Apply(p, s, SealAssertion(r, x.assertionDevice, x.eventId, x.issuedAt))
  }

  function AfterRecord(p: Provider, s: State, r: nat, x: Login): State {
    Apply(p, Apply(p, Apply(p, s, ReadHead(r)), SealEvent(r, x.auditDevice, x.recordedAt)), Append(r))
  }

  function Actions(r: nat, x: Login): seq<Action> {
    [] + [Consume(r, x.challenge, x.proof, x.arrivedAt)] + [Check(r)] + [AdvanceCounter(r)]
    + [SealAssertion(r, x.assertionDevice, x.eventId, x.issuedAt)]
    + [ReadHead(r)] + [SealEvent(r, x.auditDevice, x.recordedAt)] + [Append(r)]
  }

  /** The request has ended, and no answer was given. */
  predicate Ended(s: State, t: State, r: nat) {
    r !in t.requests && t.returned == s.returned && t.log.table == s.log.table
  }

  lemma ConsumeExact(p: Provider, s: State, r: nat, x: Login)
    requires r !in s.requests
    ensures
      var t := Apply(p, s, Consume(r, x.challenge, x.proof, x.arrivedAt));
      && (!Fresh(s, x) ==> t == s)
      && (Fresh(s, x) ==>
            && r in t.requests && t.requests[r] == Consumed(x.challenge, x.proof)
            && t.authenticators == s.authenticators && t.commits == s.commits && t.returned == s.returned && t.log == s.log
            && t.challenges == s.challenges[x.challenge := s.challenges[x.challenge].(used := true)])
  {
  }

  lemma ProofExact(p: Provider, s: State, r: nat, x: Login)
    requires r !in s.requests
    ensures
      var t := AfterProof(p, s, r, x);
      && (!(Fresh(s, x) && Counts(p, s, x)) ==> Ended(s, t, r))
      && (Fresh(s, x) && Counts(p, s, x) ==>
            && r in t.requests && t.requests[r] == Advanced(x.challenge, |s.commits|, ProvedClaims(p, s, x))
            && t.commits == s.commits + [Commit(x.challenge, x.proof, ProvedClaims(p, s, x))]
            && t.authenticators == s.authenticators[x.proof.credentialId :=
                 s.authenticators[x.proof.credentialId].(signCount := ProvedClaims(p, s, x).newSignCount)]
            && t.returned == s.returned && t.log == s.log)
  {
    ConsumeExact(p, s, r, x);
  }

  lemma IssueExact(p: Provider, s: State, r: nat, x: Login, commit: nat, claims: CeremonyClaims)
    requires r in s.requests && s.requests[r] == Advanced(x.challenge, commit, claims)
    ensures
      var t := AfterIssue(p, s, r, x);
      && (!Issues(p, claims, x) ==> Ended(s, t, r))
      && (Issues(p, claims, x) ==>
            && r in t.requests && t.requests[r] == Issued(x.challenge, commit, AssertionOf(p, claims, x), NoHead)
            && t.returned == s.returned && t.log == s.log)
  {
  }

  lemma RecordExact(p: Provider, s: State, r: nat, x: Login, commit: nat, sealed: Sealed)
    requires AuditLog.SoundTable(p.log, s.log.table)
    requires r in s.requests && s.requests[r] == Issued(x.challenge, commit, sealed, NoHead)
    ensures
      var t := AfterRecord(p, s, r, x);
      && r !in t.requests
      && (Records(p, s, sealed, x) ==>
            t.returned == s.returned + [Returned(x.challenge, commit, sealed)] && |t.log.table| == |s.log.table| + 1)
      && (!Records(p, s, sealed, x) ==> t.returned == s.returned && t.log.table == s.log.table)
  {
    var headed := Apply(p, s, ReadHead(r));
    var log := AuditLog.Apply(p.log, s.log, AuditLog.ReadHeadHashed(r, p.domain));
    assert headed == Enter(s, r, Issued(x.challenge, commit, sealed, HeadKnown)).(log := log);
    if ValidTimestamp(p.stamp(x.recordedAt)) {
      SealExact(p.log, s.log, r, p.domain, SuccessEvent(p, sealed, p.stamp(x.recordedAt)), x.auditDevice);
      SealedAppends(p, headed, r, x, commit, sealed);
    }
  }

  lemma SealedAppends(p: Provider, s: State, r: nat, x: Login, commit: nat, sealed: Sealed)
    requires r in s.requests && s.requests[r] == Issued(x.challenge, commit, sealed, HeadKnown)
    requires ValidTimestamp(p.stamp(x.recordedAt))
    ensures
      var event := SuccessEvent(p, sealed, p.stamp(x.recordedAt));
      var log := AuditLog.Apply(p.log, s.log, AuditLog.SealFields(r, event, x.auditDevice));
      var ready := AuditLog.PhaseOf(log, r);
      var t := Apply(p, Apply(p, s, SealEvent(r, x.auditDevice, x.recordedAt)), Append(r));
      && r !in t.requests
      && (ready.Ready? && !AuditStore.Conflicts(log.table, ready.row) ==>
            t.returned == s.returned + [Returned(x.challenge, commit, sealed)] && t.log.table == log.table + [ready.row])
      && (!(ready.Ready? && !AuditStore.Conflicts(log.table, ready.row)) ==>
            t.returned == s.returned && t.log.table == log.table)
  {
    var sealing := Apply(p, s, SealEvent(r, x.auditDevice, x.recordedAt));
    SealEventExact(p, s, r, x, commit, sealed);
    if r in sealing.requests {
      AppendExact(p, sealing, r, x.challenge, commit, sealed);
    } else {
      EndedStays(p, sealing, r, Append(r));
    }
  }

  lemma SealEventExact(p: Provider, s: State, r: nat, x: Login, commit: nat, sealed: Sealed)
    requires r in s.requests && s.requests[r] == Issued(x.challenge, commit, sealed, HeadKnown)
    requires ValidTimestamp(p.stamp(x.recordedAt))
    ensures
      var event := SuccessEvent(p, sealed, p.stamp(x.recordedAt));
      var log := AuditLog.Apply(p.log, s.log, AuditLog.SealFields(r, event, x.auditDevice));
      var t := Apply(p, s, SealEvent(r, x.auditDevice, x.recordedAt));
      && t.log == log && t.returned == s.returned
      && (r in t.requests <==> AuditLog.PhaseOf(log, r).Ready?)
      && (r in t.requests ==> t.requests[r] == Issued(x.challenge, commit, sealed, RowSealed))
  {
  }

  lemma AppendExact(p: Provider, s: State, r: nat, challenge: Bytes, commit: nat, sealed: Sealed)
    requires r in s.requests && s.requests[r] == Issued(challenge, commit, sealed, RowSealed)
    requires AuditLog.PhaseOf(s.log, r).Ready?
    ensures
      var row := AuditLog.PhaseOf(s.log, r).row;
      var t := Apply(p, s, Append(r));
      && r !in t.requests
      && (!AuditStore.Conflicts(s.log.table, row) ==>
            t.returned == s.returned + [Returned(challenge, commit, sealed)] && t.log.table == s.log.table + [row])
      && (AuditStore.Conflicts(s.log.table, row) ==> t.returned == s.returned && t.log.table == s.log.table)
  {
  }

  lemma EndedStays(p: Provider, s: State, r: nat, a: Action)
    requires OfRequest(a) && a.r == r && r !in s.requests
    ensures Apply(p, s, a) == s
  {
  }

  lemma RunThen(p: Provider, s: State, front: seq<Action>, last: Action)
    ensures Run(p, s, front + [last]) == Apply(p, Run(p, s, front), last)
  {
    assert (front + [last])[..|front|] == front;
  }

  lemma RunOfActions(p: Provider, s: State, r: nat, x: Login)
    ensures Run(p, s, Actions(r, x)) == AfterRecord(p, AfterIssue(p, AfterProof(p, s, r, x), r, x), r, x)
  {
    var a0: seq<Action> := [];
    var a1 := a0 + [Consume(r, x.challenge, x.proof, x.arrivedAt)];
    var a2 := a1 + [Check(r)];
    var a3 := a2 + [AdvanceCounter(r)];
    var a4 := a3 + [SealAssertion(r, x.assertionDevice, x.eventId, x.issuedAt)];
    var a5 := a4 + [ReadHead(r)];
    var a6 := a5 + [SealEvent(r, x.auditDevice, x.recordedAt)];
    RunThen(p, s, a0, Consume(r, x.challenge, x.proof, x.arrivedAt));
    RunThen(p, s, a1, Check(r));
    RunThen(p, s, a2, AdvanceCounter(r));
    RunThen(p, s, a3, SealAssertion(r, x.assertionDevice, x.eventId, x.issuedAt));
    RunThen(p, s, a4, ReadHead(r));
    RunThen(p, s, a5, SealEvent(r, x.auditDevice, x.recordedAt));
    RunThen(p, s, a6, Append(r));
  }

  /** A request that is not disturbed is answered if and only if its challenge is fresh, its
      ceremony succeeds against the registered credential, its counter exceeds the stored
      one, its claims can be written and sealed, and the covering event can be written; the
      answer is then exactly that assertion. */
  lemma LoginExact(p: Provider, s: State, r: nat, x: Login)
    requires r !in s.requests && AuditLog.SoundTable(p.log, s.log.table)
    ensures
      var t := Run(p, s, Actions(r, x));
      && (Succeeds(p, s, x) ==>
            && t.returned == s.returned +
                 [Returned(x.challenge, |s.commits|, AssertionOf(p, ProvedClaims(p, s, x), x))]
            && |t.log.table| == |s.log.table| + 1)
      && (!Succeeds(p, s, x) ==> t.returned == s.returned && t.log.table == s.log.table)
  {
    RunOfActions(p, s, r, x);
    ProofExact(p, s, r, x);
    var proved := AfterProof(p, s, r, x);
    if Fresh(s, x) && Counts(p, s, x) {
      var claims := ProvedClaims(p, s, x);
      IssueExact(p, proved, r, x, |s.commits|, claims);
      var issued := AfterIssue(p, proved, r, x);
      if Issues(p, claims, x) {
        RecordExact(p, issued, r, x, |s.commits|, AssertionOf(p, claims, x));
      } else {
        NothingMore(p, issued, r, x);
      }
    } else {
      EndedStays(p, proved, r, SealAssertion(r, x.assertionDevice, x.eventId, x.issuedAt));
      NothingMore(p, proved, r, x);
    }
  }

  lemma NothingMore(p: Provider, s: State, r: nat, x: Login)
    requires r !in s.requests
    ensures AfterRecord(p, s, r, x) == s
  {
    EndedStays(p, s, r, ReadHead(r));
    EndedStays(p, s, r, SealEvent(r, x.auditDevice, x.recordedAt));
    EndedStays(p, s, r, Append(r));
  }
}
