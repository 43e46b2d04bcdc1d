/** The identity provider with its real services, end to end: what it returns, what its
    audit row says, and what its assertions can be used for. */
module Deployment {
  import opened Basics
  import opened Fields
  import opened Rfc3339
  import opened Canonical
  import opened WebAuthn
  import opened Authentication
  import opened AuthenticationProofs
  import opened Counters
  import opened AssertionProofs
  import AuditDocument
  import AuditSeal
  import AuditSealProofs
  import AuditStore
  import AuditLog
  import AuditTrail
  import Assertions = IdentityAssertion
  import Quorum

  datatype Setting = Setting(
    c: Crypto,
    auditKeys: seq<AuditSeal.VerifyingKey>,
    assertionKeys: seq<AuditSeal.VerifyingKey>,
    checks: Checks,
    ceremony: Ceremony,
    domain: AuthorityDomain,
    audience: Bytes,
    ttl: int)

  function Issue(c: Crypto, keys: seq<AuditSeal.VerifyingKey>, device: AuditLog.Device, claims: Assertions.Claims)
    : Option<Bytes>
  {
    Assertions.Seal(c, device.keyId, AuditTrail.Signing(c, keys, device), claims)
  }

  function Stamp(seconds: int): Bytes {
    Format(seconds)
  }

  function ProviderOf(e: Setting): Provider {
    Provider(
      AuditTrail.ServicesOf(e.c, e.auditKeys),
      CeremonyOf(e.checks, e.ceremony),
      (device, claims) => Issue(e.c, e.assertionKeys, device, claims),
      seconds => Stamp(seconds),
      e.domain,
      e.audience,
      e.ttl)
  }

  /** The published key identifiers are plain and short; the original's are 16 hexadecimal
      digits. */
  predicate OrdinaryKeys(keys: seq<AuditSeal.VerifyingKey>) {
    forall i | 0 <= i < |keys| :: BoundedAscii(keys[i].keyId, 128)
  }

  lemma PublishedIsOrdinary(keys: seq<AuditSeal.VerifyingKey>, keyId: Bytes, raw: Bytes)
    requires OrdinaryKeys(keys) && AuditSeal.Published(keys, keyId, raw)
    ensures BoundedAscii(keyId, 128)
  {
    var i :| AuditSeal.PublishedAt(keys, keyId, raw, i);
    assert BoundedAscii(keys[i].keyId, 128);
  }

  // ----- assertions ------------------------------------------------------------------------

  /** At any later clock reading, the assertion is accepted in its domain exactly within its
      window, and then says what was sealed. */
  ghost predicate AcceptedInWindow(e: Setting, sealed: Sealed, t: int) {
    forall now: Timestamp, u :: Stamps(now, u) ==>
      var r := Assertions.Verify(e.c, e.assertionKeys, sealed.assertion,
                                 Assertions.Policy([Assertions.SUITE_V1], now, e.domain));
      && (r.Ok? <==> t <= u < t + e.ttl)
      && (r.Ok? ==> r.value == Assertions.VerifiedOf(sealed.claims))
  }

  /** What the ceremony established is what the claims say. */
  predicate SaysWhatWasProved(claims: Assertions.Claims, proved: CeremonyClaims) {
    && claims.subjectId == proved.subjectId
    && claims.aal.ContractStr() == (if proved.aal2 then "AAL2" else "AAL1")
    && claims.authMethod == proved.authMethod
  }

  function MessageOf(claims: Assertions.Claims): Bytes {
    AuditSeal.SignedMessage(Assertions.DOMAIN_PREFIX, Assertions.UnsignedDocument(claims))
  }

  /** The real sealing of an assertion answers exactly when the device does. */
  lemma IssueExact(c: Crypto, keys: seq<AuditSeal.VerifyingKey>, device: AuditLog.Device, claims: Assertions.Claims)
    ensures
      var r := Issue(c, keys, device, claims);
      && (r.Some? <==> AuditTrail.Answers(c, keys, device, c.sha256(MessageOf(claims))))
      && (r.Some? ==>
            r.value == Assertions.SealedBytes(Assertions.UnsignedDocument(claims), device.keyId, device.answer.value))
  {
    AuditTrail.SigningExact(c, keys, device, c.sha256(MessageOf(claims)));
  }

  lemma IssuedIsGenuine(c: Crypto, keys: seq<AuditSeal.VerifyingKey>, device: AuditLog.Device, claims: Assertions.Claims)
    returns (raw: Bytes, signature: Bytes)
    requires Issue(c, keys, device, claims).Some?
    ensures AuditSeal.Published(keys, device.keyId, raw) && c.Genuine(raw, c.sha256(MessageOf(claims)), signature)
    ensures Issue(c, keys, device, claims).value ==
      Assertions.SealedBytes(Assertions.UnsignedDocument(claims), device.keyId, signature)
  {
    IssueExact(c, keys, device, claims);
    signature := device.answer.value;
    raw :| AuditSeal.Published(keys, device.keyId, raw) && c.Genuine(raw, c.sha256(MessageOf(claims)), signature);
  }

  lemma IssuedWindow(e: Setting, device: AuditLog.Device, claims: Assertions.Claims, t: int)
    requires OrdinaryKeys(e.assertionKeys) && Issue(e.c, e.assertionKeys, device, claims).Some?
    requires claims.authorityDomain == e.domain && Stamps(claims.issuedAt, t) && Stamps(claims.expiresAt, t + e.ttl)
    ensures AcceptedInWindow(e, Sealed(claims, Issue(e.c, e.assertionKeys, device, claims).value), t)
  {
    var raw, signature := IssuedIsGenuine(e.c, e.assertionKeys, device, claims);
    PublishedIsOrdinary(e.assertionKeys, device.keyId, raw);
    OrdinaryFits(claims, device.keyId);
    forall now: Timestamp, u | Stamps(now, u)
      ensures
        var r := Assertions.Verify(e.c, e.assertionKeys, Issue(e.c, e.assertionKeys, device, claims).value,
                                   Assertions.Policy([Assertions.SUITE_V1], now, e.domain));
        && (r.Ok? <==> t <= u < t + e.ttl)
        && (r.Ok? ==> r.value == Assertions.VerifiedOf(claims))
    {
      AssertionWindow(e.c, e.assertionKeys, device.keyId, raw, claims, signature, now, t, e.ttl, u);
    }
  }

  /** What is needed to know of the real provider. */
  ghost predicate Real(p: Provider, e: Setting) {
    && p.log == AuditTrail.ServicesOf(e.c, e.auditKeys)
    && p.ceremony == CeremonyOf(e.checks, e.ceremony)
    && p.domain == e.domain && p.ttl == e.ttl
    && (forall t :: Stamps(p.stamp(t), t))
    && (forall device, claims :: p.issue(device, claims) == Issue(e.c, e.assertionKeys, device, claims))
  }

  lemma ProviderIsReal(e: Setting)
    ensures Real(ProviderOf(e), e)
  {
  }

  lemma ClaimsAt(p: Provider, proved: CeremonyClaims, eventId: Bytes, now: int)
    requires ClaimsFor(p, proved, eventId, now).Some?
    ensures
      var claims := ClaimsFor(p, proved, eventId, now).value;
      && claims.authorityDomain == p.domain && SaysWhatWasProved(claims, proved)
      && claims.issuedAt == p.stamp(now) && claims.expiresAt == p.stamp(now + p.ttl)
  {
  }

  /** Whatever the provider issued for proved claims says them and has its window. */
  ghost predicate GoodAssertion(e: Setting, sealed: Sealed, proved: CeremonyClaims) {
    SaysWhatWasProved(sealed.claims, proved) && exists t :: Stamps(sealed.claims.issuedAt, t) && AcceptedInWindow(e, sealed, t)
  }

  lemma IssuedIsGood(e: Setting, p: Provider, sealed: Sealed, proved: CeremonyClaims)
    requires Real(p, e) && OrdinaryKeys(e.assertionKeys) && IssuedFor(p, sealed, proved)
    ensures GoodAssertion(e, sealed, proved)
  {
    var device, eventId, now :| IssuedAs(p, sealed, proved, device, eventId, now);
    ClaimsAt(p, proved, eventId, now);
    assert p.issue(device, sealed.claims) == Issue(e.c, e.assertionKeys, device, sealed.claims);
    IssuedWindow(e, device, sealed.claims, now);
  }

  // ----- audit rows --------------------------------------------------------------------------

  /** The row's sealed bytes, checked by the real verification, report the success of the
      authentication under the assertion's event id, in the provider's domain. */
  predicate GoodRow(e: Setting, row: AuditStore.Row, sealed: Sealed) {
    var v := AuditSeal.Verify(e.c, e.auditKeys, row.sealed, AuditTrail.PolicyFor(e.domain));
    && row.authorityDomain == e.domain && v.Ok?
    && v.value.eventId == sealed.claims.auditEventId
    && v.value.eventType == AuditDocument.AuthenticationSucceeded
  }

  lemma CoveredReads(p: Provider, row: AuditStore.Row, sealed: Sealed)
    requires AuditLog.Honest(p.log) && Covers(p, row, sealed)
    ensures
      var v := p.log.check(p.domain, row.sealed);
      && row.authorityDomain == p.domain && v.Some?
      && v.value.eventId == sealed.claims.auditEventId && v.value.eventType == AuditDocument.AuthenticationSucceeded
  {
    var f, device :| CoversAs(p, row, sealed, f, device);
    assert p.log.check(f.authorityDomain, p.log.seal(device, f).value) == Some(AuditSealProofs.VerifiedOf(f));
  }

  lemma CoveredIsGood(e: Setting, p: Provider, row: AuditStore.Row, sealed: Sealed)
    requires Real(p, e) && AuditLog.Honest(p.log) && Covers(p, row, sealed)
    ensures GoodRow(e, row, sealed)
  {
    CoveredReads(p, row, sealed);
    assert p.log.check == AuditTrail.ReadingOf(e.c, e.auditKeys);
  }

  // ----- end to end --------------------------------------------------------------------------

  ghost predicate GoodAnswer(e: Setting, p: Provider, s: State, i: nat)
    requires i < |s.returned|
  {
    var sealed := s.returned[i].sealed;
    && s.returned[i].commit < |s.commits|
    && GoodAssertion(e, sealed, CommitOf(s, i).claims)
    && exists k | 0 <= k < |s.log.table| :: Covers(p, s.log.table[k], sealed) && GoodRow(e, s.log.table[k], sealed)
  }

  /** Every assertion that the provider returns, in any run, says what the ceremony of its
      own counter update established, is accepted by the real verification exactly within
      its window, and is covered by a row of the audit table that the real verification
      accepts, with the assertion's event id and digest. */
  lemma EveryAnswerIsGood(e: Setting, actions: seq<Action>)
    requires OrdinaryKeys(e.assertionKeys)
    ensures
      var p := ProviderOf(e);
      var s := Run(p, Initial, actions);
      forall i | 0 <= i < |s.returned| :: GoodAnswer(e, p, s, i)
  {
    ProviderIsReal(e);
    AuditTrail.ServicesAreHonest(e.c, e.auditKeys);
    AnswersAreGood(e, ProviderOf(e), actions);
  }

  lemma AnswersAreGood(e: Setting, p: Provider, actions: seq<Action>)
    requires Real(p, e) && AuditLog.Honest(p.log) && OrdinaryKeys(e.assertionKeys)
    ensures
      var s := Run(p, Initial, actions);
      forall i | 0 <= i < |s.returned| :: GoodAnswer(e, p, s, i)
  {
    EveryAssertionIsAccountedFor(p, actions);
    var s := Run(p, Initial, actions);
    forall i | 0 <= i < |s.returned|
      ensures GoodAnswer(e, p, s, i)
    {
      var sealed := s.returned[i].sealed;
      IssuedIsGood(e, p, sealed, CommitOf(s, i).claims);
      var k :| 0 <= k < |s.log.table| && Covers(p, s.log.table[k], sealed);
      CoveredIsGood(e, p, s.log.table[k], sealed);
    }
  }

  /** With the real ceremony: a credential for which no counter above the registered one is
      ever presented never obtains an assertion. */
  lemma NotCountingNeverLetIn(e: Setting, id: Bytes, n: nat, actions: seq<Action>)
    requires NeverAbove(actions, id, n) && RegisteredFrom(actions, id, n)
    ensures
      var s := Run(ProviderOf(e), Initial, actions);
      forall i | 0 <= i < |s.returned| :: s.returned[i].commit < |s.commits| && CommitOf(s, i).CredentialId() != id
  {
    AuditTrail.ServicesAreHonest(e.c, e.auditKeys);
    RealCeremonyReadsCounter(ProviderOf(e), e.checks, e.ceremony);
    NeverLetIn(ProviderOf(e), id, n, actions);
  }

  // ----- what the assertions can be used for -----------------------------------------------------

  /** The verification service's answer about an assertion. */
  function AnswerOf(c: Crypto, keys: seq<AuditSeal.VerifyingKey>, assertion: Bytes, policy: Assertions.Policy): Quorum.Answer {
    var r := Assertions.Verify(c, keys, assertion, policy);
    if r.Ok? then Quorum.Valid(r.value.subjectId, r.value.aal, r.value.authMethod) else Quorum.Refused
  }

  /** The assertion is the canonical writing of an acceptable document that says this. */
  ghost predicate Says(c: Crypto, keys: seq<AuditSeal.VerifyingKey>, assertion: Bytes, policy: Assertions.Policy,
                       doc: Assertions.WireAssertion, subject: Bytes, aal: Bytes, authMethod: Bytes) {
    && Assertions.Acceptable(c, keys, doc, policy) && assertion == CanonicalBytes(Assertions.FullDocument(doc))
    && doc.claims.subjectId == subject && doc.claims.aal == aal && doc.claims.authMethod == authMethod
  }

  /** The answer names exactly what an acceptable assertion says; any other is refused. */
  lemma AnswerExact(c: Crypto, keys: seq<AuditSeal.VerifyingKey>, assertion: Bytes, policy: Assertions.Policy,
                    subject: Bytes, aal: Bytes, authMethod: Bytes)
    ensures AnswerOf(c, keys, assertion, policy) == Quorum.Valid(subject, aal, authMethod) <==>
      |assertion| <= 4096 && exists doc :: Says(c, keys, assertion, policy, doc, subject, aal, authMethod)
    ensures !AnswerOf(c, keys, assertion, policy).Valid? ==> AnswerOf(c, keys, assertion, policy) == Quorum.Refused
  {
    Assertions.VerifyExact(c, keys, assertion, policy);
    if Assertions.Verify(c, keys, assertion, policy).Ok? {
      var doc :| Assertions.Acceptable(c, keys, doc, policy) && assertion == CanonicalBytes(Assertions.FullDocument(doc));
      Assertions.VerifyReports(c, keys, doc, policy);
      var w := doc.claims;
      assert Says(c, keys, assertion, policy, doc, w.subjectId, w.aal, w.authMethod);
    }
    forall doc | |assertion| <= 4096 && Says(c, keys, assertion, policy, doc, subject, aal, authMethod)
      ensures AnswerOf(c, keys, assertion, policy) == Quorum.Valid(subject, aal, authMethod)
    {
      Assertions.VerifyReports(c, keys, doc, policy);
    }
  }

  /** Not what the initiator of a critical operation needs. */
  predicate BelowThirdLevel(answer: Quorum.Answer) {
    answer.Valid? ==> answer.aal != "AAL3"
  }

  lemma CannotInitiate(check: Bytes -> Quorum.Answer, caller: Quorum.Caller)
    requires BelowThirdLevel(check(caller.assertion))
    ensures !Quorum.Initiates(check, caller)
  {
  }

  lemma IssuedCannotInitiate(e: Setting, device: AuditLog.Device, claims: Assertions.Claims,
                             keys: seq<AuditSeal.VerifyingKey>, policy: Assertions.Policy)
    requires Issue(e.c, e.assertionKeys, device, claims).Some? && claims.aal.ContractStr() != "AAL3"
    ensures BelowThirdLevel(AnswerOf(e.c, keys, Issue(e.c, e.assertionKeys, device, claims).value, policy))
  {
    var _, signature := IssuedIsGenuine(e.c, e.assertionKeys, device, claims);
    Assertions.AcceptedReadsAsSealed(e.c, keys, device.keyId, claims, signature, policy);
  }

  lemma AnswerCannotInitiate(e: Setting, p: Provider, sealed: Sealed, proved: CeremonyClaims,
                             keys: seq<AuditSeal.VerifyingKey>, policy: Assertions.Policy)
    requires Real(p, e) && IssuedFor(p, sealed, proved)
    ensures BelowThirdLevel(AnswerOf(e.c, keys, sealed.assertion, policy))
  {
    var device, eventId, now :| IssuedAs(p, sealed, proved, device, eventId, now);
    ClaimsAt(p, proved, eventId, now);
    assert p.issue(device, sealed.claims) == Issue(e.c, e.assertionKeys, device, sealed.claims);
    IssuedCannotInitiate(e, device, sealed.claims, keys, policy);
  }

  /** A ceremony establishes the first or the second level of assurance, and a critical
      operation can only be initiated at the third: no assertion that the provider returns
      in any run gets past the check of the caller, whatever keys and clock are used. */
  lemma NoAnswerInitiatesQuorum(e: Setting, actions: seq<Action>, i: nat, keys: seq<AuditSeal.VerifyingKey>,
                                policy: Assertions.Policy)
    requires i < |Run(ProviderOf(e), Initial, actions).returned|
    ensures BelowThirdLevel(AnswerOf(e.c, keys, Run(ProviderOf(e), Initial, actions).returned[i].sealed.assertion, policy))
  {
    ProviderIsReal(e);
    AuditTrail.ServicesAreHonest(e.c, e.auditKeys);
    NoneInitiates(e, ProviderOf(e), actions, i, keys, policy);
  }

  lemma NoneInitiates(e: Setting, p: Provider, actions: seq<Action>, i: nat, keys: seq<AuditSeal.VerifyingKey>,
                      policy: Assertions.Policy)
    requires Real(p, e) && AuditLog.Honest(p.log) && i < |Run(p, Initial, actions).returned|
    ensures BelowThirdLevel(AnswerOf(e.c, keys, Run(p, Initial, actions).returned[i].sealed.assertion, policy))
  {
    EveryAssertionIsAccountedFor(p, actions);
    var s := Run(p, Initial, actions);
    AnswerCannotInitiate(e, p, s.returned[i].sealed, CommitOf(s, i).claims, keys, policy);
  }
}
