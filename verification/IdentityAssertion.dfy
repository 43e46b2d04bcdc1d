/** Sealing and verifying an identity assertion (suite `identity-assertion/v1`). */
module IdentityAssertion {
  import opened Basics
  import opened Sorting
  import opened Json
  import opened Canonical
  import opened Documents
  import opened Fields
  import opened AuditDocument
  import opened AuditRoundTrip
  import Seals = AuditSeal
  import SealProofs = AuditSealProofs

  const SUITE_V1: Bytes := "identity-assertion/v1"
  const DOMAIN_PREFIX: Bytes := "zero-secret/identity-assertion/v1"
  const MAX_BYTES: int := 4096

  /** The authority domain is not validated here. */
  datatype Claims = Claims(
    authorityDomain: Bytes,
    subjectId: ShortText,
    aal: AssuranceLevel,
    authMethod: AuthMethodText,
    audience: ShortText,
    issuedAt: Timestamp,
    expiresAt: Timestamp,
    auditEventId: EventId)

  datatype WireClaims = WireClaims(
    schemaVersion: U32,
    suite: Bytes,
    authorityDomain: Bytes,
    subjectId: Bytes,
    aal: Bytes,
    authMethod: Bytes,
    audience: Bytes,
    issuedAt: Bytes,
    expiresAt: Bytes,
    auditEventId: Bytes)

  datatype WireAssertion = WireAssertion(claims: WireClaims, signatures: seq<WireComponent>)

  datatype AssertionError =
    | Rejected(why: Seals.VerifyError)
    | NotYetValidOrExpired

  datatype Policy = Policy(acceptedSuites: seq<Bytes>, now: Timestamp, expectedAuthorityDomain: Bytes)

  datatype VerifiedAssertion = VerifiedAssertion(
    subjectId: Bytes,
    aal: Bytes,
    authMethod: Bytes,
    audience: Bytes,
    issuedAt: Bytes,
    expiresAt: Bytes,
    auditEventId: Bytes)

  // ----- documents -----------------------------------------------------------------------

  /** The document without its signatures, built from typed claims. */
  function UnsignedDocument(c: Claims): Members {
    Build([
      Entry("schema_version", Some(Num(1))),
      Entry("suite", Some(Str(SUITE_V1))),
      Entry("authority_domain", Some(Str(c.authorityDomain))),
      Entry("subject_id", Some(Str(c.subjectId))),
      Entry("aal", Some(Str(c.aal.ContractStr()))),
      Entry("auth_method", Some(Str(c.authMethod))),
      Entry("audience", Some(Str(c.audience))),
      Entry("issued_at", Some(Str(c.issuedAt))),
      Entry("expires_at", Some(Str(c.expiresAt))),
      Entry("audit_event_id", Some(Str(c.auditEventId)))])
  }

  function ClaimsSlots(w: WireClaims): Slots {
    [Entry("schema_version", Some(Num(w.schemaVersion))),
     Entry("suite", Some(Str(w.suite))),
     Entry("authority_domain", Some(Str(w.authorityDomain))),
     Entry("subject_id", Some(Str(w.subjectId))),
     Entry("aal", Some(Str(w.aal))),
     Entry("auth_method", Some(Str(w.authMethod))),
     Entry("audience", Some(Str(w.audience))),
     Entry("issued_at", Some(Str(w.issuedAt))),
     Entry("expires_at", Some(Str(w.expiresAt))),
     Entry("audit_event_id", Some(Str(w.auditEventId)))]
  }

  /** The document without its signatures, rebuilt from what was read off the wire. */
  function UnsignedFromWire(w: WireClaims): Members {
    Build(ClaimsSlots(w))
  }

  function FullDocument(doc: WireAssertion): Json {
    Obj(UnsignedFromWire(doc.claims) + [Entry("signatures", ComponentsValue(doc.signatures))])
  }

  const ASSERTION_KEYS: seq<Bytes> :=
    ["schema_version", "suite", "authority_domain", "subject_id", "aal", "auth_method", "audience",
     "issued_at", "expires_at", "audit_event_id", "signatures"]

  function ReadClaims(ms: Members): Option<WireClaims> {
    var schemaVersion :- ReadNum(ms, "schema_version", U32_LIMIT);
    var suite :- ReadStr(ms, "suite");
    var authorityDomain :- ReadStr(ms, "authority_domain");
    var subjectId :- ReadStr(ms, "subject_id");
    var aal :- ReadStr(ms, "aal");
    var authMethod :- ReadStr(ms, "auth_method");
    var audience :- ReadStr(ms, "audience");
    var issuedAt :- ReadStr(ms, "issued_at");
    var expiresAt :- ReadStr(ms, "expires_at");
    var auditEventId :- ReadStr(ms, "audit_event_id");
    Some(WireClaims(schemaVersion, suite, authorityDomain, subjectId, aal, authMethod, audience,
                    issuedAt, expiresAt, auditEventId))
  }

  function ReadAssertion(v: Json): Option<WireAssertion> {
    var ms :- StrictMembers(v, ASSERTION_KEYS);
    var claims :- ReadClaims(ms);
    match Lookup<Json>(ms, "signatures")
    case Some(Arr(items)) => var signatures :- ReadComponents(items); Some(WireAssertion(claims, signatures))
    case _ => None
  }

  // ----- sealing and verifying -------------------------------------------------------------

  function SealedBytes(unsigned: Members, keyId: Bytes, signature: Bytes): Bytes {
    CanonicalBytes(Obj(unsigned + [Entry("signatures", ComponentsValue(Components(keyId, signature)))]))
  }

  function Components(keyId: Bytes, signature: Bytes): seq<WireComponent> {
    [WireComponent(Seals.COMPONENT_V1, keyId, HexEncode(signature))]
  }

  /** There is no size guard here. */
  function Seal(c: Crypto, keyId: Bytes, sign: Digest -> Option<Bytes>, claims: Claims): Option<Bytes> {
    var unsigned := UnsignedDocument(claims);
    var signature :- sign(c.sha256(Seals.SignedMessage(DOMAIN_PREFIX, unsigned)));
    Some(SealedBytes(unsigned, keyId, signature))
  }

  /** The window is checked on the raw strings. */
  predicate InWindow(issuedAt: Bytes, now: Bytes, expiresAt: Bytes) {
    LessEq(issuedAt, now) && Less(now, expiresAt)
  }

  function CheckAssertion(c: Crypto, keys: seq<Seals.VerifyingKey>, bytes: Bytes, doc: WireAssertion, policy: Policy)
    : Result<VerifiedAssertion, AssertionError>
  {
    var w := doc.claims;
    if w.schemaVersion != 1 then Err(Rejected(Seals.MalformedDocument))
    else if w.suite !in policy.acceptedSuites || w.suite != SUITE_V1 then Err(Rejected(Seals.UnknownSuite))
    else if Seals.ComponentNames(doc.signatures) != Seals.REQUIRED_COMPONENTS_V1 then
      Err(Rejected(Seals.InvalidSignatureArity))
    else if CanonicalBytes(FullDocument(doc)) != bytes then Err(Rejected(Seals.NonCanonical))
    else
      match Seals.CheckComponents(c, keys, Seals.SignedMessage(DOMAIN_PREFIX, UnsignedFromWire(w)), doc.signatures)
      case Err(e) => Err(Rejected(e))
      case Ok(allValid) =>
        if !allValid then Err(Rejected(Seals.InvalidSignature))
        else if w.authorityDomain != policy.expectedAuthorityDomain then Err(Rejected(Seals.UnexpectedAuthorityDomain))
        else if !InWindow(w.issuedAt, policy.now, w.expiresAt) then Err(NotYetValidOrExpired)
        else Ok(VerifiedAssertion(w.subjectId, w.aal, w.authMethod, w.audience, w.issuedAt, w.expiresAt, w.auditEventId))
  }

  function Verify(c: Crypto, keys: seq<Seals.VerifyingKey>, bytes: Bytes, policy: Policy)
    : Result<VerifiedAssertion, AssertionError>
  {
    if |bytes| > MAX_BYTES then Err(Rejected(Seals.TooLarge))
    else
      match Parse(bytes)
      case None => Err(Rejected(Seals.MalformedDocument))
      case Some(v) =>
        match ReadAssertion(v)
        case None => Err(Rejected(Seals.MalformedDocument))
        case Some(doc) => CheckAssertion(c, keys, bytes, doc, policy)
  }

  // ----- reading back ------------------------------------------------------------------------

  lemma ClaimsSlotsDistinct(w: WireClaims)
    ensures DistinctKeys(ClaimsSlots(w)) && KeysKnown(ClaimsSlots(w), ASSERTION_KEYS)
  {
  }

  lemma SignedSlotsDistinct(w: WireClaims, signatures: Json)
    ensures
      var slots := ClaimsSlots(w) + [Entry("signatures", Some(signatures))];
      DistinctKeys(slots) && KeysKnown(slots, ASSERTION_KEYS)
  {
    ClaimsSlotsDistinct(w);
    NoSignatures(w);
    AppendDistinct(ClaimsSlots(w), Entry("signatures", Some(signatures)), ASSERTION_KEYS);
  }

  lemma NoSignatures(w: WireClaims)
    ensures forall i | 0 <= i < |ClaimsSlots(w)| :: ClaimsSlots(w)[i].key != "signatures"
  {
  }

  lemma AppendDistinct(slots: Slots, slot: Entry<Option<Json>>, known: seq<Bytes>)
    requires DistinctKeys(slots) && KeysKnown(slots, known) && slot.key in known
    requires forall i | 0 <= i < |slots| :: slots[i].key != slot.key
    ensures DistinctKeys(slots + [slot]) && KeysKnown(slots + [slot], known)
  {
  }

  lemma HeldFront(v: Json, w: WireClaims)
    requires Holds(v, ClaimsSlots(w), ASSERTION_KEYS)
    ensures ReadNum(v.members, "schema_version", U32_LIMIT) == Some(w.schemaVersion)
    ensures ReadStr(v.members, "suite") == Some(w.suite)
    ensures ReadStr(v.members, "authority_domain") == Some(w.authorityDomain)
  {
    var slots := ClaimsSlots(w);
    HeldNum(v, slots, ASSERTION_KEYS, 0, w.schemaVersion, U32_LIMIT);
    HeldStr(v, slots, ASSERTION_KEYS, 1, w.suite);
    HeldStr(v, slots, ASSERTION_KEYS, 2, w.authorityDomain);
  }

  lemma HeldMiddle(v: Json, w: WireClaims)
    requires Holds(v, ClaimsSlots(w), ASSERTION_KEYS)
    ensures ReadStr(v.members, "subject_id") == Some(w.subjectId)
    ensures ReadStr(v.members, "aal") == Some(w.aal)
  {
    var slots := ClaimsSlots(w);
    HeldStr(v, slots, ASSERTION_KEYS, 3, w.subjectId);
    HeldStr(v, slots, ASSERTION_KEYS, 4, w.aal);
  }

  lemma HeldBack(v: Json, w: WireClaims)
    requires Holds(v, ClaimsSlots(w), ASSERTION_KEYS)
    ensures ReadStr(v.members, "auth_method") == Some(w.authMethod)
    ensures ReadStr(v.members, "audience") == Some(w.audience)
    ensures ReadStr(v.members, "issued_at") == Some(w.issuedAt)
    ensures ReadStr(v.members, "expires_at") == Some(w.expiresAt)
    ensures ReadStr(v.members, "audit_event_id") == Some(w.auditEventId)
  {
    var slots := ClaimsSlots(w);
    HeldStr(v, slots, ASSERTION_KEYS, 5, w.authMethod);
    HeldStr(v, slots, ASSERTION_KEYS, 6, w.audience);
    HeldStr(v, slots, ASSERTION_KEYS, 7, w.issuedAt);
    HeldStr(v, slots, ASSERTION_KEYS, 8, w.expiresAt);
    HeldStr(v, slots, ASSERTION_KEYS, 9, w.auditEventId);
  }

  lemma HeldClaims(v: Json, w: WireClaims)
    requires Holds(v, ClaimsSlots(w), ASSERTION_KEYS)
    ensures ReadClaims(v.members) == Some(w)
  {
    HeldFront(v, w);
    HeldMiddle(v, w);
    HeldBack(v, w);
  }

  lemma ClaimsReadBack(w: WireClaims)
    ensures ReadClaims(Canon(Obj(UnsignedFromWire(w))).members) == Some(w)
  {
    ClaimsSlotsDistinct(w);
    var v := BuildHolds(ClaimsSlots(w), ASSERTION_KEYS);
    HeldClaims(v, w);
  }

  lemma AssertionReadBack(doc: WireAssertion)
    ensures ReadAssertion(Canon(FullDocument(doc))) == Some(doc)
  {
    var front := ClaimsSlots(doc.claims);
    var list := ComponentsValue(doc.signatures);
    var slots := front + [Entry("signatures", Some(list))];
    BuildAppend(front, Entry("signatures", list));
    SignedSlotsDistinct(doc.claims, list);
    var v := BuildHolds(slots, ASSERTION_KEYS);
    forall i | 0 <= i < |front|
      ensures Lookup(v.members, front[i].key) == CanonOption(front[i].value)
    {
      assert slots[i] == front[i];
    }
    HeldAssertion(v, doc, slots);
  }

  lemma HeldAssertion(v: Json, doc: WireAssertion, slots: Slots)
    requires Holds(v, ClaimsSlots(doc.claims), ASSERTION_KEYS) && Holds(v, slots, ASSERTION_KEYS)
    requires slots == ClaimsSlots(doc.claims) + [Entry("signatures", Some(ComponentsValue(doc.signatures)))]
    ensures ReadAssertion(v) == Some(doc)
  {
    HeldClaims(v, doc.claims);
    HeldValue(v, slots, ASSERTION_KEYS, |slots| - 1);
    ComponentsReadBack(Canon(ComponentsValue(doc.signatures)).items, doc.signatures);
  }

  lemma VerifyReadsCanonical(c: Crypto, keys: seq<Seals.VerifyingKey>, doc: WireAssertion, policy: Policy)
    ensures
      var bytes := CanonicalBytes(FullDocument(doc));
      Verify(c, keys, bytes, policy) ==
        if |bytes| > MAX_BYTES then Err(Rejected(Seals.TooLarge)) else CheckAssertion(c, keys, bytes, doc, policy)
  {
    ParseCanonical(FullDocument(doc));
    AssertionReadBack(doc);
  }

  /** What an accepted assertion satisfies, said without the reader and the printer. */
  ghost predicate Acceptable(c: Crypto, keys: seq<Seals.VerifyingKey>, doc: WireAssertion, policy: Policy) {
    && doc.claims.schemaVersion == 1
    && doc.claims.suite == SUITE_V1 && SUITE_V1 in policy.acceptedSuites
    && SealProofs.SignedBy(c, keys, Seals.SignedMessage(DOMAIN_PREFIX, UnsignedFromWire(doc.claims)), doc.signatures)
    && doc.claims.authorityDomain == policy.expectedAuthorityDomain
    && InWindow(doc.claims.issuedAt, policy.now, doc.claims.expiresAt)
  }

  lemma CheckAssertionExact(c: Crypto, keys: seq<Seals.VerifyingKey>, bytes: Bytes, doc: WireAssertion, policy: Policy)
    ensures CheckAssertion(c, keys, bytes, doc, policy).Ok? <==>
      Acceptable(c, keys, doc, policy) && bytes == CanonicalBytes(FullDocument(doc))
  {
    SealProofs.SignedByExact(c, keys, Seals.SignedMessage(DOMAIN_PREFIX, UnsignedFromWire(doc.claims)), doc.signatures);
  }

  /** Verification accepts exactly the canonical encodings of acceptable assertions that
      respect the size limit. */
  lemma VerifyExact(c: Crypto, keys: seq<Seals.VerifyingKey>, bytes: Bytes, policy: Policy)
    ensures Verify(c, keys, bytes, policy).Ok? <==>
      |bytes| <= MAX_BYTES &&
      exists doc :: Acceptable(c, keys, doc, policy) && bytes == CanonicalBytes(FullDocument(doc))
  {
    if Verify(c, keys, bytes, policy).Ok? {
      CheckAssertionExact(c, keys, bytes, ReadAssertion(Parse(bytes).value).value, policy);
    }
    if |bytes| <= MAX_BYTES && exists doc :: Acceptable(c, keys, doc, policy) && bytes == CanonicalBytes(FullDocument(doc)) {
      var doc :| Acceptable(c, keys, doc, policy) && bytes == CanonicalBytes(FullDocument(doc));
      VerifyReadsCanonical(c, keys, doc, policy);
      CheckAssertionExact(c, keys, bytes, doc, policy);
    }
  }

  /** What it reports of such an assertion is what the assertion says. */
  lemma VerifyReports(c: Crypto, keys: seq<Seals.VerifyingKey>, doc: WireAssertion, policy: Policy)
    requires Acceptable(c, keys, doc, policy) && |CanonicalBytes(FullDocument(doc))| <= MAX_BYTES
    ensures
      var w, v := doc.claims, Verify(c, keys, CanonicalBytes(FullDocument(doc)), policy);
      && v.Ok?
      && v.value.subjectId == w.subjectId && v.value.aal == w.aal && v.value.authMethod == w.authMethod
      && v.value.audience == w.audience && v.value.issuedAt == w.issuedAt && v.value.expiresAt == w.expiresAt
      && v.value.auditEventId == w.auditEventId
  {
    VerifyReadsCanonical(c, keys, doc, policy);
    CheckAssertionExact(c, keys, CanonicalBytes(FullDocument(doc)), doc, policy);
  }

  /** Why the form of an assertion is refused, in the order of the checks. */
  function FormError(doc: WireAssertion, policy: Policy): Option<Seals.VerifyError> {
    if doc.claims.schemaVersion != 1 then Some(Seals.MalformedDocument)
    else if doc.claims.suite != "identity-assertion/v1" || doc.claims.suite !in policy.acceptedSuites then
      Some(Seals.UnknownSuite)
    else if !SealProofs.OneEcdsa(doc.signatures) then Some(Seals.InvalidSignatureArity)
    else None
  }

  /** Why a canonical assertion is refused, in the order of the checks: size, form, key,
      signature, domain, window. */
  lemma VerifyRefuses(c: Crypto, keys: seq<Seals.VerifyingKey>, doc: WireAssertion, policy: Policy)
    ensures
      var bytes, w := CanonicalBytes(FullDocument(doc)), doc.claims;
      var r, form := Verify(c, keys, bytes, policy), FormError(doc, policy);
      var signed := SealProofs.SignedBy(c, keys, Seals.SignedMessage(DOMAIN_PREFIX, UnsignedFromWire(w)), doc.signatures);
      && (r == Err(Rejected(Seals.TooLarge)) <==> |bytes| > 4096)
      && (|bytes| <= 4096 && form.Some? ==> r == Err(Rejected(form.value)))
      && (|bytes| <= 4096 && form.None? ==>
            var unknown := Seals.Unpublished(keys, doc.signatures[0].keyId);
            && (r == Err(Rejected(Seals.UnknownKeyId)) <==> unknown)
            && (r == Err(Rejected(Seals.InvalidSignature)) <==> !unknown && !signed)
            && (r == Err(Rejected(Seals.UnexpectedAuthorityDomain)) <==>
                  signed && w.authorityDomain != policy.expectedAuthorityDomain)
            && (r == Err(NotYetValidOrExpired) <==>
                  && signed && w.authorityDomain == policy.expectedAuthorityDomain
                  && !(LessEq(w.issuedAt, policy.now) && Less(policy.now, w.expiresAt))))
  {
    VerifyReadsCanonical(c, keys, doc, policy);
    SealProofs.OneComponent(doc.signatures);
    if SealProofs.OneEcdsa(doc.signatures) { OneSignature(c, keys, doc); }
  }

  lemma OneSignature(c: Crypto, keys: seq<Seals.VerifyingKey>, doc: WireAssertion)
    requires SealProofs.OneEcdsa(doc.signatures)
    ensures
      var message, keyId := Seals.SignedMessage(DOMAIN_PREFIX, UnsignedFromWire(doc.claims)), doc.signatures[0].keyId;
      var r := Seals.CheckComponents(c, keys, message, doc.signatures);
      && (r == Err(Seals.UnknownKeyId) <==> Seals.Unpublished(keys, keyId))
      && (r == Ok(true) <==> SealProofs.SignedBy(c, keys, message, doc.signatures))
      && (r.Err? ==> r == Err(Seals.UnknownKeyId) || r == Err(Seals.InvalidSignature))
      && (Seals.Unpublished(keys, keyId) ==> !SealProofs.SignedBy(c, keys, message, doc.signatures))
  {
    var message, first := Seals.SignedMessage(DOMAIN_PREFIX, UnsignedFromWire(doc.claims)), doc.signatures[0];
    assert doc.signatures == [WireComponent(Seals.COMPONENT_V1, first.keyId, first.value)];
    SealProofs.OneChecked(c, keys, message, first.keyId, first.value);
  }

  /** What can be read and has the right form, but is not the canonical writing of what it
      says, is refused as such. */
  lemma RewritingRefused(c: Crypto, keys: seq<Seals.VerifyingKey>, bytes: Bytes, v: Json, doc: WireAssertion, policy: Policy)
    requires |bytes| <= 4096 && Parse(bytes) == Some(v) && ReadAssertion(v) == Some(doc)
    ensures Verify(c, keys, bytes, policy) == Err(Rejected(Seals.NonCanonical)) <==>
      FormError(doc, policy).None? && bytes != CanonicalBytes(FullDocument(doc))
  {
    CheckedRewriting(c, keys, bytes, doc, policy);
  }

  lemma CheckedRewriting(c: Crypto, keys: seq<Seals.VerifyingKey>, bytes: Bytes, doc: WireAssertion, policy: Policy)
    ensures CheckAssertion(c, keys, bytes, doc, policy) == Err(Rejected(Seals.NonCanonical)) <==>
      FormError(doc, policy).None? && bytes != CanonicalBytes(FullDocument(doc))
  {
    SealProofs.OneComponent(doc.signatures);
    if SealProofs.OneEcdsa(doc.signatures) { OneSignature(c, keys, doc); }
  }

  /** What cannot be read at all is malformed. */
  lemma UnreadableRefused(c: Crypto, keys: seq<Seals.VerifyingKey>, bytes: Bytes, policy: Policy)
    requires |bytes| <= 4096
    requires forall v :: Parse(bytes) == Some(v) ==> ReadAssertion(v).None?
    ensures Verify(c, keys, bytes, policy) == Err(Rejected(Seals.MalformedDocument))
  {
  }

  // ----- sealing and then verifying --------------------------------------------------------

  function WireOf(c: Claims): WireClaims {
    WireClaims(1, SUITE_V1, c.authorityDomain, c.subjectId, c.aal.ContractStr(), c.authMethod, c.audience,
               c.issuedAt, c.expiresAt, c.auditEventId)
  }

  function VerifiedOf(c: Claims): VerifiedAssertion {
    VerifiedAssertion(c.subjectId, c.aal.ContractStr(), c.authMethod, c.audience, c.issuedAt, c.expiresAt, c.auditEventId)
  }

  lemma BuildersAgree(c: Claims)
    ensures UnsignedDocument(c) == UnsignedFromWire(WireOf(c))
  {
  }

  lemma GenuineComponent(c: Crypto, keys: seq<Seals.VerifyingKey>, keyId: Bytes, raw: Bytes, message: Bytes, signature: Bytes)
    requires Seals.Published(keys, keyId, raw) && c.Genuine(raw, c.sha256(message), signature)
    ensures Seals.CheckComponents(c, keys, message, Components(keyId, signature)) == Ok(true)
    ensures Seals.ComponentNames(Components(keyId, signature)) == Seals.REQUIRED_COMPONENTS_V1
  {
    HexRoundTrip(signature);
    Seals.FindKeyExact(keys, keyId);
    var components := Components(keyId, signature);
    assert components[1..] == [];
    assert Seals.ComponentNames(components) == [Seals.COMPONENT_V1];
  }

  /** Whoever accepts a sealed assertion, with whatever keys and policy, reads what was
      sealed. */
  lemma AcceptedReadsAsSealed(c: Crypto, keys: seq<Seals.VerifyingKey>, keyId: Bytes, claims: Claims, signature: Bytes,
                              policy: Policy)
    ensures
      var r := Verify(c, keys, SealedBytes(UnsignedDocument(claims), keyId, signature), policy);
      r.Ok? ==> r.value == VerifiedOf(claims)
  {
    var doc := WireAssertion(WireOf(claims), Components(keyId, signature));
    BuildersAgree(claims);
    VerifyReadsCanonical(c, keys, doc, policy);
  }

  /** A genuine assertion is accepted exactly when it is small enough, meant for the
      expected domain and within its window, and then it says what was sealed. */
  lemma GenuineVerifies(c: Crypto, keys: seq<Seals.VerifyingKey>, keyId: Bytes, raw: Bytes, claims: Claims,
                        signature: Bytes, policy: Policy)
    requires Seals.Published(keys, keyId, raw) && SUITE_V1 in policy.acceptedSuites
    requires c.Genuine(raw, c.sha256(Seals.SignedMessage(DOMAIN_PREFIX, UnsignedDocument(claims))), signature)
    ensures
      var bytes := SealedBytes(UnsignedDocument(claims), keyId, signature);
      var r := Verify(c, keys, bytes, policy);
      && (r.Ok? <==>
            && |bytes| <= MAX_BYTES
            && claims.authorityDomain == policy.expectedAuthorityDomain
            && InWindow(claims.issuedAt, policy.now, claims.expiresAt))
      && (r.Ok? ==> r.value == VerifiedOf(claims))
  {
    var doc := WireAssertion(WireOf(claims), Components(keyId, signature));
    BuildersAgree(claims);
    VerifyReadsCanonical(c, keys, doc, policy);
    GenuineComponent(c, keys, keyId, raw, Seals.SignedMessage(DOMAIN_PREFIX, UnsignedDocument(claims)), signature);
  }

  /** No two different sets of claims share a signed message. */
  lemma SignedMessageInjective(x: Claims, y: Claims)
    requires Seals.SignedMessage(DOMAIN_PREFIX, UnsignedDocument(x)) == Seals.SignedMessage(DOMAIN_PREFIX, UnsignedDocument(y))
    ensures x == y
  {
    var front := DOMAIN_PREFIX + Seals.NUL;
    var a, b := Obj(UnsignedDocument(x)), Obj(UnsignedDocument(y));
    assert (front + CanonicalBytes(a))[|front|..] == CanonicalBytes(a);
    assert (front + CanonicalBytes(b))[|front|..] == CanonicalBytes(b);
    ParseCanonical(a);
    ParseCanonical(b);
    BuildersAgree(x);
    BuildersAgree(y);
    ClaimsReadBack(WireOf(x));
    ClaimsReadBack(WireOf(y));
    ContractStrings(PolicyDecided, Human, Success, x.aal);
    ContractStrings(PolicyDecided, Human, Success, y.aal);
  }
}
