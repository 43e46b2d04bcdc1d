/** What sealing guarantees to verification, and what verification guarantees to its
    caller. */
module AuditSealProofs {
  import opened Basics
  import opened Sorting
  import opened Json
  import opened Canonical
  import opened Documents
  import opened AuditDocument
  import opened AuditRoundTrip
  import opened AuditSeal

  // ----- size --------------------------------------------------------------------------

  predicate Plain(s: Bytes) {
    forall i | 0 <= i < |s| :: EscapeChar(s[i]) == [s[i]]
  }

  lemma {:induction false} PlainEscape(s: Bytes)
    requires Plain(s)
    ensures Escape(s) == s
  {
    if s != "" { PlainEscape(s[1..]); }
  }

  lemma {:induction false} HexIsPlain(bytes: Bytes)
    ensures Plain(HexEncode(bytes))
  {
    if bytes != "" {
      HexIsPlain(bytes[1..]);
      var n := bytes[0] as int;
      assert IsHexDigit(HexDigit(n / 16)) && IsHexDigit(HexDigit(n % 16));
    }
  }

  /** The size of a signature object depends on its hexadecimal value only through the
      length of that value. */
  lemma SignatureSize(keyId: Bytes, x: Bytes, y: Bytes)
    requires Plain(x) && Plain(y) && |x| == |y|
    ensures |CanonicalBytes(SignatureValue(SealSignature(keyId, x)))| ==
            |CanonicalBytes(SignatureValue(SealSignature(keyId, y)))|
  {
    PlainEscape(x);
    PlainEscape(y);
    ComponentSize(keyId, x);
    ComponentSize(keyId, y);
    SignatureObjectSize(WireComponent(COMPONENT_V1, keyId, x));
    SignatureObjectSize(WireComponent(COMPONENT_V1, keyId, y));
  }

  lemma ComponentSize(keyId: Bytes, value: Bytes)
    ensures |CanonicalBytes(Obj(Build(ComponentSlots(WireComponent(COMPONENT_V1, keyId, value)))))| ==
      |CanonicalBytes(Obj([Entry("component", Str(COMPONENT_V1)), Entry("key_id", Str(keyId))]))|
      + 1 + |Quote("value")| + 1 + |Quote(value)|
  {
    var first: Slots := [Entry("component", Some(Str(COMPONENT_V1)))];
    var second := Entry("key_id", Str(keyId));
    var third := Entry("value", Str(value));
    BuildOne("component", Str(COMPONENT_V1));
    BuildAppend(first, second);
    var front: Slots := first + [Entry("key_id", Some(Str(keyId)))];
    BuildAppend(front, third);
    assert ComponentSlots(WireComponent(COMPONENT_V1, keyId, value)) == front + [Entry("value", Some(Str(value)))];
    var members := [Entry("component", Str(COMPONENT_V1)), second];
    assert Build(front) == members;
    ObjectSizeAfterInsert(members, third);
  }

  lemma ArrayOfOneSize(v: Json)
    ensures |CanonicalBytes(Arr([v]))| == 2 + |CanonicalBytes(v)|
  {
    var printed := CanonItems([v]);
    assert printed == [Canon(v)];
    assert printed[1..] == [];
    assert Canon(Arr([v])) == Arr(printed);
    assert Print(Arr(printed)) == "[" + Print(printed[0]) + PrintItems(printed[1..]) + "]";
  }

  lemma SignatureObjectSize(comp: WireComponent)
    ensures |CanonicalBytes(SignatureValue(WireSignature(SUITE_V1, [comp])))| ==
      |CanonicalBytes(Obj([Entry("suite", Str(SUITE_V1))]))|
      + 1 + |Quote("components")| + 1 + 2 + |CanonicalBytes(Obj(Build(ComponentSlots(comp))))|
  {
    var one := Obj(Build(ComponentSlots(comp)));
    assert ComponentsValue([comp]) == Arr([one]);
    ArrayOfOneSize(one);
    SignatureSizeWith(Arr([one]));
  }

  lemma SignatureSizeWith(list: Json)
    ensures |CanonicalBytes(Obj(Build([Entry("suite", Some(Str(SUITE_V1))), Entry("components", Some(list))])))| ==
      |CanonicalBytes(Obj([Entry("suite", Str(SUITE_V1))]))| + 1 + |Quote("components")| + 1 + |CanonicalBytes(list)|
  {
    SignatureMembers(list);
    ObjectSizeAfterInsert([Entry("suite", Str(SUITE_V1))], Entry("components", list));
  }

  lemma SignatureMembers(list: Json)
    ensures Build([Entry("suite", Some(Str(SUITE_V1))), Entry("components", Some(list))]) ==
      [Entry("suite", Str(SUITE_V1))] + [Entry("components", list)]
  {
    var first: Slots := [Entry("suite", Some(Str(SUITE_V1)))];
    BuildOne("suite", Str(SUITE_V1));
    BuildAppend(first, Entry("components", list));
    assert [Entry("suite", Some(Str(SUITE_V1))), Entry("components", Some(list))] ==
      first + [Entry("components", Some(list))];
  }

  lemma SignatureKeySize()
    ensures |Quote("signature")| + 1 == |"\"signature\":"|
  {
    assert Plain("signature");
    PlainEscape("signature");
  }

  /** The placeholder measurement is exact for every 64-octet signature. */
  lemma SealedSizeExact(unsigned: Members, keyId: Bytes, signature: Bytes)
    requires unsigned != [] && |signature| == 64
    ensures |SealedBytes(unsigned, keyId, signature)| ==
            |CanonicalBytes(Obj(unsigned))| + SignatureOverhead(keyId)
  {
    var zeros: Bytes := seq(128, _ => '0');
    var hex := HexEncode(signature);
    HexIsPlain(signature);
    SignatureSize(keyId, hex, zeros);
    ObjectSizeAfterInsert(unsigned, Entry("signature", SignatureValue(SealSignature(keyId, hex))));
    SignatureKeySize();
  }

  lemma UnsignedNotEmpty(b: WireBody)
    ensures UnsignedFromWire(b) != []
  {
  }

  /** The guard refuses an event exactly when its sealed form would be too large to be
      verified. */
  lemma SizeGuardExact(c: Crypto, keyId: Bytes, sign: Digest -> Option<Bytes>, f: EventFields)
    requires CouplingError(f.eventType, f.decision).None?
    requires var answer := sign(c.sha256(SignedMessage(DOMAIN_PREFIX_V1, UnsignedDocument(f))));
             answer.Some? && |answer.value| == 64
    ensures
      var signature := sign(c.sha256(SignedMessage(DOMAIN_PREFIX_V1, UnsignedDocument(f)))).value;
      var sealed := SealedBytes(UnsignedDocument(f), keyId, signature);
      && (|sealed| <= MAX_BYTES ==> Seal(c, keyId, sign, f) == Ok(sealed))
      && (|sealed| > MAX_BYTES ==> Seal(c, keyId, sign, f) == Err(InvalidFields("size")))
  {
    BuildersAgree(f);
    UnsignedNotEmpty(WireBodyOf(f));
    var signature := sign(c.sha256(SignedMessage(DOMAIN_PREFIX_V1, UnsignedDocument(f)))).value;
    SealedSizeExact(UnsignedDocument(f), keyId, signature);
  }

  // ----- verification reads canonical documents exactly ----------------------------------

  /** On the canonical bytes of any document, verification reaches the document checks
      with that very document; a document too large is refused for its size alone. */
  lemma VerifyReadsCanonical(c: Crypto, keys: seq<VerifyingKey>, doc: WireDocument, policy: AcceptancePolicy)
    ensures
      var bytes := CanonicalBytes(FullDocument(doc));
      Verify(c, keys, bytes, policy) ==
        if |bytes| > MAX_BYTES then Err(TooLarge) else CheckDocument(c, keys, bytes, doc, policy)
  {
    ParseCanonical(FullDocument(doc));
    DocumentReadBack(doc);
  }

  predicate KnownEventType(s: Bytes) {
    || s == "authenticator.registered" || s == "authenticator.revoked" || s == "authentication.attempted"
    || s == "authentication.succeeded" || s == "authentication.failed" || s == "recovery.initiated"
    || s == "quorum.operation" || s == "audit.chain_verified" || DecisionEvent(s)
  }

  /** The two kinds of events that report a decision. */
  predicate DecisionEvent(s: Bytes) {
    s == "policy.decided" || s == "credential.issued"
  }

  lemma EventTypesExact(s: Bytes)
    ensures EventTypeFromStr(s).Some? <==> KnownEventType(s)
    ensures EventTypeFromStr(s).Some? ==> (EventTypeFromStr(s).value.RequiresDecision() <==> DecisionEvent(s))
  {
  }

  /** A digest in hexadecimal of either case. */
  predicate DigestHex(s: Bytes) {
    |s| == 64 && AllHex(s)
  }

  lemma DigestHexExact(s: Bytes)
    ensures HexDecode(s).Some? && |HexDecode(s).value| == 32 <==> DigestHex(s)
  {
    HexDecodable(s);
  }

  /** The form of an accepted document, in its own texts. */
  predicate WellShaped(b: WireBody, suite: Bytes, policy: AcceptancePolicy) {
    && b.schemaVersion == 1
    && suite == "audit-seal/v1" && suite in policy.acceptedSuites
    && TextsFine(b)
  }

  /** The texts are the contract's, and a decision is there exactly when the type calls for it. */
  predicate TextsFine(b: WireBody) {
    && KnownEventType(b.eventType)
    && b.actor.kind in {"human", "workload", "system"}
    && b.outcome in {"success", "denied", "error"}
    && (b.decision.Some? <==> DecisionEvent(b.eventType))
    && (b.decision.Some? ==> |b.decision.value.reasons| <= 16 && DigestHex(b.decision.value.decisionHash))
  }

  /** Exactly one component, by a published key, that signs exactly this message. */
  ghost predicate SignedBy(c: Crypto, keys: seq<VerifyingKey>, message: Bytes, components: seq<WireComponent>) {
    exists keyId, value, raw, signature :: SignedAs(c, keys, message, components, keyId, value, raw, signature)
  }

  ghost predicate SignedAs(c: Crypto, keys: seq<VerifyingKey>, message: Bytes, components: seq<WireComponent>,
                           keyId: Bytes, value: Bytes, raw: Bytes, signature: Bytes) {
    && components == [WireComponent("ecdsa-p256", keyId, value)]
    && Published(keys, keyId, raw)
    && HexDecode(value) == Some(signature)
    && c.CheckMessage(raw, message, signature)
  }

  predicate InContext(b: WireBody, policy: AcceptancePolicy) {
    b.authorityDomain == policy.expectedAuthorityDomain && DigestHex(b.prevHash)
  }

  /** What an accepted document satisfies, said without the reader and the printer. */
  ghost predicate Acceptable(c: Crypto, keys: seq<VerifyingKey>, doc: WireDocument, policy: AcceptancePolicy) {
    && WellShaped(doc.body, doc.signature.suite, policy)
    && SignedBy(c, keys, SignedMessage(DOMAIN_PREFIX_V1, UnsignedFromWire(doc.body)), doc.signature.components)
    && InContext(doc.body, policy)
  }

  /** The one form of a signature that is accepted. */
  predicate OneEcdsa(components: seq<WireComponent>) {
    |components| == 1 && components[0].component == "ecdsa-p256"
  }

  /** Why the form of a document is refused, in the order of the checks. */
  function FormError(b: WireBody, signature: WireSignature, policy: AcceptancePolicy): Option<VerifyError> {
    if b.schemaVersion != 1 then Some(MalformedDocument)
    else if signature.suite !in policy.acceptedSuites then Some(UnknownSuite)
    else if !TextsFine(b) then Some(MalformedDocument)
    else if signature.suite != "audit-seal/v1" then Some(UnknownSuite)
    else if !OneEcdsa(signature.components) then Some(InvalidSignatureArity)
    else None
  }

  lemma ShapeExact(b: WireBody, signature: WireSignature, policy: AcceptancePolicy)
    ensures ShapeError(b, signature, policy) == FormError(b, signature, policy)
  {
    OneComponent(signature.components);
    EventTypesExact(b.eventType);
    KindsExact(b.actor.kind, b.outcome);
    if b.decision.Some? { DigestHexExact(b.decision.value.decisionHash); }
  }

  lemma KindsExact(kind: Bytes, outcome: Bytes)
    ensures ActorKindFromStr(kind).Some? <==> kind in {"human", "workload", "system"}
    ensures OutcomeFromStr(outcome).Some? <==> outcome in {"success", "denied", "error"}
  {
  }

  lemma OneComponent(components: seq<WireComponent>)
    ensures ComponentNames(components) == REQUIRED_COMPONENTS_V1 <==> OneEcdsa(components)
  {
    if |components| == 1 && components[0].component == COMPONENT_V1 {
      assert ComponentNames(components) == [components[0].component];
    }
    if ComponentNames(components) == REQUIRED_COMPONENTS_V1 {
      assert |ComponentNames(components)| == 1;
      assert ComponentNames(components)[0] == components[0].component;
    }
  }

  lemma OneChecked(c: Crypto, keys: seq<VerifyingKey>, message: Bytes, keyId: Bytes, value: Bytes)
    ensures
      var components := [WireComponent(COMPONENT_V1, keyId, value)];
      var r := CheckComponents(c, keys, message, components);
      && (r == Err(UnknownKeyId) <==> Unpublished(keys, keyId))
      && (r == Ok(true) <==> SignedBy(c, keys, message, components))
      && (r.Ok? ==> HexDecode(value).Some?)
      && (r.Err? ==> r == Err(UnknownKeyId) || r == Err(InvalidSignature))
  {
    var components := [WireComponent(COMPONENT_V1, keyId, value)];
    assert components[1..] == [];
    FindKeyExact(keys, keyId);
    var key, decoded := FindKey(keys, keyId), HexDecode(value);
    if key.Some? && decoded.Some? && c.CheckMessage(key.value, message, decoded.value) {
      assert SignedAs(c, keys, message, components, keyId, value, key.value, decoded.value);
    }
    if SignedBy(c, keys, message, components) {
      var k, v, raw, signature :| SignedAs(c, keys, message, components, k, v, raw, signature);
      assert components[0] == WireComponent(COMPONENT_V1, k, v);
    }
  }

  lemma SignedByExact(c: Crypto, keys: seq<VerifyingKey>, message: Bytes, components: seq<WireComponent>)
    ensures SignedBy(c, keys, message, components) <==>
      ComponentNames(components) == REQUIRED_COMPONENTS_V1 && CheckComponents(c, keys, message, components) == Ok(true)
  {
    OneComponent(components);
    if |components| == 1 && components[0].component == COMPONENT_V1 {
      assert components == [WireComponent(COMPONENT_V1, components[0].keyId, components[0].value)];
      OneChecked(c, keys, message, components[0].keyId, components[0].value);
    }
  }

  lemma CheckPartsExact(c: Crypto, keys: seq<VerifyingKey>, canonical: bool, message: Bytes, b: WireBody,
                        signature: WireSignature, policy: AcceptancePolicy)
    ensures CheckParts(c, keys, canonical, message, b, signature, policy).Ok? <==>
      && canonical && WellShaped(b, signature.suite, policy)
      && SignedBy(c, keys, message, signature.components) && InContext(b, policy)
    ensures CheckParts(c, keys, canonical, message, b, signature, policy).Ok? ==>
      CheckParts(c, keys, canonical, message, b, signature, policy) == Report(b, policy)
  {
    ShapeExact(b, signature, policy);
    SignedByExact(c, keys, message, signature.components);
    DigestHexExact(b.prevHash);
    EventTypesExact(b.eventType);
  }

  lemma CheckDocumentExact(c: Crypto, keys: seq<VerifyingKey>, bytes: Bytes, doc: WireDocument, policy: AcceptancePolicy)
    ensures CheckDocument(c, keys, bytes, doc, policy).Ok? <==>
      Acceptable(c, keys, doc, policy) && bytes == CanonicalBytes(FullDocument(doc))
  {
    CheckPartsExact(c, keys, CanonicalBytes(FullDocument(doc)) == bytes,
                    SignedMessage(DOMAIN_PREFIX_V1, UnsignedFromWire(doc.body)), doc.body, doc.signature, policy);
  }

  /** Verification accepts exactly the canonical encodings of acceptable documents that
      respect the size limit. */
  lemma VerifyExact(c: Crypto, keys: seq<VerifyingKey>, bytes: Bytes, policy: AcceptancePolicy)
    ensures Verify(c, keys, bytes, policy).Ok? <==>
      |bytes| <= MAX_BYTES &&
      exists doc :: Acceptable(c, keys, doc, policy) && bytes == CanonicalBytes(FullDocument(doc))
  {
    if Verify(c, keys, bytes, policy).Ok? {
      var doc := ReadDocument(Parse(bytes).value).value;
      CheckDocumentExact(c, keys, bytes, doc, policy);
    }
    if |bytes| <= MAX_BYTES && exists doc :: Acceptable(c, keys, doc, policy) && bytes == CanonicalBytes(FullDocument(doc)) {
      var doc :| Acceptable(c, keys, doc, policy) && bytes == CanonicalBytes(FullDocument(doc));
      VerifyReadsCanonical(c, keys, doc, policy);
      CheckDocumentExact(c, keys, bytes, doc, policy);
    }
  }

  /** What it reports of such a document is what the document says. */
  lemma VerifyReports(c: Crypto, keys: seq<VerifyingKey>, doc: WireDocument, policy: AcceptancePolicy)
    requires Acceptable(c, keys, doc, policy) && |CanonicalBytes(FullDocument(doc))| <= MAX_BYTES
    ensures
      var b, v := doc.body, Verify(c, keys, CanonicalBytes(FullDocument(doc)), policy);
      && v.Ok?
      && v.value.eventId == b.eventId && v.value.sequence == b.sequence && v.value.occurredAt == b.occurredAt
      && v.value.authorityDomain == b.authorityDomain && v.value.eventType.ContractStr() == b.eventType
      && HexEncode(v.value.prevHash) == LowerText(b.prevHash)
  {
    VerifyReadsCanonical(c, keys, doc, policy);
    CheckPartsExact(c, keys, true, SignedMessage(DOMAIN_PREFIX_V1, UnsignedFromWire(doc.body)), doc.body, doc.signature, policy);
    DigestHexExact(doc.body.prevHash);
    HexDecodeExact(doc.body.prevHash);
  }

  /** Why a canonical document is refused, in the order of the checks: size, form, key,
      signature, domain, link. */
  lemma VerifyRefuses(c: Crypto, keys: seq<VerifyingKey>, doc: WireDocument, policy: AcceptancePolicy)
    ensures
      var bytes, b, components := CanonicalBytes(FullDocument(doc)), doc.body, doc.signature.components;
      var r := Verify(c, keys, bytes, policy);
      var form := FormError(b, doc.signature, policy);
      var signed := SignedBy(c, keys, SignedMessage(DOMAIN_PREFIX_V1, UnsignedFromWire(b)), components);
      && (r == Err(TooLarge) <==> |bytes| > 8192)
      && (|bytes| <= 8192 && form.Some? ==> r == Err(form.value))
      && (|bytes| <= 8192 && form.None? ==>
            && (r == Err(UnknownKeyId) <==> Unpublished(keys, components[0].keyId))
            && (r == Err(InvalidSignature) <==> !Unpublished(keys, components[0].keyId) && !signed)
            && (r == Err(UnexpectedAuthorityDomain) <==> signed && b.authorityDomain != policy.expectedAuthorityDomain)
            && (r == Err(MalformedDocument) <==>
                  signed && b.authorityDomain == policy.expectedAuthorityDomain && !DigestHex(b.prevHash)))
  {
    VerifyReadsCanonical(c, keys, doc, policy);
    PartsRefuse(c, keys, SignedMessage(DOMAIN_PREFIX_V1, UnsignedFromWire(doc.body)), doc.body, doc.signature, policy);
  }

  lemma PartsRefuse(c: Crypto, keys: seq<VerifyingKey>, message: Bytes, b: WireBody, signature: WireSignature,
                    policy: AcceptancePolicy)
    ensures
      var components := signature.components;
      var r := CheckParts(c, keys, true, message, b, signature, policy);
      var form := FormError(b, signature, policy);
      var signed := SignedBy(c, keys, message, components);
      && r != Err(TooLarge)
      && (form.Some? ==> r == Err(form.value))
      && (form.None? ==>
            && (r == Err(UnknownKeyId) <==> Unpublished(keys, components[0].keyId))
            && (r == Err(InvalidSignature) <==> !Unpublished(keys, components[0].keyId) && !signed)
            && (r == Err(UnexpectedAuthorityDomain) <==> signed && b.authorityDomain != policy.expectedAuthorityDomain)
            && (r == Err(MalformedDocument) <==>
                  signed && b.authorityDomain == policy.expectedAuthorityDomain && !DigestHex(b.prevHash)))
  {
    var components := signature.components;
    ShapeExact(b, signature, policy);
    EventTypesExact(b.eventType);
    DigestHexExact(b.prevHash);
    if OneEcdsa(components) {
      assert components == [WireComponent(COMPONENT_V1, components[0].keyId, components[0].value)];
      OneChecked(c, keys, message, components[0].keyId, components[0].value);
    }
  }

  /** What cannot be read at all is malformed. */
  lemma UnreadableRefused(c: Crypto, keys: seq<VerifyingKey>, bytes: Bytes, policy: AcceptancePolicy)
    requires |bytes| <= 8192
    requires forall v :: Parse(bytes) == Some(v) ==> ReadDocument(v).None?
    ensures Verify(c, keys, bytes, policy) == Err(MalformedDocument)
  {
  }

  /** What can be read and has the right form, but is not the canonical writing of what it
      says, is refused as such. */
  lemma RewritingRefused(c: Crypto, keys: seq<VerifyingKey>, bytes: Bytes, v: Json, doc: WireDocument, policy: AcceptancePolicy)
    requires |bytes| <= 8192 && Parse(bytes) == Some(v) && ReadDocument(v) == Some(doc)
    ensures Verify(c, keys, bytes, policy) == Err(NonCanonical) <==>
      FormError(doc.body, doc.signature, policy).None? && bytes != CanonicalBytes(FullDocument(doc))
  {
    PartsNonCanonical(c, keys, CanonicalBytes(FullDocument(doc)) == bytes,
                      SignedMessage(DOMAIN_PREFIX_V1, UnsignedFromWire(doc.body)), doc.body, doc.signature, policy);
  }

  lemma PartsNonCanonical(c: Crypto, keys: seq<VerifyingKey>, canonical: bool, message: Bytes, b: WireBody,
                          signature: WireSignature, policy: AcceptancePolicy)
    ensures CheckParts(c, keys, canonical, message, b, signature, policy) == Err(NonCanonical) <==>
      FormError(b, signature, policy).None? && !canonical
  {
    var components := signature.components;
    ShapeExact(b, signature, policy);
    if OneEcdsa(components) {
      assert components == [WireComponent(COMPONENT_V1, components[0].keyId, components[0].value)];
      OneChecked(c, keys, message, components[0].keyId, components[0].value);
    }
  }

  // ----- sealing, exactly ---------------------------------------------------------------------

  /** An event reports a decision exactly when its type calls for one. */
  predicate Coupled(f: EventFields) {
    f.decision.Some? <==> f.eventType == PolicyDecided || f.eventType == CredentialIssued
  }

  predicate FewReasons(f: EventFields) {
    f.decision.Some? ==> |f.decision.value.reasons| <= 16
  }

  /** Exactly when sealing succeeds, with what, and why it fails. `any` stands for any
      signature of the device's length: the size does not depend on it. */
  lemma SealExact(c: Crypto, keyId: Bytes, sign: Digest -> Option<Bytes>, f: EventFields, any: Bytes)
    requires |any| == 64
    requires
      var answer := sign(c.sha256(SignedMessage(DOMAIN_PREFIX_V1, UnsignedDocument(f))));
      answer.Some? ==> |answer.value| == 64
    ensures
      var answer := sign(c.sha256(SignedMessage(DOMAIN_PREFIX_V1, UnsignedDocument(f))));
      var r, fits := Seal(c, keyId, sign, f), |SealedBytes(UnsignedDocument(f), keyId, any)| <= 8192;
      && (r.Ok? <==> Coupled(f) && FewReasons(f) && fits && answer.Some?)
      && (r.Ok? ==> r.value == SealedBytes(UnsignedDocument(f), keyId, answer.value))
      && (r == Err(InvalidFields("decision")) <==> !Coupled(f))
      && (r == Err(InvalidFields("decision.reasons")) <==> Coupled(f) && !FewReasons(f))
      && (r == Err(InvalidFields("size")) <==> Coupled(f) && FewReasons(f) && !fits)
      && (r == Err(SealingUnavailable) <==> Coupled(f) && FewReasons(f) && fits && answer.None?)
  {
    BuildersAgree(f);
    UnsignedNotEmpty(WireBodyOf(f));
    SealedSizeExact(UnsignedDocument(f), keyId, any);
    ErrorTexts();
  }

  lemma ErrorTexts()
    ensures "decision" != "decision.reasons" && "decision" != "size" && "decision.reasons" != "size"
  {
    assert |"decision"| == 8 && |"decision.reasons"| == 16 && |"size"| == 4;
  }

  // ----- sealing and then verifying -------------------------------------------------------

  /** The facts a verifier must share with the sealer. */
  ghost predicate Matching(keys: seq<VerifyingKey>, policy: AcceptancePolicy, keyId: Bytes, raw: Bytes, f: EventFields) {
    && Published(keys, keyId, raw)
    && SUITE_V1 in policy.acceptedSuites
    && policy.expectedAuthorityDomain == f.authorityDomain
  }

  function VerifiedOf(f: EventFields): VerifiedEvent {
    VerifiedEvent(f.eventId, f.sequence, f.prevHash, f.occurredAt, f.authorityDomain, f.eventType)
  }

  lemma SealedDocument(f: EventFields, keyId: Bytes, signature: Bytes)
    ensures SealedBytes(UnsignedDocument(f), keyId, signature) ==
      CanonicalBytes(FullDocument(WireDocument(WireBodyOf(f), SealSignature(keyId, HexEncode(signature)))))
  {
    BuildersAgree(f);
  }

  lemma SealedBodyPasses(f: EventFields, policy: AcceptancePolicy)
    requires CouplingError(f.eventType, f.decision).None?
    requires SUITE_V1 in policy.acceptedSuites && policy.expectedAuthorityDomain == f.authorityDomain
    ensures WellShaped(WireBodyOf(f), SUITE_V1, policy) && InContext(WireBodyOf(f), policy)
    ensures Report(WireBodyOf(f), policy) == Ok(VerifiedOf(f))
  {
    ContractStrings(f.eventType, f.actor.kind, f.outcome, Aal1);
    EventTypesExact(f.eventType.ContractStr());
    KindsExact(f.actor.kind.ContractStr(), f.outcome.ContractStr());
    HexRoundTrip(f.prevHash);
    DigestHexExact(HexEncode(f.prevHash));
    if f.decision.Some? {
      HexRoundTrip(f.decision.value.decisionHash);
      DigestHexExact(HexEncode(f.decision.value.decisionHash));
    }
  }

  /** Every event that sealing produces is accepted by verification, with its identity,
      position, link, time, domain and type intact. */
  lemma SealThenVerify(c: Crypto, keys: seq<VerifyingKey>, policy: AcceptancePolicy,
                       keyId: Bytes, raw: Bytes, sign: Digest -> Option<Bytes>, f: EventFields)
    requires Seal(c, keyId, sign, f).Ok?
    requires Matching(keys, policy, keyId, raw, f)
    requires var digest := c.sha256(SignedMessage(DOMAIN_PREFIX_V1, UnsignedDocument(f)));
             sign(digest).Some? ==> c.Genuine(raw, digest, sign(digest).value)
    ensures Verify(c, keys, Seal(c, keyId, sign, f).value, policy) == Ok(VerifiedOf(f))
  {
    var message := SignedMessage(DOMAIN_PREFIX_V1, UnsignedDocument(f));
    var signature := sign(c.sha256(message)).value;
    var bytes := SealedBytes(UnsignedDocument(f), keyId, signature);
    SizeGuardExact(c, keyId, sign, f);
    SealedVerifies(c, keys, policy, keyId, raw, f, signature);
  }

  lemma SealedVerifies(c: Crypto, keys: seq<VerifyingKey>, policy: AcceptancePolicy,
                       keyId: Bytes, raw: Bytes, f: EventFields, signature: Bytes)
    requires CouplingError(f.eventType, f.decision).None?
    requires Matching(keys, policy, keyId, raw, f)
    requires c.Genuine(raw, c.sha256(SignedMessage(DOMAIN_PREFIX_V1, UnsignedDocument(f))), signature)
    requires |SealedBytes(UnsignedDocument(f), keyId, signature)| <= MAX_BYTES
    ensures Verify(c, keys, SealedBytes(UnsignedDocument(f), keyId, signature), policy) == Ok(VerifiedOf(f))
  {
    var doc := WireDocument(WireBodyOf(f), SealSignature(keyId, HexEncode(signature)));
    BuildersAgree(f);
    SealedDocument(f, keyId, signature);
    VerifyReadsCanonical(c, keys, doc, policy);
    var message := SignedMessage(DOMAIN_PREFIX_V1, UnsignedDocument(f));
    SealedPartsPass(c, keys, policy, keyId, raw, message, f, signature);
  }

  lemma SealedPartsPass(c: Crypto, keys: seq<VerifyingKey>, policy: AcceptancePolicy,
                        keyId: Bytes, raw: Bytes, message: Bytes, f: EventFields, signature: Bytes)
    requires CouplingError(f.eventType, f.decision).None?
    requires Matching(keys, policy, keyId, raw, f)
    requires c.Genuine(raw, c.sha256(message), signature)
    ensures CheckParts(c, keys, true, message, WireBodyOf(f), SealSignature(keyId, HexEncode(signature)), policy) ==
      Ok(VerifiedOf(f))
  {
    var sig := SealSignature(keyId, HexEncode(signature));
    SealedBodyPasses(f, policy);
    SealedComponentPasses(c, keys, keyId, raw, message, signature);
    CheckPartsExact(c, keys, true, message, WireBodyOf(f), sig, policy);
  }

  lemma SealedComponentPasses(c: Crypto, keys: seq<VerifyingKey>, keyId: Bytes, raw: Bytes, message: Bytes, signature: Bytes)
    requires Published(keys, keyId, raw) && c.Genuine(raw, c.sha256(message), signature)
    ensures SignedBy(c, keys, message, SealSignature(keyId, HexEncode(signature)).components)
  {
    HexRoundTrip(signature);
    var components := SealSignature(keyId, HexEncode(signature)).components;
    assert SignedAs(c, keys, message, components, keyId, HexEncode(signature), raw, signature);
  }

  // ----- the signed message determines the event ------------------------------------------

  lemma WireDecisionInjective(a: Decision, b: Decision)
    requires WireDecisionOf(a) == WireDecisionOf(b)
    ensures a == b
  {
    HexRoundTrip(a.decisionHash);
    HexRoundTrip(b.decisionHash);
    if a.signature.Some? && b.signature.Some? {
      HexRoundTrip(a.signature.value);
      HexRoundTrip(b.signature.value);
    }
  }

  lemma WireBodyInjective(f: EventFields, g: EventFields)
    requires WireBodyOf(f) == WireBodyOf(g)
    ensures f == g
  {
    ContractStrings(f.eventType, f.actor.kind, f.outcome, if f.actor.aal.Some? then f.actor.aal.value else Aal1);
    ContractStrings(g.eventType, g.actor.kind, g.outcome, if g.actor.aal.Some? then g.actor.aal.value else Aal1);
    HexRoundTrip(f.prevHash);
    HexRoundTrip(g.prevHash);
    assert f.actor == g.actor;
    if f.decision.Some? { WireDecisionInjective(f.decision.value, g.decision.value); }
  }

  /** No two different events share a signed message, so a signature speaks for every
      field of one event only. */
  lemma SignedMessageInjective(f: EventFields, g: EventFields)
    requires SignedMessage(DOMAIN_PREFIX_V1, UnsignedDocument(f)) == SignedMessage(DOMAIN_PREFIX_V1, UnsignedDocument(g))
    ensures f == g
  {
    var x, y := Obj(UnsignedDocument(f)), Obj(UnsignedDocument(g));
    var front := DOMAIN_PREFIX_V1 + NUL;
    assert (front + CanonicalBytes(x))[|front|..] == CanonicalBytes(x);
    assert (front + CanonicalBytes(y))[|front|..] == CanonicalBytes(y);
    ParseCanonical(x);
    ParseCanonical(y);
    BuildersAgree(f);
    BuildersAgree(g);
    BodyReadBack(WireBodyOf(f));
    BodyReadBack(WireBodyOf(g));
    WireBodyInjective(f, g);
  }
}
