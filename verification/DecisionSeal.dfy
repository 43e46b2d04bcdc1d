/** The signed content of a policy decision (suite `decision-seal/v1`). */
module DecisionSeal {
  import opened Basics
  import opened Sorting
  import opened Json
  import opened Canonical
  import opened Documents
  import opened Fields
  import Seals = AuditSeal

  const SUITE_V1: Bytes := "decision-seal/v1"
  const DOMAIN_PREFIX: Bytes := "zero-secret/decision-seal/v1"

  datatype DecisionFields = DecisionFields(
    requestId: Bytes,
    decisionHash: Octets,
    policyVersion: Bytes,
    effectAllow: bool,
    reasons: seq<Bytes>,
    maxTtlSeconds: U64,
    constraints: seq<Bytes>,
    issuedAt: Timestamp)

  datatype VerifyError = MissingSignature | UnknownKeyId | InvalidSignature

  function EffectText(allow: bool): Bytes {
    if allow then "ALLOW" else "DENY"
  }

  function FieldSlots(f: DecisionFields): Slots {
    [Entry("suite", Some(Str(SUITE_V1))),
     Entry("request_id", Some(Str(f.requestId))),
     Entry("decision_hash", Some(Str(HexEncode(f.decisionHash)))),
     Entry("policy_version", Some(Str(f.policyVersion))),
     Entry("effect", Some(Str(EffectText(f.effectAllow)))),
     Entry("reasons", Some(StrArray(f.reasons))),
     Entry("max_ttl_seconds", Some(Num(f.maxTtlSeconds))),
     Entry("constraints", Some(StrArray(f.constraints))),
     Entry("issued_at", Some(Str(f.issuedAt)))]
  }

  function SignedMessage(f: DecisionFields): Bytes {
    Seals.SignedMessage(DOMAIN_PREFIX, Build(FieldSlots(f)))
  }

  /** An unsigned decision is refused as such, before any key is looked up. */
  function Verify(c: Crypto, keys: seq<Seals.VerifyingKey>, f: DecisionFields, keyId: Bytes, signature: Bytes)
    : Option<VerifyError>
  {
    if keyId == "" || signature == "" then Some(MissingSignature)
    else
      match Seals.FindKey(keys, keyId)
      case None => Some(UnknownKeyId)
      case Some(raw) => if c.CheckMessage(raw, SignedMessage(f), signature) then None else Some(InvalidSignature)
  }

  // ----- the message determines the fields ---------------------------------------------------

  const FIELD_KEYS: seq<Bytes> :=
    ["suite", "request_id", "decision_hash", "policy_version", "effect", "reasons", "max_ttl_seconds",
     "constraints", "issued_at"]

  lemma FieldSlotsDistinct(f: DecisionFields)
    ensures DistinctKeys(FieldSlots(f)) && KeysKnown(FieldSlots(f), FIELD_KEYS)
  {
  }

  lemma HeldTexts(v: Json, f: DecisionFields)
    requires Holds(v, FieldSlots(f), FIELD_KEYS)
    ensures ReadStr(v.members, "request_id") == Some(f.requestId)
    ensures ReadStr(v.members, "decision_hash") == Some(HexEncode(f.decisionHash))
    ensures ReadStr(v.members, "policy_version") == Some(f.policyVersion)
  {
    HeldStr(v, FieldSlots(f), FIELD_KEYS, 1, f.requestId);
    HeldStr(v, FieldSlots(f), FIELD_KEYS, 2, HexEncode(f.decisionHash));
    HeldStr(v, FieldSlots(f), FIELD_KEYS, 3, f.policyVersion);
  }

  lemma HeldVerdict(v: Json, f: DecisionFields)
    requires Holds(v, FieldSlots(f), FIELD_KEYS)
    ensures ReadStr(v.members, "effect") == Some(EffectText(f.effectAllow))
    ensures ReadNum(v.members, "max_ttl_seconds", U64_LIMIT) == Some(f.maxTtlSeconds)
    ensures ReadStr(v.members, "issued_at") == Some(f.issuedAt)
  {
    HeldStr(v, FieldSlots(f), FIELD_KEYS, 4, EffectText(f.effectAllow));
    HeldNum(v, FieldSlots(f), FIELD_KEYS, 6, f.maxTtlSeconds, U64_LIMIT);
    HeldStr(v, FieldSlots(f), FIELD_KEYS, 8, f.issuedAt);
  }

  lemma HeldLists(v: Json, f: DecisionFields)
    requires Holds(v, FieldSlots(f), FIELD_KEYS)
    ensures ReadStrings(v.members, "reasons") == Some(f.reasons)
    ensures ReadStrings(v.members, "constraints") == Some(f.constraints)
  {
    HeldStrings(v, FieldSlots(f), FIELD_KEYS, 5, f.reasons);
    HeldStrings(v, FieldSlots(f), FIELD_KEYS, 7, f.constraints);
  }

  lemma SameDocument(v: Json, f: DecisionFields, g: DecisionFields)
    requires Holds(v, FieldSlots(f), FIELD_KEYS) && Holds(v, FieldSlots(g), FIELD_KEYS)
    ensures f == g
  {
    HeldTexts(v, f);
    HeldTexts(v, g);
    HeldVerdict(v, f);
    HeldVerdict(v, g);
    HeldLists(v, f);
    HeldLists(v, g);
    HexRoundTrip(f.decisionHash);
    HexRoundTrip(g.decisionHash);
  }

  /** No two different decisions share a signed message, so a signature speaks for the
      effect, the reasons, the lifetime, the constraints and the time together. */
  lemma SignedMessageInjective(f: DecisionFields, g: DecisionFields)
    requires SignedMessage(f) == SignedMessage(g)
    ensures f == g
  {
    var front := DOMAIN_PREFIX + Seals.NUL;
    var a, b := Obj(Build(FieldSlots(f))), Obj(Build(FieldSlots(g)));
    assert (front + CanonicalBytes(a))[|front|..] == CanonicalBytes(a);
    assert (front + CanonicalBytes(b))[|front|..] == CanonicalBytes(b);
    ParseCanonical(a);
    ParseCanonical(b);
    FieldSlotsDistinct(f);
    FieldSlotsDistinct(g);
    var v := BuildHolds(FieldSlots(f), FIELD_KEYS);
    var w := BuildHolds(FieldSlots(g), FIELD_KEYS);
    SameDocument(v, f, g);
  }

  /** What the document says about a decision, under the names of the contract. */
  predicate Says(ms: Members, f: DecisionFields) {
    && ReadStr(ms, "suite") == Some("decision-seal/v1")
    && ReadStr(ms, "request_id") == Some(f.requestId)
    && ReadStr(ms, "decision_hash") == Some(HexEncode(f.decisionHash))
    && ReadStr(ms, "policy_version") == Some(f.policyVersion)
    && ReadStr(ms, "effect") == Some(if f.effectAllow then "ALLOW" else "DENY")
    && ReadStrings(ms, "reasons") == Some(f.reasons)
    && ReadNum(ms, "max_ttl_seconds", U64_LIMIT) == Some(f.maxTtlSeconds)
    && ReadStrings(ms, "constraints") == Some(f.constraints)
    && ReadStr(ms, "issued_at") == Some(f.issuedAt)
  }

  lemma HeldSays(v: Json, f: DecisionFields)
    requires Holds(v, FieldSlots(f), FIELD_KEYS)
    ensures Says(v.members, f)
  {
    HeldStr(v, FieldSlots(f), FIELD_KEYS, 0, SUITE_V1);
    HeldTexts(v, f);
    HeldVerdict(v, f);
    HeldLists(v, f);
  }

  /** The signed message is the prefix of the suite, a NUL, and a text that reads as a
      document that says exactly this. */
  lemma MessageSays(f: DecisionFields) returns (text: Bytes, ms: Members)
    ensures SignedMessage(f) == "zero-secret/decision-seal/v1" + [0 as char] + text
    ensures Parse(text) == Some(Obj(ms)) && Says(ms, f)
  {
    text := CanonicalBytes(Obj(Build(FieldSlots(f))));
    ParseCanonical(Obj(Build(FieldSlots(f))));
    FieldSlotsDistinct(f);
    var v := BuildHolds(FieldSlots(f), FIELD_KEYS);
    HeldSays(v, f);
    ms := v.members;
  }
}
