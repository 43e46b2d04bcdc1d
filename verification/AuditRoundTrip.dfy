/** What the document builders write, the strict reader reads back. */
module AuditRoundTrip {
  import opened Basics
  import opened Sorting
  import opened Json
  import opened Canonical
  import opened Documents
  import opened AuditDocument

  lemma ActorReadBack(a: WireActor)
    ensures ReadActor(Canon(Obj(Build(ActorSlots(a))))) == Some(a)
  {
    var slots := ActorSlots(a);
    var v := BuildHolds(slots, ACTOR_KEYS);
    HeldStr(v, slots, ACTOR_KEYS, 0, a.subjectId);
    HeldStr(v, slots, ACTOR_KEYS, 1, a.kind);
    HeldOptStr(v, slots, ACTOR_KEYS, 2, a.aal);
    HeldOptStr(v, slots, ACTOR_KEYS, 3, a.authMethod);
  }

  lemma TargetReadBack(t: WireTarget)
    ensures ReadTarget(Canon(Obj(Build(TargetSlots(t))))) == Some(t)
  {
    var slots := TargetSlots(t);
    var v := BuildHolds(slots, TARGET_KEYS);
    HeldStr(v, slots, TARGET_KEYS, 0, t.targetType);
    HeldStr(v, slots, TARGET_KEYS, 1, t.id);
  }

  lemma ContextReadBack(c: WireContext)
    ensures ReadContext(Canon(Obj(Build(ContextSlots(c))))) == Some(c)
  {
    var slots := ContextSlots(c);
    var v := BuildHolds(slots, CONTEXT_KEYS);
    HeldOptStr(v, slots, CONTEXT_KEYS, 0, c.sourceNetwork);
    HeldOptStr(v, slots, CONTEXT_KEYS, 1, c.ticketRef);
    HeldOptStr(v, slots, CONTEXT_KEYS, 2, c.justification);
  }

  lemma HeldDecision(v: Json, d: WireDecision)
    requires Holds(v, DecisionSlots(d), DECISION_KEYS)
    ensures ReadDecision(v) == Some(d)
  {
    var slots := DecisionSlots(d);
    HeldStr(v, slots, DECISION_KEYS, 0, d.requestId);
    HeldStr(v, slots, DECISION_KEYS, 1, d.decisionHash);
    HeldStr(v, slots, DECISION_KEYS, 2, d.policyVersion);
    HeldStrings(v, slots, DECISION_KEYS, 3, d.reasons);
    HeldOptU64(v, slots, DECISION_KEYS, 4, d.grantedTtl);
    HeldOptStr(v, slots, DECISION_KEYS, 5, d.signature);
    HeldOptStr(v, slots, DECISION_KEYS, 6, d.signatureKeyId);
  }

  lemma DecisionReadBack(d: WireDecision)
    ensures ReadDecision(Canon(Obj(Build(DecisionSlots(d))))) == Some(d)
  {
    var v := BuildHolds(DecisionSlots(d), DECISION_KEYS);
    HeldDecision(v, d);
  }

  lemma BodySlotsDistinct(b: WireBody)
    ensures DistinctKeys(BodySlots(b))
    ensures KeysKnown(BodySlots(b), DOCUMENT_KEYS)
  {
  }

  lemma HeldNumbers(v: Json, b: WireBody)
    requires Holds(v, BodySlots(b), DOCUMENT_KEYS)
    ensures ReadNum(v.members, "schema_version", U32_LIMIT) == Some(b.schemaVersion)
    ensures ReadNum(v.members, "sequence", U64_LIMIT) == Some(b.sequence)
  {
    HeldNum(v, BodySlots(b), DOCUMENT_KEYS, 0, b.schemaVersion, U32_LIMIT);
    HeldNum(v, BodySlots(b), DOCUMENT_KEYS, 2, b.sequence, U64_LIMIT);
  }

  lemma HeldIdentity(v: Json, b: WireBody)
    requires Holds(v, BodySlots(b), DOCUMENT_KEYS)
    ensures ReadStr(v.members, "event_id") == Some(b.eventId)
    ensures ReadStr(v.members, "prev_hash") == Some(b.prevHash)
  {
    HeldStr(v, BodySlots(b), DOCUMENT_KEYS, 1, b.eventId);
    HeldStr(v, BodySlots(b), DOCUMENT_KEYS, 3, b.prevHash);
  }

  lemma HeldTexts(v: Json, b: WireBody)
    requires Holds(v, BodySlots(b), DOCUMENT_KEYS)
    ensures ReadStr(v.members, "occurred_at") == Some(b.occurredAt)
    ensures ReadStr(v.members, "authority_domain") == Some(b.authorityDomain)
    ensures ReadStr(v.members, "event_type") == Some(b.eventType)
    ensures ReadStr(v.members, "outcome") == Some(b.outcome)
  {
    var slots := BodySlots(b);
    HeldStr(v, slots, DOCUMENT_KEYS, 4, b.occurredAt);
    HeldStr(v, slots, DOCUMENT_KEYS, 5, b.authorityDomain);
    HeldStr(v, slots, DOCUMENT_KEYS, 6, b.eventType);
    HeldStr(v, slots, DOCUMENT_KEYS, 9, b.outcome);
  }

  lemma HeldActor(v: Json, b: WireBody)
    requires Holds(v, BodySlots(b), DOCUMENT_KEYS)
    ensures Lookup(v.members, "actor") == Some(Canon(Obj(Build(ActorSlots(b.actor)))))
  {
    HeldValue(v, BodySlots(b), DOCUMENT_KEYS, 7);
  }

  lemma HeldTarget(v: Json, b: WireBody)
    requires Holds(v, BodySlots(b), DOCUMENT_KEYS)
    ensures ReadOptTarget(v.members) == Some(b.target)
  {
    HeldValue(v, BodySlots(b), DOCUMENT_KEYS, 8);
    if b.target.Some? { TargetReadBack(b.target.value); }
  }

  lemma HeldContext(v: Json, b: WireBody)
    requires Holds(v, BodySlots(b), DOCUMENT_KEYS)
    ensures ReadOptContext(v.members) == Some(b.context)
  {
    HeldValue(v, BodySlots(b), DOCUMENT_KEYS, 10);
    if b.context.Some? { ContextReadBack(b.context.value); }
  }

  lemma HeldOptDecision(v: Json, b: WireBody)
    requires Holds(v, BodySlots(b), DOCUMENT_KEYS)
    ensures ReadOptDecision(v.members) == Some(b.decision)
  {
    HeldValue(v, BodySlots(b), DOCUMENT_KEYS, 11);
    if b.decision.Some? { DecisionReadBack(b.decision.value); }
  }

  lemma HeldBody(v: Json, b: WireBody)
    requires Holds(v, BodySlots(b), DOCUMENT_KEYS)
    ensures ReadBody(v.members) == Some(b)
  {
    HeldNumbers(v, b);
    HeldIdentity(v, b);
    HeldTexts(v, b);
    HeldActor(v, b);
    ActorReadBack(b.actor);
    HeldTarget(v, b);
    HeldContext(v, b);
    HeldOptDecision(v, b);
  }

  /** An unsigned document reads back as the body it was built from. */
  lemma BodyReadBack(b: WireBody)
    ensures ReadBody(Canon(Obj(UnsignedFromWire(b))).members) == Some(b)
  {
    BodySlotsDistinct(b);
    var v := BuildHolds(BodySlots(b), DOCUMENT_KEYS);
    HeldBody(v, b);
  }

  // ----- signature ---------------------------------------------------------------------

  lemma ComponentReadBack(c: WireComponent)
    ensures ReadComponent(Canon(Obj(Build(ComponentSlots(c))))) == Some(c)
  {
    var slots := ComponentSlots(c);
    var v := BuildHolds(slots, COMPONENT_KEYS);
    HeldStr(v, slots, COMPONENT_KEYS, 0, c.component);
    HeldStr(v, slots, COMPONENT_KEYS, 1, c.keyId);
    HeldStr(v, slots, COMPONENT_KEYS, 2, c.value);
  }

  lemma {:induction false} ComponentsReadBack(items: seq<Json>, cs: seq<WireComponent>)
    requires |items| == |cs|
    requires forall i | 0 <= i < |cs| :: items[i] == Canon(Obj(Build(ComponentSlots(cs[i]))))
    ensures ReadComponents(items) == Some(cs)
  {
    if cs != [] {
      ComponentReadBack(cs[0]);
      ComponentsReadBack(items[1..], cs[1..]);
      assert cs == [cs[0]] + cs[1..];
    }
  }

  lemma SignatureReadBack(s: WireSignature)
    ensures ReadSignature(Canon(SignatureValue(s))) == Some(s)
  {
    var v := BuildHolds(SignatureSlots(s), SIGNATURE_KEYS);
    HeldSignature(v, s);
  }

  lemma HeldSignature(v: Json, s: WireSignature)
    requires Holds(v, SignatureSlots(s), SIGNATURE_KEYS)
    ensures ReadSignature(v) == Some(s)
  {
    HeldStr(v, SignatureSlots(s), SIGNATURE_KEYS, 0, s.suite);
    HeldValue(v, SignatureSlots(s), SIGNATURE_KEYS, 1);
    ComponentsReadBack(Canon(ComponentsValue(s.components)).items, s.components);
  }

  function DocumentSlots(doc: WireDocument): Slots {
    BodySlots(doc.body) + [Entry("signature", Some(SignatureValue(doc.signature)))]
  }

  lemma {:induction false} BuildAppend(slots: Slots, m: Entry<Json>)
    ensures Build(slots + [Entry(m.key, Some(m.value))]) == Build(slots) + [m]
  {
    var last := Entry(m.key, Some(m.value));
    if slots == [] {
      assert slots + [last] == [last];
      assert [last][1..] == [];
    } else {
      assert (slots + [last])[1..] == slots[1..] + [last];
      BuildAppend(slots[1..], m);
    }
  }

  lemma BuildOne(key: Bytes, v: Json)
    ensures Build([Entry(key, Some(v))]) == [Entry(key, v)]
  {
  }

  lemma DocumentSlotsDistinct(doc: WireDocument)
    ensures DistinctKeys(DocumentSlots(doc))
    ensures KeysKnown(DocumentSlots(doc), DOCUMENT_KEYS)
  {
  }

  /** Every signed document reads back as itself. */
  lemma DocumentReadBack(doc: WireDocument)
    ensures ReadDocument(Canon(FullDocument(doc))) == Some(doc)
  {
    var slots := DocumentSlots(doc);
    BuildAppend(BodySlots(doc.body), Entry("signature", SignatureValue(doc.signature)));
    DocumentSlotsDistinct(doc);
    var v := BuildHolds(slots, DOCUMENT_KEYS);
    forall i | 0 <= i < |BodySlots(doc.body)|
      ensures Lookup(v.members, BodySlots(doc.body)[i].key) == CanonOption(BodySlots(doc.body)[i].value)
    {
      assert slots[i] == BodySlots(doc.body)[i];
    }
    HeldBody(v, doc.body);
    HeldValue(v, slots, DOCUMENT_KEYS, |slots| - 1);
    SignatureReadBack(doc.signature);
  }
}
