/** The audit log with its real services, and what an auditor can conclude from it. */
module AuditTrail {
  import opened Basics
  import opened Fields
  import opened AuditDocument
  import opened AuditSeal
  import opened AuditSealProofs
  import opened SealerGate
  import opened Chain
  import opened AuditStore
  import opened AuditLog

  // ----- the real services ---------------------------------------------------------------

  function PolicyFor(domain: Bytes): AcceptancePolicy {
    AcceptancePolicy([SUITE_V1], domain)
  }

  /** A device with a published key answers genuinely or not at all. */
  function Signing(c: Crypto, keys: seq<VerifyingKey>, device: Device): Digest -> Option<Bytes> {
    var key := FindKey(keys, device.keyId);
    (digest: Digest) =>
      if key.Some? && device.answer.Some? && c.Genuine(key.value, digest, device.answer.value) then device.answer
      else None
  }

  function SealWith(c: Crypto, keys: seq<VerifyingKey>, device: Device, f: EventFields): Option<Bytes> {
    var sealed := Seal(c, device.keyId, Signing(c, keys, device), f);
    if sealed.Ok? then Some(sealed.value) else None
  }

  function CheckFor(c: Crypto, keys: seq<VerifyingKey>, domain: Bytes, sealed: Bytes): Option<VerifiedEvent> {
    var v := Verify(c, keys, sealed, PolicyFor(domain));
    if v.Ok? then Some(v.value) else None
  }

  /** How an auditor with these keys reads sealed bytes, for one domain. */
  function ReadingOf(c: Crypto, keys: seq<VerifyingKey>): (Bytes, Bytes) -> Option<VerifiedEvent> {
    (domain, sealed) => CheckFor(c, keys, domain, sealed)
  }

  function Gate(req: SealRequest): Option<EventFields> {
    var fields := FieldsFromRequest(req);
    if fields.Ok? then Some(fields.value) else None
  }

  function ServicesOf(c: Crypto, keys: seq<VerifyingKey>): Services {
    Services(
      c.sha256,
      req => Gate(req),
      (device, f) => SealWith(c, keys, device, f),
      ReadingOf(c, keys))
  }

  /** The device holds the key published under its identifier, and answers with a genuine
      signature by it. */
  ghost predicate Answers(c: Crypto, keys: seq<VerifyingKey>, device: Device, digest: Digest) {
    device.answer.Some? && exists raw :: Published(keys, device.keyId, raw) && c.Genuine(raw, digest, device.answer.value)
  }

  lemma SigningExact(c: Crypto, keys: seq<VerifyingKey>, device: Device, digest: Digest)
    ensures Signing(c, keys, device)(digest) == if Answers(c, keys, device, digest) then device.answer else None
  {
    FindKeyExact(keys, device.keyId);
    var key := FindKey(keys, device.keyId);
    if key.Some? { assert Published(keys, device.keyId, key.value); }
  }

  /** The real sealing answers exactly for a coupled event of few reasons that fits, when the
      device answers; `any` stands for any signature of its length. */
  lemma SealWithExact(c: Crypto, keys: seq<VerifyingKey>, device: Device, f: EventFields, any: Bytes)
    requires |any| == 64
    ensures
      var r := SealWith(c, keys, device, f);
      && (r.Some? <==>
            && Coupled(f) && FewReasons(f) && |SealedBytes(UnsignedDocument(f), device.keyId, any)| <= 8192
            && Answers(c, keys, device, c.sha256(SignedMessage(DOMAIN_PREFIX_V1, UnsignedDocument(f)))))
      && (r.Some? ==> r.value == SealedBytes(UnsignedDocument(f), device.keyId, device.answer.value))
  {
    SigningExact(c, keys, device, c.sha256(SignedMessage(DOMAIN_PREFIX_V1, UnsignedDocument(f))));
    SealExact(c, device.keyId, Signing(c, keys, device), f, any);
  }

  lemma SealedChecks(c: Crypto, keys: seq<VerifyingKey>, device: Device, f: EventFields)
    requires SealWith(c, keys, device, f).Some?
    ensures CheckFor(c, keys, f.authorityDomain, SealWith(c, keys, device, f).value) == Some(VerifiedOf(f))
  {
    var sign := Signing(c, keys, device);
    var digest := c.sha256(SignedMessage(DOMAIN_PREFIX_V1, UnsignedDocument(f)));
    assert sign(digest).Some?;
    var raw := FindKey(keys, device.keyId).value;
    FindKeyExact(keys, device.keyId);
    SealThenVerify(c, keys, PolicyFor(f.authorityDomain), device.keyId, raw, sign, f);
  }

  lemma GateKeepsPosition(req: SealRequest)
    ensures Gate(req).Some? ==> SamePosition(req, Gate(req).value)
  {
    if Gate(req).Some? { GateExact(req, Gate(req).value); }
  }

  lemma ServicesAreHonest(c: Crypto, keys: seq<VerifyingKey>)
    ensures Honest(ServicesOf(c, keys))
  {
    var cfg := ServicesOf(c, keys);
    forall req | cfg.gate(req).Some?
      ensures SamePosition(req, cfg.gate(req).value)
    {
      GateKeepsPosition(req);
    }
    forall device, f | cfg.seal(device, f).Some?
      ensures cfg.check(f.authorityDomain, cfg.seal(device, f).value) == Some(VerifiedOf(f))
    {
      SealedChecks(c, keys, device, f);
    }
  }

  /** Every reachable log, listed in any way that keeps each domain's order, passes the
      whole audit. */
  lemma EveryLogIsAccepted(c: Crypto, keys: seq<VerifyingKey>, actions: seq<Action>, listing: seq<Row>)
    requires ListingOf(listing, Run(ServicesOf(c, keys), Initial, actions).table)
    ensures forall domain ::
      Numbered(RowsOf(listing, domain)) && |RowsOf(listing, domain)| <= MAX_SAFE_INTEGER + 1
    ensures forall i | 0 <= i < |listing| :: Verified(ServicesOf(c, keys), listing[i])
    ensures Entries(ServicesOf(c, keys), listing).Some?
    ensures listing != [] ==> ChainAccepted(c, Entries(ServicesOf(c, keys), listing).value)
  {
    ServicesAreHonest(c, keys);
    EveryRunIsAccepted(ServicesOf(c, keys), c, actions, listing);
  }
}
