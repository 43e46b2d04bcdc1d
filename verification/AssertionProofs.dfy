/** When exactly an identity assertion is accepted: its size and its window. */
module AssertionProofs {
  import opened Basics
  import opened Sorting
  import opened Json
  import opened Canonical
  import opened Documents
  import opened Fields
  import opened Rfc3339
  import opened Instants
  import Doc = AuditDocument
  import opened IdentityAssertion
  import Seals = AuditSeal
  import SealProofs = AuditSealProofs

  // ----- measuring objects -------------------------------------------------------------------

  /** What a member adds to an object: key, colon, value and one separator. */
  function MemberSize(m: Entry<Json>): nat {
    |Quote(m.key)| + |CanonicalBytes(m.value)| + 2
  }

  /** MemberSize(m) == n; the bound variable keeps the printer out of proofs that only add. */
  ghost predicate Measures(m: Entry<Json>, n: nat) {
    forall x :: x == m ==> MemberSize(x) == n
  }

  ghost predicate MeasuresAll(members: Members, sizes: seq<nat>) {
    |members| == |sizes| && forall i | 0 <= i < |members| :: Measures(members[i], sizes[i])
  }

  function Sum(sizes: seq<nat>): nat {
    if sizes == [] then 0 else Sum(sizes[..|sizes| - 1]) + sizes[|sizes| - 1]
  }

  lemma SumThen(front: seq<nat>, last: nat)
    ensures Sum(front + [last]) == Sum(front) + last
  {
    assert (front + [last])[..|front|] == front;
  }

  lemma {:induction false} ObjectMeasures(members: Members, sizes: seq<nat>)
    requires members != [] && MeasuresAll(members, sizes)
    ensures |CanonicalBytes(Obj(members))| == 1 + Sum(sizes)
  {
    var n := |members| - 1;
    assert Measures(members[n], sizes[n]);
    assert MemberSize(members[n]) == sizes[n];
    assert members == members[..n] + [members[n]];
    if n > 0 {
      ObjectMeasures(members[..n], sizes[..n]);
      ObjectSizeAfterInsert(members[..n], members[n]);
    } else {
      OneMemberSize(members[0]);
    }
  }

  lemma OneMemberSize(m: Entry<Json>)
    ensures |CanonicalBytes(Obj([m]))| == 1 + MemberSize(m)
  {
    ObjectSize([m]);
    var one := CanonMembers([m]);
    assert one == [Entry(m.key, Canon(m.value))] && one[1..] == [];
    assert MembersSize(one) == 1 + |PrintMember(one[0])|;
  }

  lemma AsciiLength(s: Bytes, max: nat)
    requires BoundedAscii(s, max)
    ensures |Escape(s)| == |s|
  {
    SealProofs.PlainEscape(s);
  }

  /** Escaping never shortens a text, and lengthens it unless no character is escaped. */
  lemma {:induction false} EscapeLength(s: Bytes)
    ensures |Escape(s)| >= |s|
    ensures |Escape(s)| == |s| ==> SealProofs.Plain(s)
  {
    if s != "" {
      EscapeLength(s[1..]);
      EscapeIsShortest(s[0]);
      assert forall i | 1 <= i < |s| :: s[i] == s[1..][i - 1];
    }
  }

  /** The texts that can be written are those of the printable octets that print as
      themselves. */
  lemma WritableExact(s: Bytes, max: nat)
    ensures BoundedAscii(s, max) <==>
      1 <= |s| <= max && Escape(s) == s && forall i | 0 <= i < |s| :: 32 <= s[i] as int <= 126
  {
    EscapeLength(s);
    if SealProofs.Plain(s) {
      SealProofs.PlainEscape(s);
      forall i | 0 <= i < |s| ensures s[i] != '"' && s[i] != '\\' { EscapeIsShortest(s[i]); }
    }
  }

  lemma {:induction false} BuildFull(slots: Slots)
    requires Full(slots)
    ensures |Build(slots)| == |slots|
    ensures forall i | 0 <= i < |slots| :: Build(slots)[i] == Entry(slots[i].key, slots[i].value.value)
  {
    if slots != [] { BuildFull(slots[1..]); }
  }

  predicate Full(slots: Slots) {
    forall i | 0 <= i < |slots| :: slots[i].value.Some?
  }

  ghost predicate SlotsMeasure(slots: Slots, sizes: seq<nat>)
    requires Full(slots)
  {
    |slots| == |sizes| && forall i | 0 <= i < |slots| :: Measures(Entry(slots[i].key, slots[i].value.value), sizes[i])
  }

  lemma BuildMeasures(slots: Slots, sizes: seq<nat>)
    requires Full(slots) && SlotsMeasure(slots, sizes)
    ensures MeasuresAll(Build(slots), sizes)
  {
    BuildFull(slots);
  }

  type Slot = Entry<Option<Json>>

  ghost predicate SlotMeasures(slot: Slot, n: nat) {
    slot.value.Some? && Measures(Entry(slot.key, slot.value.value), n)
  }

  /** Slots measured one by one are measured together; `measures` is any relation. */
  ghost predicate Pairwise(measures: (Slot, nat) -> bool, slots: Slots, sizes: seq<nat>) {
    |slots| == |sizes| && forall i | 0 <= i < |slots| :: measures(slots[i], sizes[i])
  }

  lemma PairwiseMeasures(slots: Slots, sizes: seq<nat>)
    requires Pairwise((slot: Slot, n: nat) => SlotMeasures(slot, n), slots, sizes)
    ensures MeasuresAll(Build(slots), sizes)
  {
    forall i | 0 <= i < |slots|
      ensures SlotMeasures(slots[i], sizes[i])
    {
    }
    BuildMeasures(slots, sizes);
  }

  lemma ThreeSlots(measures: (Slot, nat) -> bool, a: Slot, b: Slot, c: Slot, x: nat, y: nat, z: nat)
    requires measures(a, x) && measures(b, y) && measures(c, z)
    ensures Pairwise(measures, [a, b, c], [x, y, z])
  {
  }

  lemma FiveSlots(measures: (Slot, nat) -> bool, a: Slot, b: Slot, c: Slot, d: Slot, e: Slot,
                  v: nat, w: nat, x: nat, y: nat, z: nat)
    requires measures(a, v) && measures(b, w) && measures(c, x) && measures(d, y) && measures(e, z)
    ensures Pairwise(measures, [a, b, c, d, e], [v, w, x, y, z])
  {
  }

  lemma PairwiseConcat(measures: (Slot, nat) -> bool, a: Slots, x: seq<nat>, b: Slots, y: seq<nat>)
    requires Pairwise(measures, a, x) && Pairwise(measures, b, y)
    ensures Pairwise(measures, a + b, x + y)
  {
  }

  /** A text under a plain key: four quotes, a colon and a separator besides the two. */
  lemma TextMeasures(key: Bytes, s: Bytes, n: nat)
    requires BoundedAscii(key, 20) && n == |key| + |Escape(s)| + 6
    ensures SlotMeasures(Entry(key, Some(Str(s))), n)
  {
    AsciiLength(key, 20);
  }

  lemma PlainTextMeasures(key: Bytes, s: Bytes, max: nat, n: nat)
    requires BoundedAscii(key, 20) && BoundedAscii(s, max) && n == |key| + |s| + 6
    ensures SlotMeasures(Entry(key, Some(Str(s))), n)
  {
    AsciiLength(s, max);
    TextMeasures(key, s, n);
  }

  lemma NumberMeasures(key: Bytes, digit: nat, n: nat)
    requires BoundedAscii(key, 20) && digit < 10 && n == |key| + 5
    ensures SlotMeasures(Entry(key, Some(Num(digit))), n)
  {
    AsciiLength(key, 20);
  }

  // ----- the exact size of an assertion --------------------------------------------------------

  /** Everything but the texts of variable length: names, punctuation, the fixed texts, two
      time stamps, an event identifier and the hexadecimal signature. */
  const FIXED_SIZE: int := 454

  lemma ComponentTexts(keyId: Bytes, value: Bytes)
    requires BoundedAscii(value, 128) && |value| == 128
    ensures SlotMeasures(Entry("component", Some(Str(Seals.COMPONENT_V1))), 25)
    ensures SlotMeasures(Entry("key_id", Some(Str(keyId))), 12 + |Escape(keyId)|)
    ensures SlotMeasures(Entry("value", Some(Str(value))), 139)
  {
    PlainTextMeasures("component", Seals.COMPONENT_V1, 20, 25);
    TextMeasures("key_id", keyId, 12 + |Escape(keyId)|);
    PlainTextMeasures("value", value, 128, 139);
  }

  lemma ComponentSize(keyId: Bytes, value: Bytes)
    requires BoundedAscii(value, 128) && |value| == 128
    ensures |CanonicalBytes(Obj(Build(Doc.ComponentSlots(Doc.WireComponent(Seals.COMPONENT_V1, keyId, value)))))| ==
      177 + |Escape(keyId)|
  {
    var slots := Doc.ComponentSlots(Doc.WireComponent(Seals.COMPONENT_V1, keyId, value));
    var x := 12 + |Escape(keyId)|;
    ComponentTexts(keyId, value);
    var measures := (slot: Slot, n: nat) => SlotMeasures(slot, n);
    ThreeSlots(measures, slots[0], slots[1], slots[2], 25, x, 139);
    assert slots == [slots[0], slots[1], slots[2]];
    SizeOf(slots, [25, x, 139]);
    SumOfThree(25, x, 139);
  }

  lemma SizeOf(slots: Slots, sizes: seq<nat>)
    requires slots != [] && Pairwise((slot: Slot, n: nat) => SlotMeasures(slot, n), slots, sizes)
    ensures |CanonicalBytes(Obj(Build(slots)))| == 1 + Sum(sizes)
  {
    PairwiseMeasures(slots, sizes);
    ObjectMeasures(Build(slots), sizes);
  }

  lemma ComponentsSize(keyId: Bytes, signature: Bytes)
    requires |signature| == 64
    ensures |CanonicalBytes(Doc.ComponentsValue(Components(keyId, signature)))| == 179 + |Escape(keyId)|
  {
    var value := HexEncode(signature);
    HexIsAscii(signature);
    ComponentSize(keyId, value);
    var one := Doc.WireComponent(Seals.COMPONENT_V1, keyId, value);
    assert Doc.ComponentsValue(Components(keyId, signature)) == Arr([Obj(Build(Doc.ComponentSlots(one)))]);
    SealProofs.ArrayOfOneSize(Obj(Build(Doc.ComponentSlots(one))));
  }

  lemma SumOfThree(a: nat, b: nat, c: nat)
    ensures Sum([a, b, c]) == a + b + c
  {
    SumThen([], a);
    SumThen([a], b);
    SumThen([a, b], c);
    assert [] + [a] == [a] && [a] + [b] == [a, b] && [a, b] + [c] == [a, b, c];
  }

  lemma FrontMeasures(c: Claims)
    ensures
      var slots := ClaimsSlots(WireOf(c));
      Pairwise((slot: Slot, n: nat) => SlotMeasures(slot, n), slots[..5],
               [19, 32, 22 + |Escape(c.authorityDomain)|, 16 + |c.subjectId|, 13])
  {
    var slots := ClaimsSlots(WireOf(c));
    HeaderMeasures();
    NameMeasures(c);
    FiveSlots((slot: Slot, n: nat) => SlotMeasures(slot, n), slots[0], slots[1], slots[2], slots[3], slots[4],
              19, 32, 22 + |Escape(c.authorityDomain)|, 16 + |c.subjectId|, 13);
    assert slots[..5] == [slots[0], slots[1], slots[2], slots[3], slots[4]];
  }

  lemma HeaderMeasures()
    ensures SlotMeasures(Entry("schema_version", Some(Num(1))), 19)
    ensures SlotMeasures(Entry("suite", Some(Str(SUITE_V1))), 32)
  {
    NumberMeasures("schema_version", 1, 19);
    PlainTextMeasures("suite", SUITE_V1, 32, 32);
  }

  lemma NameMeasures(c: Claims)
    ensures SlotMeasures(Entry("authority_domain", Some(Str(c.authorityDomain))), 22 + |Escape(c.authorityDomain)|)
    ensures SlotMeasures(Entry("subject_id", Some(Str(c.subjectId))), 16 + |c.subjectId|)
    ensures SlotMeasures(Entry("aal", Some(Str(c.aal.ContractStr()))), 13)
  {
    TextMeasures("authority_domain", c.authorityDomain, 22 + |Escape(c.authorityDomain)|);
    assert BoundedAscii(c.subjectId, 256);
    PlainTextMeasures("subject_id", c.subjectId, 256, 16 + |c.subjectId|);
    PlainTextMeasures("aal", c.aal.ContractStr(), 4, 13);
  }

  lemma BackMeasures(c: Claims)
    ensures
      var slots := ClaimsSlots(WireOf(c));
      Pairwise((slot: Slot, n: nat) => SlotMeasures(slot, n), slots[5..],
               [17 + |c.authMethod|, 14 + |c.audience|, 35, 36, 56])
  {
    var slots := ClaimsSlots(WireOf(c));
    TailMeasures(c);
    FiveSlots((slot: Slot, n: nat) => SlotMeasures(slot, n), slots[5], slots[6], slots[7], slots[8], slots[9],
              17 + |c.authMethod|, 14 + |c.audience|, 35, 36, 56);
    assert slots[5..] == [slots[5], slots[6], slots[7], slots[8], slots[9]];
  }

  lemma TailMeasures(c: Claims)
    ensures SlotMeasures(Entry("auth_method", Some(Str(c.authMethod))), 17 + |c.authMethod|)
    ensures SlotMeasures(Entry("audience", Some(Str(c.audience))), 14 + |c.audience|)
    ensures SlotMeasures(Entry("issued_at", Some(Str(c.issuedAt))), 35)
    ensures SlotMeasures(Entry("expires_at", Some(Str(c.expiresAt))), 36)
    ensures SlotMeasures(Entry("audit_event_id", Some(Str(c.auditEventId))), 56)
  {
    assert BoundedAscii(c.authMethod, 64) && BoundedAscii(c.audience, 256);
    assert ValidTimestamp(c.issuedAt) && ValidTimestamp(c.expiresAt) && ValidUuid(c.auditEventId, true);
    PlainTextMeasures("auth_method", c.authMethod, 64, 17 + |c.authMethod|);
    PlainTextMeasures("audience", c.audience, 256, 14 + |c.audience|);
    PlainTextMeasures("issued_at", c.issuedAt, 20, 35);
    PlainTextMeasures("expires_at", c.expiresAt, 20, 36);
    PlainTextMeasures("audit_event_id", c.auditEventId, 36, 56);
  }

  lemma SumOfFive(a: nat, b: nat, c: nat, d: nat, e: nat)
    ensures Sum([a, b, c, d, e]) == a + b + c + d + e
  {
    SumOfThree(a, b, c);
    SumThen([a, b, c], d);
    SumThen([a, b, c, d], e);
    assert [a, b, c] + [d] == [a, b, c, d] && [a, b, c, d] + [e] == [a, b, c, d, e];
  }

  lemma {:induction false} SumConcat(a: seq<nat>, b: seq<nat>)
    ensures Sum(a + b) == Sum(a) + Sum(b)
  {
    if b == [] {
      assert a + b == a;
    } else {
      var n := |b| - 1;
      SumConcat(a, b[..n]);
      assert (a + b)[..|a| + n] == a + b[..n];
    }
  }

  lemma SizeWith(unsigned: Members, key: Bytes, value: Json)
    requires unsigned != [] && BoundedAscii(key, 20)
    ensures |CanonicalBytes(Obj(unsigned + [Entry(key, value)]))| ==
      |CanonicalBytes(Obj(unsigned))| + |key| + 4 + |CanonicalBytes(value)|
  {
    ObjectSizeAfterInsert(unsigned, Entry(key, value));
    AsciiLength(key, 20);
  }

  /** The length of an assertion before it is built: the texts as they are escaped, and the
      fixed rest. */
  function SealedSize(claims: Claims, keyId: Bytes): nat {
    FIXED_SIZE + |Escape(claims.authorityDomain)| + |claims.subjectId| + |claims.authMethod| + |claims.audience|
    + |Escape(keyId)|
  }

  /** It is exact, for every authority domain and every key identifier. */
  lemma SealedSizeExact(claims: Claims, keyId: Bytes, signature: Bytes)
    requires |signature| == 64
    ensures |SealedBytes(UnsignedDocument(claims), keyId, signature)| == SealedSize(claims, keyId)
  {
    UnsignedSize(claims);
    ComponentsSize(keyId, signature);
    SizeWithSignatures(UnsignedDocument(claims), Doc.ComponentsValue(Components(keyId, signature)));
  }

  lemma SizeWithSignatures(unsigned: Members, value: Json)
    requires unsigned != []
    ensures |CanonicalBytes(Obj(unsigned + [Entry("signatures", value)]))| ==
      |CanonicalBytes(Obj(unsigned))| + 14 + |CanonicalBytes(value)|
  {
    SizeWith(unsigned, "signatures", value);
  }

  lemma UnsignedSize(c: Claims)
    ensures UnsignedDocument(c) != []
    ensures |CanonicalBytes(Obj(UnsignedDocument(c)))| ==
      261 + |Escape(c.authorityDomain)| + |c.subjectId| + |c.authMethod| + |c.audience|
  {
    var d, n, m, a := 22 + |Escape(c.authorityDomain)|, 16 + |c.subjectId|, 17 + |c.authMethod|, 14 + |c.audience|;
    FrontMeasures(c);
    BackMeasures(c);
    SumOfFive(19, 32, d, n, 13);
    SumOfFive(m, a, 35, 36, 56);
    SumConcat([19, 32, d, n, 13], [m, a, 35, 36, 56]);
    SizeOfHalves(ClaimsSlots(WireOf(c)), 5, [19, 32, d, n, 13], [m, a, 35, 36, 56]);
    BuildersAgree(c);
  }

  lemma SizeOfHalves(slots: Slots, k: nat, x: seq<nat>, y: seq<nat>)
    requires 0 < k <= |slots|
    requires Pairwise((slot: Slot, n: nat) => SlotMeasures(slot, n), slots[..k], x)
    requires Pairwise((slot: Slot, n: nat) => SlotMeasures(slot, n), slots[k..], y)
    ensures Build(slots) != [] && |CanonicalBytes(Obj(Build(slots)))| == 1 + Sum(x + y)
  {
    var measures := (slot: Slot, n: nat) => SlotMeasures(slot, n);
    PairwiseConcat(measures, slots[..k], x, slots[k..], y);
    assert slots[..k] + slots[k..] == slots;
    SizeOf(slots, x + y);
    PairwiseMeasures(slots, x + y);
  }

  /** A valid authority domain and a key identifier of at most 128 plain characters (the
      original derives 16) always fit. */
  lemma OrdinaryFits(claims: Claims, keyId: Bytes)
    requires BoundedAscii(claims.authorityDomain, 128) && BoundedAscii(keyId, 128)
    ensures SealedSize(claims, keyId) <= MAX_BYTES
  {
    assert BoundedAscii(claims.subjectId, 256) && BoundedAscii(claims.authMethod, 64) && BoundedAscii(claims.audience, 256);
    AsciiLength(claims.authorityDomain, 128);
    AsciiLength(keyId, 128);
  }

  lemma {:induction false} EscapeGrows(s: Bytes)
    ensures |Escape(s)| >= |s|
  {
    if s != "" { EscapeGrows(s[1..]); }
  }

  /** Sealing has no guard, so that an assertion can be sealed that can never be verified:
      any domain of 4096 characters will do. */
  lemma LongDomainNeverVerifies(c: Crypto, keys: seq<Seals.VerifyingKey>, keyId: Bytes, claims: Claims,
                                sign: Digest -> Option<Bytes>, policy: Policy)
    requires |claims.authorityDomain| >= MAX_BYTES
    requires forall digest :: sign(digest).Some? ==> |sign(digest).value| == 64
    ensures
      var sealed := Seal(c, keyId, sign, claims);
      sealed.Some? ==> Verify(c, keys, sealed.value, policy) == Err(Rejected(Seals.TooLarge))
  {
    EscapeGrows(claims.authorityDomain);
    var sealed := Seal(c, keyId, sign, claims);
    if sealed.Some? {
      var signature := sign(c.sha256(Seals.SignedMessage(DOMAIN_PREFIX, UnsignedDocument(claims)))).value;
      SealedSizeExact(claims, keyId, signature);
    }
  }

  /** A genuine assertion is accepted exactly when its size, known from the claims, is
      within the limit, it is meant for the expected domain and it is in its window. */
  lemma GenuineAccepted(c: Crypto, keys: seq<Seals.VerifyingKey>, keyId: Bytes, raw: Bytes, claims: Claims,
                        signature: Bytes, policy: Policy)
    requires Seals.Published(keys, keyId, raw) && SUITE_V1 in policy.acceptedSuites
    requires c.Genuine(raw, c.sha256(Seals.SignedMessage(DOMAIN_PREFIX, UnsignedDocument(claims))), signature)
    ensures
      var r := Verify(c, keys, SealedBytes(UnsignedDocument(claims), keyId, signature), policy);
      && (r.Ok? <==>
            && SealedSize(claims, keyId) <= MAX_BYTES
            && claims.authorityDomain == policy.expectedAuthorityDomain
            && InWindow(claims.issuedAt, policy.now, claims.expiresAt))
      && (r.Ok? ==> r.value == VerifiedOf(claims))
  {
    SealedSizeExact(claims, keyId, signature);
    GenuineVerifies(c, keys, keyId, raw, claims, signature, policy);
  }

  // ----- the validity window ---------------------------------------------------------------

  /** The strings are ordered as the instants are. */
  lemma WindowIsTime(t: int, expiry: int, u: int)
    requires InRange(t) && InRange(expiry) && InRange(u)
    ensures InWindow(Format(t), Format(u), Format(expiry)) <==> t <= u < expiry
  {
    FormatOrder(t, u);
    FormatOrder(u, expiry);
    if t > u {
      FormatOrder(u, t);
      LessAsymmetric(Format(u), Format(t));
    }
  }

  lemma WindowOfStrings(t: int, expiry: int, u: int)
    ensures ValidTimestamp(Format(t)) && ValidTimestamp(Format(expiry)) && ValidTimestamp(Format(u)) ==>
      (InWindow(Format(t), Format(u), Format(expiry)) <==> t <= u < expiry)
  {
    TimestampAccepts(t);
    TimestampAccepts(expiry);
    TimestampAccepts(u);
    if InRange(t) && InRange(expiry) && InRange(u) { WindowIsTime(t, expiry, u); }
  }

  /** On the wire the three stamps are raw strings. As long as each of them is on the
      calendar, comparing them is comparing the instants read from them. */
  lemma WindowOnCalendar(issuedAt: Bytes, now: Bytes, expiresAt: Bytes)
    requires ValidTimestamp(issuedAt) && ValidTimestamp(now) && ValidTimestamp(expiresAt)
    requires OnCalendar(issuedAt) && OnCalendar(now) && OnCalendar(expiresAt)
    ensures InWindow(issuedAt, now, expiresAt) <==> SecondsOf(issuedAt) <= SecondsOf(now) < SecondsOf(expiresAt)
  {
    RawOrder(issuedAt, now);
    RawOrder(now, expiresAt);
  }

  lemma LessAsymmetric(a: Bytes, b: Bytes)
    requires Less(a, b)
    ensures !LessEq(b, a)
  {
  }

  /** `text` is the time stamp of `second`, that is, text == Format(second); the bound
      variable keeps the calendar out of proofs that do not look at it. */
  ghost predicate Stamps(text: Bytes, second: int) {
    forall s :: s == second ==> text == Format(s)
  }

  /** An assertion issued at second `t` for `ttl` seconds and checked by the domain it was
      issued for at second `u` is accepted exactly when it fits and t <= u < t + ttl. That
      the three instants have a four-digit year is what their types demand of the strings;
      with a valid domain it always fits (`OrdinaryFits`). */
  lemma AssertionWindow(c: Crypto, keys: seq<Seals.VerifyingKey>, keyId: Bytes, raw: Bytes, claims: Claims,
                        signature: Bytes, now: Timestamp, t: int, ttl: int, u: int)
    requires Seals.Published(keys, keyId, raw)
    requires c.Genuine(raw, c.sha256(Seals.SignedMessage(DOMAIN_PREFIX, UnsignedDocument(claims))), signature)
    requires Stamps(claims.issuedAt, t) && Stamps(claims.expiresAt, t + ttl) && Stamps(now, u)
    ensures
      var policy := Policy([SUITE_V1], now, claims.authorityDomain);
      var r := Verify(c, keys, SealedBytes(UnsignedDocument(claims), keyId, signature), policy);
      && (r.Ok? <==> SealedSize(claims, keyId) <= MAX_BYTES && t <= u < t + ttl)
      && (r.Ok? ==> r.value == VerifiedOf(claims))
  {
    WindowOfClaims(claims.issuedAt, now, claims.expiresAt, t, t + ttl, u);
    GenuineAccepted(c, keys, keyId, raw, claims, signature, Policy([SUITE_V1], now, claims.authorityDomain));
  }

  lemma WindowOfClaims(issuedAt: Timestamp, now: Timestamp, expiresAt: Timestamp, t: int, expiry: int, u: int)
    requires Stamps(issuedAt, t) && Stamps(now, u) && Stamps(expiresAt, expiry)
    ensures InWindow(issuedAt, now, expiresAt) <==> t <= u < expiry
  {
    assert issuedAt == Format(t) && now == Format(u) && expiresAt == Format(expiry);
    WindowOfStrings(t, expiry, u);
  }
}
