/** What rewriting an accepted log would take, and what the chain check cannot see. */
module Tamper {
  import opened Basics
  import opened Json
  import opened Canonical
  import opened AuditDocument
  import opened AuditSeal
  import opened AuditSealProofs
  import opened Chain
  import opened AuditStore
  import opened AuditLog
  import opened AuditTrail

  /** How an auditor reads sealed bytes: verification for one domain. */
  type Reading = (Bytes, Bytes) -> Option<VerifiedEvent>

  /** The entry says what its own sealed bytes say. */
  predicate Extracted(check: Reading, e: ChainEntry) {
    && check(e.authorityDomain, e.sealed).Some?
    && check(e.authorityDomain, e.sealed).value.sequence == e.sequence
    && check(e.authorityDomain, e.sealed).value.prevHash == e.prevHash
  }

  predicate AllExtracted(check: Reading, log: seq<ChainEntry>) {
    forall i | 0 <= i < |log| :: Extracted(check, log[i])
  }

  /** One domain's entries, each saying what its bytes say. */
  ghost predicate Read(check: Reading, chain: seq<ChainEntry>, domain: Bytes) {
    AllExtracted(check, chain) && forall k | 0 <= k < |chain| :: chain[k].authorityDomain == domain
  }

  /** Two auditors may trust different keys, but never read the same bytes differently. */
  ghost predicate Consistent(x: Reading, y: Reading) {
    forall domain, sealed :: x(domain, sealed).Some? && y(domain, sealed).Some? ==> x(domain, sealed) == y(domain, sealed)
  }

  predicate Collision(c: Crypto, x: Bytes, y: Bytes) {
    x != y && c.sha256(x) == c.sha256(y)
  }

  /** Going back from a common entry: as long as the two chains agree at `i`, they agree on
      everything before, unless a collision shows up at one of the positions. */
  lemma {:induction false} AgreeBackwards(
    c: Crypto, x: Reading, y: Reading, a: seq<ChainEntry>, b: seq<ChainEntry>, domain: Bytes, i: nat)
    requires Consistent(x, y)
    requires i < |a| && i < |b| && a[i] == b[i]
    requires Linked(c, a) && Linked(c, b) && Read(x, a, domain) && Read(y, b, domain)
    ensures a[..i + 1] == b[..i + 1] ||
      exists k | 0 <= k < i :: Collision(c, a[k].sealed, b[k].sealed)
    decreases i
  {
    assert a[..i + 1] == a[..i] + [a[i]] && b[..i + 1] == b[..i] + [b[i]];
    if i > 0 {
      assert LinkAt(c, a, i) && LinkAt(c, b, i);
      if !Collision(c, a[i - 1].sealed, b[i - 1].sealed) {
        assert Extracted(x, a[i - 1]) && Extracted(y, b[i - 1]);
        AgreeBackwards(c, x, y, a, b, domain, i - 1);
      }
    }
  }

  lemma SameEndOfChain(
    c: Crypto, x: Reading, y: Reading, p: seq<ChainEntry>, q: seq<ChainEntry>, domain: Bytes, j: nat)
    requires Consistent(x, y)
    requires Linked(c, p) && Linked(c, q) && Read(x, p, domain) && Read(y, q, domain)
    requires p != [] && j < |q| && p[|p| - 1].sealed == q[j].sealed
    ensures p == q[..j + 1] ||
      exists k | 0 <= k < |p| && k < |q| :: Collision(c, p[k].sealed, q[k].sealed)
  {
    var n := |p| - 1;
    assert LinkAt(c, p, n) && LinkAt(c, q, j);
    assert Extracted(x, p[n]) && Extracted(y, q[j]);
    AgreeBackwards(c, x, y, p, q, domain, n);
    assert p[..n + 1] == p;
  }

  lemma ProjectRead(check: Reading, log: seq<ChainEntry>, domain: Bytes)
    requires AllExtracted(check, log)
    ensures Read(check, Project(log, domain), domain)
  {
    ProjectMembers(log, domain);
    var chain := Project(log, domain);
    forall i | 0 <= i < |chain|
      ensures Extracted(check, chain[i]) && chain[i].authorityDomain == domain
    {
      assert chain[i] in chain;
    }
  }

  /** Tamper evidence. Of two accepted logs, let one end in a domain with sealed bytes
      that the other has at `j`. Then they have the same history of that domain up to
      there, entry by entry, or two different sealed events with the same hash lie at the
      same position. */
  lemma SameEndSameHistory(
    c: Crypto, x: Reading, y: Reading, a: seq<ChainEntry>, b: seq<ChainEntry>, domain: Bytes, j: nat)
    requires Consistent(x, y)
    requires ChainAccepted(c, a) && ChainAccepted(c, b)
    requires AllExtracted(x, a) && AllExtracted(y, b)
    requires Project(a, domain) != [] && j < |Project(b, domain)|
    requires Project(a, domain)[|Project(a, domain)| - 1].sealed == Project(b, domain)[j].sealed
    ensures
      var p, q := Project(a, domain), Project(b, domain);
      || p == q[..j + 1]
      || exists k | 0 <= k < |p| && k < |q| :: Collision(c, p[k].sealed, q[k].sealed)
  {
    var p, q := Project(a, domain), Project(b, domain);
    assert DomainLinked(c, a, domain) && DomainLinked(c, b, domain);
    ProjectRead(x, a, domain);
    ProjectRead(y, b, domain);
    SameEndOfChain(c, x, y, p, q, domain, j);
  }

  lemma SameReport(c: Crypto, keys: seq<VerifyingKey>, others: seq<VerifyingKey>,
                   bytes: Bytes, doc: WireDocument, policy: AcceptancePolicy)
    requires CheckDocument(c, keys, bytes, doc, policy).Ok? && CheckDocument(c, others, bytes, doc, policy).Ok?
    ensures CheckDocument(c, keys, bytes, doc, policy) == CheckDocument(c, others, bytes, doc, policy)
  {
    var canonical := CanonicalBytes(FullDocument(doc)) == bytes;
    var message := SignedMessage(DOMAIN_PREFIX_V1, UnsignedFromWire(doc.body));
    CheckPartsExact(c, keys, canonical, message, doc.body, doc.signature, policy);
    CheckPartsExact(c, others, canonical, message, doc.body, doc.signature, policy);
  }

  lemma SameVerified(c: Crypto, keys: seq<VerifyingKey>, others: seq<VerifyingKey>, bytes: Bytes, policy: AcceptancePolicy)
    ensures Verify(c, keys, bytes, policy).Ok? && Verify(c, others, bytes, policy).Ok? ==>
      Verify(c, keys, bytes, policy) == Verify(c, others, bytes, policy)
  {
    if Verify(c, keys, bytes, policy).Ok? && Verify(c, others, bytes, policy).Ok? {
      SameReport(c, keys, others, bytes, ReadDocument(Parse(bytes).value).value, policy);
    }
  }

  /** The fields that verification reports depend on the bytes alone, not on the keys. */
  lemma ReadingsConsistent(c: Crypto, keys: seq<VerifyingKey>, others: seq<VerifyingKey>)
    ensures Consistent(ReadingOf(c, keys), ReadingOf(c, others))
  {
    forall domain, sealed | CheckFor(c, keys, domain, sealed).Some? && CheckFor(c, others, domain, sealed).Some?
      ensures CheckFor(c, keys, domain, sealed) == CheckFor(c, others, domain, sealed)
    {
      SameVerified(c, keys, others, sealed, PolicyFor(domain));
    }
  }

  /** Tamper evidence with the real verification: two auditors, possibly trusting different
      keys, who see the same sealed event agree on all that came before it, or hold a
      collision of the hash. */
  lemma TamperEvidence(c: Crypto, keys: seq<VerifyingKey>, others: seq<VerifyingKey>,
                       a: seq<ChainEntry>, b: seq<ChainEntry>, domain: Bytes, j: nat)
    requires ChainAccepted(c, a) && ChainAccepted(c, b)
    requires AllExtracted(ReadingOf(c, keys), a) && AllExtracted(ReadingOf(c, others), b)
    requires Project(a, domain) != [] && j < |Project(b, domain)|
    requires Project(a, domain)[|Project(a, domain)| - 1].sealed == Project(b, domain)[j].sealed
    ensures
      var p, q := Project(a, domain), Project(b, domain);
      || p == q[..j + 1]
      || exists k | 0 <= k < |p| && k < |q| :: Collision(c, p[k].sealed, q[k].sealed)
  {
    ReadingsConsistent(c, keys, others);
    SameEndSameHistory(c, ReadingOf(c, keys), ReadingOf(c, others), a, b, domain, j);
  }

  /** The entries that an auditor extracts from rows say what their sealed bytes say. */
  lemma {:induction false} EntriesExtracted(cfg: Services, listing: seq<Row>)
    requires forall i | 0 <= i < |listing| :: Verified(cfg, listing[i])
    ensures Entries(cfg, listing).Some? && AllExtracted(cfg.check, Entries(cfg, listing).value)
  {
    if listing != [] {
      var n := |listing| - 1;
      EntriesExtracted(cfg, listing[..n]);
      assert Verified(cfg, listing[n]);
      assert Extracted(cfg.check, EntryOf(cfg, listing[n]).value);
    }
  }

  /** A genuine log cannot be rewritten: whatever the writers did, an accepted log that
      contains the last event of a domain has the genuine history of that domain up to it,
      or exhibits a collision. */
  lemma GenuineHistory(c: Crypto, cfg: Services, y: Reading, actions: seq<Action>, listing: seq<Row>,
                       b: seq<ChainEntry>, domain: Bytes, j: nat)
    requires Honest(cfg) && cfg.sha256 == c.sha256 && Consistent(cfg.check, y)
    requires listing != [] && ListingOf(listing, Run(cfg, Initial, actions).table)
    requires ChainAccepted(c, b) && AllExtracted(y, b) && j < |Project(b, domain)|
    requires RowsOf(listing, domain) != []
    requires RowsOf(listing, domain)[|RowsOf(listing, domain)| - 1].sealed == Project(b, domain)[j].sealed
    ensures
      var genuine := Entries(cfg, RowsOf(listing, domain));
      && genuine.Some?
      && var q := Project(b, domain);
      || genuine.value == q[..j + 1]
      || exists k | 0 <= k < |genuine.value| && k < |q| :: Collision(c, genuine.value[k].sealed, q[k].sealed)
  {
    EveryRunIsAccepted(cfg, c, actions, listing);
    EveryRunIsSound(cfg, actions);
    EntriesExtracted(cfg, listing);
    forall i | 0 <= i < |listing|
      ensures Readable(cfg, listing[i])
    {
      assert Verified(cfg, listing[i]);
    }
    ProjectEntries(cfg, listing, domain);
    assert SoundRows(cfg, RowsOf(Run(cfg, Initial, actions).table, domain));
    SoundRowsLinked(cfg, c, RowsOf(listing, domain));
    SameEndSameHistory(c, cfg.check, y, Entries(cfg, listing).value, b, domain, j);
  }

  /** The same with the real services: the log was written with `keys`, and whoever presents
      another one reads it with `others`. */
  lemma GenuineLogHistory(c: Crypto, keys: seq<VerifyingKey>, others: seq<VerifyingKey>, actions: seq<Action>,
                          listing: seq<Row>, b: seq<ChainEntry>, domain: Bytes, j: nat)
    requires listing != [] && ListingOf(listing, Run(ServicesOf(c, keys), Initial, actions).table)
    requires ChainAccepted(c, b) && AllExtracted(ReadingOf(c, others), b) && j < |Project(b, domain)|
    requires RowsOf(listing, domain) != []
    requires RowsOf(listing, domain)[|RowsOf(listing, domain)| - 1].sealed == Project(b, domain)[j].sealed
    ensures
      var genuine := Entries(ServicesOf(c, keys), RowsOf(listing, domain));
      && genuine.Some?
      && var q := Project(b, domain);
      || genuine.value == q[..j + 1]
      || exists k | 0 <= k < |genuine.value| && k < |q| :: Collision(c, genuine.value[k].sealed, q[k].sealed)
  {
    ServicesAreHonest(c, keys);
    ReadingsConsistent(c, keys, others);
    GenuineHistory(c, ServicesOf(c, keys), ReadingOf(c, others), actions, listing, b, domain, j);
  }

  /** The limit the check states of itself: cutting events off the end of an accepted log
      leaves an accepted log. */
  lemma TruncationIsAccepted(c: Crypto, log: seq<ChainEntry>, n: int)
    requires ChainAccepted(c, log) && 0 < n <= |log|
    ensures ChainAccepted(c, log[..n])
  {
    var cut := log[..n];
    forall domain
      ensures DomainLinked(c, cut, domain)
    {
      assert DomainLinked(c, log, domain);
      ProjectPrefix(log, n, domain);
      LinkedPrefix(c, Project(cut, domain), Project(log, domain));
    }
  }
}
