/** The writer protocol of the audit log. Any number of writers (collectors, which go
    through the sealing service, and identity providers, which seal in process) take
    their steps in any order on one shared table; any of them may stop at any point. */
module AuditLog {
  import opened Basics
  import opened Fields
  import opened AuditDocument
  import opened AuditSeal
  import opened AuditSealProofs
  import opened SealerGate
  import opened Chain
  import opened AuditStore

  /** One use of a signing device: the key it holds, and its answer to this call. */
  datatype Device = Device(keyId: Bytes, answer: Option<Bytes>)

  /** The services the protocol rests on: the hash, the sealing service's field gate,
      sealing with one device, and verification of sealed bytes for one domain. */
  datatype Services = Services(
    sha256: Bytes -> Digest,
    gate: SealRequest -> Option<EventFields>,
    seal: (Device, EventFields) -> Option<Bytes>,
    check: (Bytes, Bytes) -> Option<VerifiedEvent>)

  /** Where a writer stands between two steps. */
  datatype Phase =
    | Idle
    | HeadRead(domain: Bytes, next: U64, prevSealed: Option<Bytes>)
    | LinkKnown(domain: Bytes, next: U64, prevHash: Digest)
    | Ready(row: Row)

  datatype State = State(table: seq<Row>, writers: map<nat, Phase>)

  datatype Action =
    | ReadHead(w: nat, domain: Bytes)
    | HashPrevious(w: nat)
    | ReadHeadHashed(w: nat, domain: Bytes)
    | SealRequested(w: nat, raw: SealRequest, device: Device)
    | SealFields(w: nat, draft: EventFields, device: Device)
    | Insert(w: nat)
    | Abandon(w: nat)

  const Initial: State := State([], map[])

  function PhaseOf(s: State, w: nat): Phase {
    if w in s.writers then s.writers[w] else Idle
  }

  function Enter(s: State, w: nat, phase: Phase): State {
    s.(writers := s.writers[w := phase])
  }

  function LinkHash(hash: Bytes -> Digest, prevSealed: Option<Bytes>): Digest {
    if prevSealed.None? then CHAIN_ROOT else hash(prevSealed.value)
  }

  function RowOf(f: EventFields, sealed: Bytes): Row {
    Row(f.eventId, f.authorityDomain, f.sequence, HexEncode(f.prevHash), sealed)
  }

  /** The collector fills the raw event with the position it read and sends it to the
      sealing service, whose gate may refuse it. */
  function RequestedFields(cfg: Services, raw: SealRequest, domain: Bytes, next: U64, prevHash: Digest): Option<EventFields> {
    cfg.gate(raw.(authorityDomain := domain, sequence := next, prevHash := prevHash))
  }

  /** The identity provider validates the position it read itself. */
  function OwnFields(draft: EventFields, domain: Bytes, next: U64, prevHash: Digest): Option<EventFields> {
    if next > MAX_SAFE_INTEGER || !BoundedAscii(domain, 128) then None
    else Some(draft.(authorityDomain := domain, sequence := next, prevHash := prevHash))
  }

  function AfterSeal(cfg: Services, fields: Option<EventFields>, device: Device): Phase {
    if fields.None? then Idle
    else
      match cfg.seal(device, fields.value)
      case None => Idle
      case Some(sealed) => Ready(RowOf(fields.value, sealed))
  }

  /** One step. A step that does not fit the writer's phase changes nothing. */
  function Apply(cfg: Services, s: State, a: Action): State {
    match a
    case ReadHead(w, domain) =>
      Enter(s, w, HeadRead(domain, NextSequence(s.table, domain) % U64_LIMIT, HeadSealed(s.table, domain)))
    case HashPrevious(w) =>
      var p := PhaseOf(s, w);
      if p.HeadRead? then Enter(s, w, LinkKnown(p.domain, p.next, LinkHash(cfg.sha256, p.prevSealed))) else s
    case ReadHeadHashed(w, domain) =>
      var prevHash := LinkHash(cfg.sha256, HeadSealed(s.table, domain));
      Enter(s, w, LinkKnown(domain, NextSequence(s.table, domain) % U64_LIMIT, prevHash))
    case SealRequested(w, raw, device) =>
      var p := PhaseOf(s, w);
      if p.LinkKnown? then Enter(s, w, AfterSeal(cfg, RequestedFields(cfg, raw, p.domain, p.next, p.prevHash), device)) else s
    case SealFields(w, draft, device) =>
      var p := PhaseOf(s, w);
      if p.LinkKnown? then Enter(s, w, AfterSeal(cfg, OwnFields(draft, p.domain, p.next, p.prevHash), device)) else s
    case Insert(w) =>
      var p := PhaseOf(s, w);
      if !p.Ready? then s
      else if Conflicts(s.table, p.row) then Enter(s, w, Idle)
      else State(s.table + [p.row], s.writers[w := Idle])
    case Abandon(w) => Enter(s, w, Idle)
  }

  function Run(cfg: Services, s: State, actions: seq<Action>): State {
    if actions == [] then s
    else Apply(cfg, Run(cfg, s, actions[..|actions| - 1]), actions[|actions| - 1])
  }

  lemma RunThen(cfg: Services, s: State, front: seq<Action>, last: Action)
    ensures Run(cfg, s, front + [last]) == Apply(cfg, Run(cfg, s, front), last)
  {
    assert (front + [last])[..|front|] == front;
  }

  // ----- the invariant -----------------------------------------------------------------

  /** The sealed bytes of the row, checked on their own, say the same as its columns and
      name the given predecessor. */
  predicate Attested(cfg: Services, row: Row, prevHash: Digest) {
    && row.prevHashHex == HexEncode(prevHash)
    && var v := cfg.check(row.authorityDomain, row.sealed);
    && v.Some?
    && v.value.eventId == row.eventId
    && v.value.authorityDomain == row.authorityDomain
    && v.value.sequence == row.sequence
    && v.value.prevHash == prevHash
  }

  /** The hash that a row at position `i` of this domain must carry. */
  function LinkTo(hash: Bytes -> Digest, rows: seq<Row>, i: nat): Digest
    requires i <= |rows|
  {
    if i == 0 then CHAIN_ROOT else hash(rows[i - 1].sealed)
  }

  predicate SoundRow(cfg: Services, rows: seq<Row>, i: nat)
    requires i < |rows|
  {
    rows[i].sequence == i <= MAX_SAFE_INTEGER && Attested(cfg, rows[i], LinkTo(cfg.sha256, rows, i))
  }

  predicate SoundRows(cfg: Services, rows: seq<Row>) {
    forall i | 0 <= i < |rows| :: SoundRow(cfg, rows, i)
  }

  /** A row sealed and not yet inserted points into the domain as it then was. */
  predicate SoundReady(cfg: Services, rows: seq<Row>, row: Row) {
    && 0 <= row.sequence <= |rows|
    && row.sequence <= MAX_SAFE_INTEGER
    && Attested(cfg, row, LinkTo(cfg.sha256, rows, row.sequence))
  }

  /** What a writer holds still describes a prefix of the domain as it is now. */
  predicate SoundPhase(cfg: Services, table: seq<Row>, p: Phase) {
    match p
    case Idle => true
    case HeadRead(domain, next, prevSealed) =>
      var rows := RowsOf(table, domain);
      next <= |rows| && LinkHash(cfg.sha256, prevSealed) == LinkTo(cfg.sha256, rows, next)
    case LinkKnown(domain, next, prevHash) =>
      var rows := RowsOf(table, domain);
      next <= |rows| && prevHash == LinkTo(cfg.sha256, rows, next)
    case Ready(row) => SoundReady(cfg, RowsOf(table, row.authorityDomain), row)
  }

  predicate DistinctEvents(table: seq<Row>) {
    forall i, j | 0 <= i < j < |table| :: table[i].eventId != table[j].eventId
  }

  ghost predicate SoundTable(cfg: Services, table: seq<Row>) {
    && DistinctEvents(table)
    && forall domain :: SoundRows(cfg, RowsOf(table, domain))
  }

  ghost predicate Sound(cfg: Services, s: State) {
    && SoundTable(cfg, s.table)
    && (forall w | w in s.writers :: SoundPhase(cfg, s.table, s.writers[w]))
  }

  // ----- reading the head ----------------------------------------------------------------

  /** In a sound domain the highest sequence is the last row. */
  lemma {:induction false} HeadIsLast(cfg: Services, rows: seq<Row>)
    requires SoundRows(cfg, rows) && rows != []
    ensures MaxRow(rows) == Some(rows[|rows| - 1])
  {
    var n := |rows| - 1;
    var front := rows[..n];
    MaxRowIsHighest(front);
    assert SoundRow(cfg, rows, n);
    if front != [] {
      var k :| 0 <= k < n && front[k] == MaxRow(front).value;
      assert SoundRow(cfg, rows, k);
    }
  }

  lemma HeadOf(cfg: Services, table: seq<Row>, domain: Bytes)
    requires SoundTable(cfg, table)
    ensures
      var rows := RowsOf(table, domain);
      && NextSequence(table, domain) == |rows| <= MAX_SAFE_INTEGER + 1
      && LinkHash(cfg.sha256, HeadSealed(table, domain)) == LinkTo(cfg.sha256, rows, |rows|)
  {
    var rows := RowsOf(table, domain);
    assert SoundRows(cfg, rows);
    if rows != [] {
      HeadIsLast(cfg, rows);
      assert SoundRow(cfg, rows, |rows| - 1);
    }
  }

  // ----- sealing -------------------------------------------------------------------------

  /** What the services promise together: the gate keeps the position it is given, and
      whatever is sealed verifies with the fields that were sealed. */
  ghost predicate Honest(cfg: Services) {
    && (forall req :: cfg.gate(req).Some? ==> SamePosition(req, cfg.gate(req).value))
    && (forall device, f :: cfg.seal(device, f).Some? ==>
          cfg.check(f.authorityDomain, cfg.seal(device, f).value) == Some(VerifiedOf(f)))
  }

  predicate SamePosition(req: SealRequest, f: EventFields) {
    f.authorityDomain == req.authorityDomain && f.sequence == req.sequence && f.prevHash == req.prevHash
  }

  lemma SoundAfterSeal(cfg: Services, table: seq<Row>, domain: Bytes, next: U64, prevHash: Digest,
                       fields: Option<EventFields>, device: Device)
    requires Honest(cfg) && SoundPhase(cfg, table, LinkKnown(domain, next, prevHash))
    requires fields.Some? ==>
      fields.value.authorityDomain == domain && fields.value.sequence == next && fields.value.prevHash == prevHash
    ensures SoundPhase(cfg, table, AfterSeal(cfg, fields, device))
  {
  }

  // ----- inserting -----------------------------------------------------------------------

  lemma LinkToPrefix(hash: Bytes -> Digest, rows: seq<Row>, more: seq<Row>, i: nat)
    requires i <= |rows|
    ensures LinkTo(hash, rows + more, i) == LinkTo(hash, rows, i)
  {
  }

  /** A table only grows, so what a writer holds stays true. */
  lemma PhaseSurvives(cfg: Services, table: seq<Row>, row: Row, p: Phase)
    requires SoundPhase(cfg, table, p)
    ensures SoundPhase(cfg, table + [row], p)
  {
  }

  /** The uniqueness constraint leaves a stale writer no free position but the next one. */
  lemma FreePositionIsNext(cfg: Services, table: seq<Row>, row: Row)
    requires SoundTable(cfg, table)
    requires SoundReady(cfg, RowsOf(table, row.authorityDomain), row)
    requires !Conflicts(table, row)
    ensures row.sequence == |RowsOf(table, row.authorityDomain)|
  {
    var rows := RowsOf(table, row.authorityDomain);
    if row.sequence < |rows| {
      assert SoundRow(cfg, rows, row.sequence);
      RowsOfFrom(table, row.authorityDomain, row.sequence);
    }
  }

  lemma {:induction false} RowsOfFrom(table: seq<Row>, domain: Bytes, i: nat)
    requires i < |RowsOf(table, domain)|
    ensures exists k | 0 <= k < |table| :: table[k] == RowsOf(table, domain)[i]
    ensures RowsOf(table, domain)[i].authorityDomain == domain
  {
    var front := table[..|table| - 1];
    if i < |RowsOf(front, domain)| {
      RowsOfFrom(front, domain, i);
      var k :| 0 <= k < |front| && front[k] == RowsOf(front, domain)[i];
      assert table[k] == front[k];
    } else {
      assert table[|table| - 1] == RowsOf(table, domain)[i];
    }
  }

  lemma SoundExtend(cfg: Services, rows: seq<Row>, row: Row)
    requires SoundRows(cfg, rows) && SoundReady(cfg, rows, row) && row.sequence == |rows|
    ensures SoundRows(cfg, rows + [row])
  {
    var after := rows + [row];
    forall i | 0 <= i < |after|
      ensures SoundRow(cfg, after, i)
    {
      LinkToPrefix(cfg.sha256, rows, [row], i);
      if i < |rows| { assert SoundRow(cfg, rows, i); }
    }
  }

  lemma SoundInsert(cfg: Services, table: seq<Row>, row: Row)
    requires SoundTable(cfg, table)
    requires SoundReady(cfg, RowsOf(table, row.authorityDomain), row)
    requires !Conflicts(table, row)
    ensures SoundTable(cfg, table + [row])
  {
    FreePositionIsNext(cfg, table, row);
    var after := table + [row];
    forall domain
      ensures SoundRows(cfg, RowsOf(after, domain))
    {
      RowsOfAppend(table, row, domain);
      assert SoundRows(cfg, RowsOf(table, domain));
      if domain == row.authorityDomain { SoundExtend(cfg, RowsOf(table, domain), row); }
    }
  }

  /** Without a concurrent writer only the event id can clash. */
  lemma NextIsFree(cfg: Services, table: seq<Row>, row: Row)
    requires SoundTable(cfg, table)
    requires row.sequence == |RowsOf(table, row.authorityDomain)|
    ensures Conflicts(table, row) <==> exists i | 0 <= i < |table| :: table[i].eventId == row.eventId
  {
    var rows := RowsOf(table, row.authorityDomain);
    assert SoundRows(cfg, rows);
    forall i | 0 <= i < |table| && table[i].authorityDomain == row.authorityDomain
      ensures table[i].sequence != row.sequence
    {
      RowsOfMember(table, table[i]);
      var k :| 0 <= k < |rows| && rows[k] == table[i];
      assert SoundRow(cfg, rows, k);
    }
  }

  /** Only the writer itself has moved, to this phase. */
  predicate OnlyMoved(s: State, t: State, w: nat, p: Phase) {
    PhaseOf(t, w) == p && forall v | v in s.writers.Keys + t.writers.Keys && v != w :: PhaseOf(t, v) == PhaseOf(s, v)
  }

  /** An insert ends the write, whether the row went in or met a row with its position or its
      event identifier. */
  lemma InsertExact(cfg: Services, s: State, w: nat, row: Row)
    requires PhaseOf(s, w) == Ready(row)
    ensures
      var t := Apply(cfg, s, Insert(w));
      var free := forall i | 0 <= i < |s.table| ::
        && !(s.table[i].authorityDomain == row.authorityDomain && s.table[i].sequence == row.sequence)
        && s.table[i].eventId != row.eventId;
      && OnlyMoved(s, t, w, Idle)
      && t.table == if free then s.table + [row] else s.table
  {
  }

  /** A writer may stop anywhere: what it holds is dropped, and nothing else changes. */
  lemma AbandonExact(cfg: Services, s: State, w: nat)
    ensures OnlyMoved(s, Apply(cfg, s, Abandon(w)), w, Idle) && Apply(cfg, s, Abandon(w)).table == s.table
  {
  }

  // ----- every step, every run -------------------------------------------------------------

  lemma SoundEnter(cfg: Services, s: State, w: nat, p: Phase)
    requires Sound(cfg, s) && SoundPhase(cfg, s.table, p)
    ensures Sound(cfg, Enter(s, w, p))
  {
  }

  lemma SoundPhaseOf(cfg: Services, s: State, w: nat)
    requires Sound(cfg, s)
    ensures SoundPhase(cfg, s.table, PhaseOf(s, w))
  {
  }

  lemma SoundInsertStep(cfg: Services, s: State, w: nat, row: Row)
    requires Sound(cfg, s) && PhaseOf(s, w) == Ready(row) && !Conflicts(s.table, row)
    ensures Sound(cfg, State(s.table + [row], s.writers[w := Idle]))
  {
    SoundPhaseOf(cfg, s, w);
    SoundInsert(cfg, s.table, row);
    var writers := s.writers[w := Idle];
    forall v | v in writers
      ensures SoundPhase(cfg, s.table + [row], writers[v])
    {
      if v != w { PhaseSurvives(cfg, s.table, row, s.writers[v]); }
    }
  }

  lemma SoundSealStep(cfg: Services, s: State, w: nat, p: Phase, fields: Option<EventFields>, device: Device)
    requires Honest(cfg) && Sound(cfg, s) && p.LinkKnown? && SoundPhase(cfg, s.table, p)
    requires fields.Some? ==>
      fields.value.authorityDomain == p.domain && fields.value.sequence == p.next && fields.value.prevHash == p.prevHash
    ensures Sound(cfg, Enter(s, w, AfterSeal(cfg, fields, device)))
  {
    SoundAfterSeal(cfg, s.table, p.domain, p.next, p.prevHash, fields, device);
    SoundEnter(cfg, s, w, AfterSeal(cfg, fields, device));
  }

  lemma SoundApply(cfg: Services, s: State, a: Action)
    requires Honest(cfg) && Sound(cfg, s)
    ensures Sound(cfg, Apply(cfg, s, a))
  {
    SoundPhaseOf(cfg, s, a.w);
    var p := PhaseOf(s, a.w);
    match a
    case ReadHead(w, domain) =>
      HeadOf(cfg, s.table, domain);
      SoundEnter(cfg, s, w, Apply(cfg, s, a).writers[w]);
    case ReadHeadHashed(w, domain) =>
      HeadOf(cfg, s.table, domain);
      SoundEnter(cfg, s, w, Apply(cfg, s, a).writers[w]);
    case HashPrevious(w) =>
      if p.HeadRead? { SoundEnter(cfg, s, w, LinkKnown(p.domain, p.next, LinkHash(cfg.sha256, p.prevSealed))); }
    case SealRequested(w, raw, device) =>
      if p.LinkKnown? {
        SoundSealStep(cfg, s, w, p, RequestedFields(cfg, raw, p.domain, p.next, p.prevHash), device);
      }
    case SealFields(w, draft, device) =>
      if p.LinkKnown? { SoundSealStep(cfg, s, w, p, OwnFields(draft, p.domain, p.next, p.prevHash), device); }
    case Insert(w) =>
      if p.Ready? && !Conflicts(s.table, p.row) { SoundInsertStep(cfg, s, w, p.row); }
    case Abandon(w) =>
  }

  /** Every interleaving of any number of writers keeps the log sound. */
  lemma {:induction false} EveryRunIsSound(cfg: Services, actions: seq<Action>)
    requires Honest(cfg)
    ensures Sound(cfg, Run(cfg, Initial, actions))
  {
    if actions != [] {
      EveryRunIsSound(cfg, actions[..|actions| - 1]);
      SoundApply(cfg, Run(cfg, Initial, actions[..|actions| - 1]), actions[|actions| - 1]);
    }
  }

  // ----- what an auditor sees ----------------------------------------------------------------

  /** The auditor's entry for a row: everything but the sealed bytes themselves comes out
      of their verification. */
  function EntryOf(cfg: Services, row: Row): Option<ChainEntry> {
    match cfg.check(row.authorityDomain, row.sealed)
    case None => None
    case Some(v) => Some(ChainEntry(v.authorityDomain, v.sequence, v.prevHash, row.sealed))
  }

  /** Every row must verify. */
  function Entries(cfg: Services, listing: seq<Row>): Option<seq<ChainEntry>> {
    if listing == [] then Some([])
    else
      var front :- Entries(cfg, listing[..|listing| - 1]);
      var last :- EntryOf(cfg, listing[|listing| - 1]);
      Some(front + [last])
  }

  /** A listing of the table that may interleave the domains differently, but keeps the
      order within each. */
  ghost predicate ListingOf(listing: seq<Row>, table: seq<Row>) {
    forall domain :: RowsOf(listing, domain) == RowsOf(table, domain)
  }

  /** The sealed bytes verify on their own and say what the columns of the row say. */
  predicate Verified(cfg: Services, row: Row) {
    && var v := cfg.check(row.authorityDomain, row.sealed);
    && v.Some?
    && v.value.eventId == row.eventId
    && v.value.authorityDomain == row.authorityDomain
    && v.value.sequence == row.sequence
    && HexEncode(v.value.prevHash) == row.prevHashHex
  }

  predicate Readable(cfg: Services, row: Row) {
    EntryOf(cfg, row).Some? && EntryOf(cfg, row).value.authorityDomain == row.authorityDomain
  }

  /** Projecting the entries of a listing is listing the entries of the projection. */
  lemma {:induction false} ProjectEntries(cfg: Services, listing: seq<Row>, domain: Bytes)
    requires forall i | 0 <= i < |listing| :: Readable(cfg, listing[i])
    ensures Entries(cfg, listing).Some? && |Entries(cfg, listing).value| == |listing|
    ensures Entries(cfg, RowsOf(listing, domain)).Some?
    ensures Project(Entries(cfg, listing).value, domain) == Entries(cfg, RowsOf(listing, domain)).value
  {
    if listing != [] {
      var n := |listing| - 1;
      ProjectEntries(cfg, listing[..n], domain);
      var entries := Entries(cfg, listing).value;
      assert Readable(cfg, listing[n]);
      assert entries[..n] == Entries(cfg, listing[..n]).value;
      var before := RowsOf(listing[..n], domain);
      if listing[n].authorityDomain == domain { assert (before + [listing[n]])[..|before|] == before; }
    }
  }

  /** The entries of sound rows form a linked chain. */
  lemma {:induction false} SoundRowsLinked(cfg: Services, c: Crypto, rows: seq<Row>)
    requires cfg.sha256 == c.sha256 && SoundRows(cfg, rows)
    ensures Entries(cfg, rows).Some?
    ensures
      var chain := Entries(cfg, rows).value;
      && |chain| == |rows| && Linked(c, chain)
      && forall i | 0 <= i < |rows| :: chain[i].sealed == rows[i].sealed
  {
    if rows != [] {
      var n := |rows| - 1;
      var front, row := rows[..n], rows[n];
      forall i | 0 <= i < n
        ensures SoundRow(cfg, front, i)
      {
        assert SoundRow(cfg, rows, i);
      }
      SoundRowsLinked(cfg, c, front);
      assert SoundRow(cfg, rows, n);
      LinkExtend(c, Entries(cfg, front).value, EntryOf(cfg, row).value, n);
      if n > 0 { LastSequence(c, Entries(cfg, front).value); }
    }
  }

  lemma SoundRowVerified(cfg: Services, table: seq<Row>, row: Row)
    requires SoundTable(cfg, table) && row in RowsOf(table, row.authorityDomain)
    ensures Verified(cfg, row)
  {
    var rows := RowsOf(table, row.authorityDomain);
    assert SoundRows(cfg, rows);
    var i :| 0 <= i < |rows| && rows[i] == row;
    assert SoundRow(cfg, rows, i);
  }

  lemma SoundListing(cfg: Services, c: Crypto, table: seq<Row>, listing: seq<Row>)
    requires cfg.sha256 == c.sha256
    requires SoundTable(cfg, table) && ListingOf(listing, table)
    ensures forall i | 0 <= i < |listing| :: Verified(cfg, listing[i])
    ensures Entries(cfg, listing).Some? && |Entries(cfg, listing).value| == |listing|
    ensures AllLinked(c, Entries(cfg, listing).value)
  {
    forall i | 0 <= i < |listing|
      ensures Verified(cfg, listing[i]) && Readable(cfg, listing[i])
    {
      RowsOfMember(listing, listing[i]);
      SoundRowVerified(cfg, table, listing[i]);
    }
    ProjectEntries(cfg, listing, "");
    forall domain
      ensures DomainLinked(c, Entries(cfg, listing).value, domain)
    {
      ProjectEntries(cfg, listing, domain);
      assert SoundRows(cfg, RowsOf(table, domain));
      SoundRowsLinked(cfg, c, RowsOf(listing, domain));
    }
  }

  /** The rows of a domain carry the sequences 0, 1, 2, ... without gap or repetition. */
  predicate Numbered(rows: seq<Row>) {
    forall i | 0 <= i < |rows| :: rows[i].sequence == i
  }

  lemma SoundNumbered(cfg: Services, rows: seq<Row>)
    requires SoundRows(cfg, rows)
    ensures Numbered(rows) && |rows| <= MAX_SAFE_INTEGER + 1
  {
    forall i | 0 <= i < |rows|
      ensures rows[i].sequence == i <= MAX_SAFE_INTEGER
    {
      assert SoundRow(cfg, rows, i);
    }
    if rows != [] { assert SoundRow(cfg, rows, |rows| - 1); }
  }

  /** Whatever the writers did, each domain is numbered 0..n-1 below 2^53, and every
      listing of the table passes the whole audit: each row verifies on its own and agrees
      with its columns, and the chain check accepts what the rows say. */
  lemma EveryRunIsAccepted(cfg: Services, c: Crypto, actions: seq<Action>, listing: seq<Row>)
    requires Honest(cfg) && cfg.sha256 == c.sha256
    requires ListingOf(listing, Run(cfg, Initial, actions).table)
    ensures forall domain ::
      Numbered(RowsOf(listing, domain)) && |RowsOf(listing, domain)| <= MAX_SAFE_INTEGER + 1
    ensures forall i | 0 <= i < |listing| :: Verified(cfg, listing[i])
    ensures Entries(cfg, listing).Some?
    ensures listing != [] ==> ChainAccepted(c, Entries(cfg, listing).value)
  {
    EveryRunIsSound(cfg, actions);
    var table := Run(cfg, Initial, actions).table;
    SoundListing(cfg, c, table, listing);
    forall domain
      ensures Numbered(RowsOf(listing, domain)) && |RowsOf(listing, domain)| <= MAX_SAFE_INTEGER + 1
    {
      assert SoundRows(cfg, RowsOf(table, domain));
      SoundNumbered(cfg, RowsOf(table, domain));
    }
  }
}
