/** The identity provider's audit write, undisturbed: read the head, seal, insert. */
module ProviderWrites {
  import opened Basics
  import opened Fields
  import opened AuditDocument
  import opened AuditStore
  import opened AuditLog

  function WriteActions(w: nat, domain: Bytes, draft: EventFields, device: Device): seq<Action> {
    [] + [ReadHeadHashed(w, domain)] + [SealFields(w, draft, device)] + [Insert(w)]
  }

  /** There is room for one more event, and the domain's name is one that can be written. */
  predicate Room(table: seq<Row>, domain: Bytes) {
    |RowsOf(table, domain)| <= MAX_SAFE_INTEGER && BoundedAscii(domain, 128)
  }

  /** The event as it is sealed: the draft at the next position of the domain. */
  function EventAt(cfg: Services, table: seq<Row>, domain: Bytes, draft: EventFields): EventFields
    requires Room(table, domain)
  {
    var rows := RowsOf(table, domain);
    draft.(authorityDomain := domain, sequence := |rows|, prevHash := LinkTo(cfg.sha256, rows, |rows|))
  }

  predicate NewEvent(table: seq<Row>, eventId: Bytes) {
    forall i | 0 <= i < |table| :: table[i].eventId != eventId
  }

  /** Exactly when the event is written: there is room, the sealing answers and the event
      identifier is new. */
  predicate Writes(cfg: Services, table: seq<Row>, domain: Bytes, draft: EventFields, device: Device) {
    && Room(table, domain)
    && cfg.seal(device, EventAt(cfg, table, domain, draft)).Some?
    && NewEvent(table, draft.eventId)
  }

  /** After sealing, a row stands ready and free if and only if the event will be written. */
  lemma SealExact(cfg: Services, s: State, w: nat, domain: Bytes, draft: EventFields, device: Device)
    requires SoundTable(cfg, s.table)
    ensures
      var t := Apply(cfg, Apply(cfg, s, ReadHeadHashed(w, domain)), SealFields(w, draft, device));
      var p := PhaseOf(t, w);
      && t.table == s.table
      && (Writes(cfg, s.table, domain, draft, device) <==> p.Ready? && !Conflicts(s.table, p.row))
      && (p.Ready? ==>
            && Room(s.table, domain)
            && var f := EventAt(cfg, s.table, domain, draft);
            && cfg.seal(device, f).Some?
            && p.row == Row(f.eventId, domain, |RowsOf(s.table, domain)|, HexEncode(f.prevHash), cfg.seal(device, f).value))
  {
    HeadOf(cfg, s.table, domain);
    var rows := RowsOf(s.table, domain);
    assert PhaseOf(Apply(cfg, s, ReadHeadHashed(w, domain)), w) == LinkKnown(domain, |rows|, LinkTo(cfg.sha256, rows, |rows|));
    if Room(s.table, domain) {
      var f := EventAt(cfg, s.table, domain, draft);
      if cfg.seal(device, f).Some? {
        NextIsFree(cfg, s.table, RowOf(f, cfg.seal(device, f).value));
      }
    }
  }

  /** On a sound table, the three steps append the sealed event right behind the domain's last
      one if and only if it is written; otherwise they change nothing. */
  lemma WriteExact(cfg: Services, s: State, w: nat, domain: Bytes, draft: EventFields, device: Device)
    requires SoundTable(cfg, s.table)
    ensures
      var t := Run(cfg, s, WriteActions(w, domain, draft, device));
      && (Writes(cfg, s.table, domain, draft, device) ==>
            var f := EventAt(cfg, s.table, domain, draft);
            t.table == s.table +
              [Row(f.eventId, domain, |RowsOf(s.table, domain)|, HexEncode(f.prevHash), cfg.seal(device, f).value)])
      && (!Writes(cfg, s.table, domain, draft, device) ==> t.table == s.table)
  {
    var a1: seq<Action> := [] + [ReadHeadHashed(w, domain)];
    RunThen(cfg, s, [], ReadHeadHashed(w, domain));
    RunThen(cfg, s, a1, SealFields(w, draft, device));
    RunThen(cfg, s, a1 + [SealFields(w, draft, device)], Insert(w));
    SealExact(cfg, s, w, domain, draft, device);
  }
}
