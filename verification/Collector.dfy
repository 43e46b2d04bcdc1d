/** The collector's call, as one method on the shared store. */
module Collector {
  import opened Basics
  import opened AuditDocument
  import opened SealerGate
  import opened Chain
  import opened AuditStore
  import opened AuditLog

  datatype RecordResult =
    | Accepted(eventId: Bytes, sequence: int)
    | Refused
    | Failed

  /** Which of the services the call can reach: the table for reading, the hash, the table
      for writing. */
  datatype Reach = Reach(head: bool, hash: bool, insert: bool)

  function RecordActions(domain: Bytes, raw: SealRequest, device: Device): seq<Action> {
    [ReadHead(0, domain), HashPrevious(0), SealRequested(0, raw, device), Insert(0)]
  }

  /** The event as the sealing service's gate makes it of the raw event at the next position
      of the table. (A sound domain never has 2^64 rows, so the reduction is the identity on
      it.) */
  function FieldsAt(cfg: Services, table: seq<Row>, domain: Bytes, raw: SealRequest): Option<EventFields> {
    var rows := RowsOf(table, domain);
    cfg.gate(raw.(authorityDomain := domain, sequence := |rows| % U64_LIMIT, prevHash := LinkTo(cfg.sha256, rows, |rows|)))
  }

  /** The first event of a domain needs no hash. */
  predicate Positioned(reach: Reach, table: seq<Row>, domain: Bytes) {
    reach.head && (reach.hash || RowsOf(table, domain) == [])
  }

  /** One undisturbed call of the collector: if everything can be reached, it is the four
      steps of the protocol in a row. It accepts exactly when the position can be read, the
      gate and the device agree, the event id is new and the insert goes through, and then
      the event sits right behind the domain's last one; a refusal is the gate's and nothing
      else; any other outcome is a failure, and leaves the table as it was. */
  method Record(cfg: Services, reach: Reach, store: EventStore, domain: Bytes, raw: SealRequest, device: Device)
    returns (r: RecordResult)
    requires Honest(cfg) && SoundTable(cfg, store.rows)
    modifies store
    ensures reach == Reach(true, true, true) ==>
      store.rows == Run(cfg, State(old(store.rows), map[]), RecordActions(domain, raw, device)).table
    ensures SoundTable(cfg, store.rows)
    ensures
      var before := old(store.rows);
      var fields := FieldsAt(cfg, before, domain, raw);
      && (r.Refused? <==> Positioned(reach, before, domain) && fields.None?)
      && (r.Accepted? <==>
            && Positioned(reach, before, domain) && reach.insert
            && fields.Some? && cfg.seal(device, fields.value).Some?
            && forall i | 0 <= i < |before| :: before[i].eventId != fields.value.eventId)
      && (r.Accepted? ==>
            && r == Accepted(fields.value.eventId, |RowsOf(before, domain)|)
            && store.rows == before + [RowOf(fields.value, cfg.seal(device, fields.value).value)])
      && (!r.Accepted? ==> store.rows == before)
  {
    ghost var s0 := State(store.rows, map[]);
    RecordSteps(cfg, s0, domain, raw, device);
    if !reach.head { return Failed; }
    HeadOf(cfg, store.rows, domain);
    MaxRowIsHighest(RowsOf(store.rows, domain));
    var next, prevSealed := store.ChainHead(domain);
    var prevHash := CHAIN_ROOT;
    if prevSealed.Some? {
      if !reach.hash { return Failed; }
      prevHash := cfg.sha256(prevSealed.value);
    }
    var fields := RequestedFields(cfg, raw, domain, next, prevHash);
    RequestedAtHead(cfg, s0.table, domain, raw, next, prevHash);
    if fields.None? { return Refused; }
    var sealed := cfg.seal(device, fields.value);
    if sealed.None? { return Failed; }
    var row := RowOf(fields.value, sealed.value);
    NextIsFree(cfg, store.rows, row);
    if !reach.insert { return Failed; }
    var ok := store.Append(row);
    if !ok { return Failed; }
    SoundInsert(cfg, s0.table, row);
    r := Accepted(fields.value.eventId, next);
  }

  lemma RequestedAtHead(cfg: Services, table: seq<Row>, domain: Bytes, raw: SealRequest, next: U64, prevHash: Digest)
    requires next == |RowsOf(table, domain)| && prevHash == LinkTo(cfg.sha256, RowsOf(table, domain), next)
    ensures RequestedFields(cfg, raw, domain, next, prevHash) == FieldsAt(cfg, table, domain, raw)
  {
  }

  lemma RecordSteps(cfg: Services, s: State, domain: Bytes, raw: SealRequest, device: Device)
    requires SoundTable(cfg, s.table)
    ensures
      var p := AfterSeal(cfg, FieldsAt(cfg, s.table, domain, raw), device);
      Run(cfg, s, RecordActions(domain, raw, device)).table ==
        if p.Ready? && !Conflicts(s.table, p.row) then s.table + [p.row] else s.table
  {
    var a := RecordActions(domain, raw, device);
    HeadOf(cfg, s.table, domain);
    RunThen(cfg, s, [], a[0]);
    RunThen(cfg, s, [a[0]], a[1]);
    RunThen(cfg, s, [a[0]] + [a[1]], a[2]);
    RunThen(cfg, s, [a[0]] + [a[1]] + [a[2]], a[3]);
    assert a == [a[0]] + [a[1]] + [a[2]] + [a[3]] && [] + [a[0]] == [a[0]];
  }
}
