/** The append-only table of sealed events shared by every writer. */
module AuditStore {
  import opened Basics

  datatype Row = Row(
    eventId: Bytes,
    authorityDomain: Bytes,
    sequence: int,
    prevHashHex: Bytes,
    sealed: Bytes)

  /** The rows of one domain, in insertion order. */
  function RowsOf(table: seq<Row>, domain: Bytes): seq<Row> {
    if table == [] then []
    else
      var front := RowsOf(table[..|table| - 1], domain);
      var last := table[|table| - 1];
      if last.authorityDomain == domain then front + [last] else front
  }

  /** The row with the highest sequence. */
  function MaxRow(rows: seq<Row>): Option<Row> {
    if rows == [] then None
    else
      var best := MaxRow(rows[..|rows| - 1]);
      var last := rows[|rows| - 1];
      if best.None? || last.sequence > best.value.sequence then Some(last) else best
  }

  function NextSequence(table: seq<Row>, domain: Bytes): int {
    var head := MaxRow(RowsOf(table, domain));
    if head.None? then 0 else head.value.sequence + 1
  }

  function HeadSealed(table: seq<Row>, domain: Bytes): Option<Bytes> {
    var head := MaxRow(RowsOf(table, domain));
    if head.None? then None else Some(head.value.sealed)
  }

  /** The two uniqueness constraints: one position of one domain, and the event id. */
  predicate Conflicts(table: seq<Row>, row: Row) {
    exists i | 0 <= i < |table| ::
      (table[i].authorityDomain == row.authorityDomain && table[i].sequence == row.sequence)
      || table[i].eventId == row.eventId
  }

  /** The head query really returns a row of the domain, and one of highest sequence. */
  lemma {:induction false} MaxRowIsHighest(rows: seq<Row>)
    ensures MaxRow(rows).None? <==> rows == []
    ensures rows != [] ==> MaxRow(rows).value in rows
    ensures forall i | 0 <= i < |rows| :: rows[i].sequence <= MaxRow(rows).value.sequence
  {
    if rows != [] {
      MaxRowIsHighest(rows[..|rows| - 1]);
      assert forall i | 0 <= i < |rows| - 1 :: rows[..|rows| - 1][i] == rows[i];
    }
  }

  lemma RowsOfAppend(table: seq<Row>, row: Row, domain: Bytes)
    ensures RowsOf(table + [row], domain) ==
      RowsOf(table, domain) + (if row.authorityDomain == domain then [row] else [])
  {
  }

  lemma MaxRowStep(table: seq<Row>, row: Row, domain: Bytes)
    ensures
      var best := MaxRow(RowsOf(table, domain));
      MaxRow(RowsOf(table + [row], domain)) ==
        if row.authorityDomain == domain && (best.None? || row.sequence > best.value.sequence) then Some(row) else best
  {
  }

  lemma {:induction false} RowsOfMember(table: seq<Row>, row: Row)
    requires row in table
    ensures row in RowsOf(table, row.authorityDomain)
  {
    var front := table[..|table| - 1];
    if row in front { RowsOfMember(front, row); }
    assert table == front + [table[|table| - 1]];
  }

  class EventStore {
    var rows: seq<Row>

    constructor ()
      ensures rows == []
    {
      rows := [];
    }

    /** `SELECT ... ORDER BY sequence DESC LIMIT 1` on one domain. */
    method ChainHead(domain: Bytes) returns (next: int, prevSealed: Option<Bytes>)
      ensures next == NextSequence(rows, domain)
      ensures prevSealed == HeadSealed(rows, domain)
    {
      var best: Option<Row> := None;
      var i := 0;
      while i < |rows|
        invariant 0 <= i <= |rows|
        invariant best == MaxRow(RowsOf(rows[..i], domain))
      {
        assert rows[..i + 1] == rows[..i] + [rows[i]];
        MaxRowStep(rows[..i], rows[i], domain);
        if rows[i].authorityDomain == domain && (best.None? || rows[i].sequence > best.value.sequence) {
          best := Some(rows[i]);
        }
        i := i + 1;
      }
      assert rows[..i] == rows;
      if best.None? {
        next, prevSealed := 0, None;
      } else {
        next, prevSealed := best.value.sequence + 1, Some(best.value.sealed);
      }
    }

    /** The insert either adds the row at the end or, on a conflict, changes nothing. */
    method Append(row: Row) returns (ok: bool)
      modifies this
      ensures ok <==> forall i | 0 <= i < |old(rows)| ::
        && (old(rows)[i].authorityDomain != row.authorityDomain || old(rows)[i].sequence != row.sequence)
        && old(rows)[i].eventId != row.eventId
      ensures rows == if ok then old(rows) + [row] else old(rows)
    {
      ok := true;
      for i := 0 to |rows|
        invariant rows == old(rows)
        invariant ok <==> !Conflicts(rows[..i], row)
      {
        var r := rows[i];
        assert rows[..i + 1] == rows[..i] + [r];
        if (r.authorityDomain == row.authorityDomain && r.sequence == row.sequence) || r.eventId == row.eventId {
          assert rows[..i + 1][i] == r;
          ok := false;
        } else {
          ConflictsExtend(rows[..i], r, row);
        }
      }
      assert rows[..|rows|] == rows;
      if ok { rows := rows + [row]; }
    }
  }

  lemma ConflictsExtend(front: seq<Row>, r: Row, row: Row)
    requires !((r.authorityDomain == row.authorityDomain && r.sequence == row.sequence) || r.eventId == row.eventId)
    ensures Conflicts(front + [r], row) <==> Conflicts(front, row)
  {
    var all := front + [r];
    assert forall i | 0 <= i < |front| :: all[i] == front[i];
    assert all[|front|] == r;
  }
}
