/**
 * The account ledger `result.csv`: a header row written when the file is
 * created, then one row per saved account, `[id, address, password, date]`.
 * The ledger is modelled by the rows a CSV reader gives back and a flag for
 * whether the file exists; the date is an opaque string.
 */
module Ledger {
  import opened Chars

  type Row = seq<string>

  const Header: Row := ["ID", "Account", "Password", "Date"]

  /** The row `save_account` writes; its first field reads back as the id. */
  function Record(id: nat, email: string, password: string, date: string): (r: Row)
    ensures |r| == 4 && r[1] == email && r[2] == password && r[3] == date
    ensures IsDecimal(r[0]) && ParseDecimal(r[0]) == id
  {
    ParseDecimalString(id);
    [DecimalString(id), email, password, date]
  }

  /**
   * `get_next_id`: 1 for a missing file or one with at most one row (the
   * header); otherwise one more than the last row's first field when that
   * field is all digits, and 1 when it is not or the row is empty.
   */
  function NextId(present: bool, rows: seq<Row>): (id: nat)
    ensures id >= 1
  {
    if !present || |rows| <= 1 then 1
    else
      var last := rows[|rows| - 1];
      if last != [] && IsDecimal(last[0]) then ParseDecimal(last[0]) + 1 else 1
  }

  /** The rows after `save_account`: the header first if the file was missing, then the record with the next id. */
  function Saved(present: bool, rows: seq<Row>, email: string, password: string, date: string): (r: seq<Row>)
    ensures |r| == |rows| + (if present then 1 else 2)
    ensures r[..|rows|] == rows
    ensures r[|r| - 1] == Record(NextId(present, rows), email, password, date)
    ensures !present ==> r[|rows|] == Header
  {
    (if present then rows else rows + [Header]) + [Record(NextId(present, rows), email, password, date)]
  }

  /**
   * After a save the ledger's next id is one more than the id just saved,
   * provided the file was missing or had a row: the saved record is then
   * the last row, and not the only one.
   */
  lemma SavedIdFollowsLast(present: bool, rows: seq<Row>, email: string, password: string, date: string)
    requires present ==> rows != []
    ensures NextId(true, Saved(present, rows, email, password, date)) == NextId(present, rows) + 1
  {
    var id := NextId(present, rows);
    var r := Saved(present, rows, email, password, date);
    assert r[|r| - 1][0] == DecimalString(id);
    ParseDecimalString(id);
  }

  /** An entry to save: address, password and date. */
  datatype Entry = Entry(email: string, password: string, date: string)

  /** The ids successive saves give their records. */
  function SavedIds(present: bool, rows: seq<Row>, entries: seq<Entry>): (ids: seq<nat>)
    ensures |ids| == |entries|
    decreases |entries|
  {
    if entries == [] then []
    else
      var e := entries[0];
      [NextId(present, rows)] + SavedIds(true, Saved(present, rows, e.email, e.password, e.date), entries[1..])
  }

  /** Successive saves number their records consecutively, from the next id on. */
  lemma {:induction false} SavesAreConsecutive(present: bool, rows: seq<Row>, entries: seq<Entry>)
    requires present ==> rows != []
    ensures forall i :: 0 <= i < |entries| ==> SavedIds(present, rows, entries)[i] == NextId(present, rows) + i
    decreases |entries|
  {
    if entries != [] {
      var e := entries[0];
      var r := Saved(present, rows, e.email, e.password, e.date);
      SavedIdFollowsLast(present, rows, e.email, e.password, e.date);
      SavesAreConsecutive(true, r, entries[1..]);
    }
  }

  /** Starting without a ledger file, the saved records get ids 1, 2, 3, ... */
  lemma FreshLedgerCountsFromOne(entries: seq<Entry>)
    ensures forall i :: 0 <= i < |entries| ==> SavedIds(false, [], entries)[i] == i + 1
  {
    SavesAreConsecutive(false, [], entries);
  }

  /**
   * A ledger file that exists but is empty gets no header, so its first
   * record is the only row and the second save reuses id 1.
   */
  lemma EmptyFileRepeatsFirstId(a: Entry, b: Entry)
    ensures SavedIds(true, [], [a, b]) == [1, 1]
  {
    var r := Saved(true, [], a.email, a.password, a.date);
    assert |r| == 1;
    assert [a, b][1..] == [b];
  }

  /** The ledger file and its rows, as `save_account` updates them. */
  class CsvLedger {
    var present: bool
    var rows: seq<Row>

    /** A ledger whose file does not exist yet. */
    constructor()
      ensures !present && rows == []
    {
      present := false;
      rows := [];
    }

    /** `get_next_id` on the current file. */
    method GetNextId() returns (id: nat)
      ensures id == NextId(present, rows)
    {
      id := NextId(present, rows);
    }

    /** `save_account`: appends the header if the file is new, then the record; earlier rows stay as they were. */
    method SaveAccount(email: string, password: string, date: string) returns (id: nat)
      modifies this
      ensures id == NextId(old(present), old(rows))
      ensures rows == Saved(old(present), old(rows), email, password, date)
      ensures present
    {
      var fileExists := present;
      id := GetNextId();
      if !fileExists {
        rows := rows + [Header];
      }
      rows := rows + [Record(id, email, password, date)];
      present := true;
    }
  }
}
