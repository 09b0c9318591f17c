/** The positional backing store behind every section: a worksheet whose row 1
    is the header and whose data rows start at row 2, and the tabular snapshot
    (`get_all_records` turned into a DataFrame) that the validators read. */
module Worksheet {
  import opened PyValues

  /** One record of a snapshot: column name to cell value. */
  type Record = map<string, Value>

  /** A snapshot of a worksheet: its column order and its records, where a
      record's position in `rows` is its 0-based index. */
  datatype Frame = Frame(columns: seq<string>, rows: seq<Record>) {
    /** `DataFrame.empty`: no columns or no rows. */
    predicate IsEmpty() { |columns| == 0 || |rows| == 0 }
  }

  /** `row.get(key, default)`. */
  function Get(r: Record, key: string, default: Value): Value {
    if key in r then r[key] else default
  }

  /** Rows of the store above the first data row: the header and the 1-based
      numbering. */
  const HEADER_OFFSET: nat := 2

  /** The storage row of the record at 0-based position `index`; a negative
      position names the header or no row at all. */
  function StorageRow(index: int): (r: int)
    ensures r - HEADER_OFFSET == index
  {
    index + HEADER_OFFSET
  }

  /** Position of the first header cell named `c`. */
  function HeaderIndex(header: seq<string>, c: string): (k: nat)
    requires c in header
    ensures k < |header| && header[k] == c && forall j :: 0 <= j < k ==> header[j] != c
  {
    if header[0] == c then 0 else 1 + HeaderIndex(header[1..], c)
  }

  /** The record `get_all_records` builds from one data row: the cell under
      each header name, or an empty string where the row is shorter. */
  function RecordOf(header: seq<string>, row: seq<Value>): (r: Record)
    ensures r.Keys == set c | c in header
  {
    map c | c in header :: var k := HeaderIndex(header, c); if k < |row| then row[k] else Str("")
  }

  /** The snapshot of a store. A store that holds only its header yields an
      empty frame with no columns at all. */
  function SnapshotOf(header: seq<string>, rows: seq<seq<Value>>): (f: Frame)
    ensures |f.rows| == |rows| && f.columns == if rows == [] then [] else header
    ensures forall i :: 0 <= i < |rows| ==> f.rows[i] == RecordOf(header, rows[i])
  {
    if rows == [] then Frame([], [])
    else Frame(header, seq(|rows|, i requires 0 <= i < |rows| => RecordOf(header, rows[i])))
  }

  /** gspread's range update at column A: the first `|cells|` cells are
      replaced and any cells beyond them are kept. */
  function Overwrite(row: seq<Value>, cells: seq<Value>): (r: seq<Value>)
    ensures |r| == if |row| > |cells| then |row| else |cells|
    ensures r[..|cells|] == cells && r[|cells|..] == if |row| > |cells| then row[|cells|..] else []
  {
    cells + if |row| > |cells| then row[|cells|..] else []
  }

  /** The remote worksheet, updated in place by `append_row`, `update` and
      `delete_rows`. Row numbers are 1-based storage rows; a write addressed
      to no data row is reported as a failed call. */
  class Sheet {
    var header: seq<string>
    /** Data rows; storage row `r` is `rows[r - HEADER_OFFSET]`. */
    var rows: seq<seq<Value>>

    constructor (header: seq<string>, rows: seq<seq<Value>>)
      ensures this.header == header && this.rows == rows
    {
      this.header := header;
      this.rows := rows;
    }

    function Snapshot(): Frame
      reads this
    {
      SnapshotOf(header, rows)
    }

    /** `append_row(cells)`. */
    method AppendRow(cells: seq<Value>)
      modifies this
      ensures header == old(header) && rows == old(rows) + [cells]
    {
      rows := rows + [cells];
    }

    /** `update(f'A{r}', [cells])`. */
    method UpdateRow(r: int, cells: seq<Value>) returns (ok: bool)
      modifies this
      ensures header == old(header)
      ensures ok <==> HEADER_OFFSET <= r < |old(rows)| + HEADER_OFFSET
      ensures ok ==> rows == old(rows)[r - HEADER_OFFSET := Overwrite(old(rows)[r - HEADER_OFFSET], cells)]
      ensures !ok ==> rows == old(rows)
    {
      ok := HEADER_OFFSET <= r < |rows| + HEADER_OFFSET;
      if ok {
        var k := r - HEADER_OFFSET;
        rows := rows[k := Overwrite(rows[k], cells)];
      }
    }

    /** `delete_rows(r)`: every later row moves up by one. */
    method DeleteRow(r: int) returns (ok: bool)
      modifies this
      ensures header == old(header)
      ensures ok <==> HEADER_OFFSET <= r < |old(rows)| + HEADER_OFFSET
      ensures ok ==> rows == old(rows)[..r - HEADER_OFFSET] + old(rows)[r - HEADER_OFFSET + 1..]
      ensures !ok ==> rows == old(rows)
    {
      ok := HEADER_OFFSET <= r < |rows| + HEADER_OFFSET;
      if ok {
        var k := r - HEADER_OFFSET;
        rows := rows[..k] + rows[k + 1..];
      }
    }
  }

  /** Appending to a store whose header names columns puts the new record at
      position `len(snapshot)`, holding the appended cell under each header
      name, and keeps every earlier position. */
  lemma SnapshotAfterAppend(header: seq<string>, rows: seq<seq<Value>>, cells: seq<Value>)
    requires header != []
    ensures var before, after := SnapshotOf(header, rows), SnapshotOf(header, rows + [cells]);
      && after.columns == header
      && after.rows == before.rows + [RecordOf(header, cells)]
  {
    var before, after := SnapshotOf(header, rows), SnapshotOf(header, rows + [cells]);
    assert after.rows == before.rows + [RecordOf(header, cells)];
  }

  /** Deleting storage row `StorageRow(k)` removes the record at position `k`
      and shifts every later record down by one position, so a cached
      position above `k` now names a different record. */
  lemma SnapshotAfterDelete(header: seq<string>, rows: seq<seq<Value>>, k: nat)
    requires k < |rows|
    ensures var before, after := SnapshotOf(header, rows), SnapshotOf(header, rows[..k] + rows[k + 1..]);
      && |after.rows| == |before.rows| - 1
      && (forall j :: 0 <= j < k ==> after.rows[j] == before.rows[j])
      && (forall j :: k <= j < |after.rows| ==> after.rows[j] == before.rows[j + 1])
  {
    var rest := rows[..k] + rows[k + 1..];
    assert forall j :: 0 <= j < k ==> rest[j] == rows[j];
    assert forall j :: k <= j < |rest| ==> rest[j] == rows[j + 1];
  }

  /** The record at position `k` of a freshly built row is the data's value
      under every header column, or an empty string where it has none. */
  lemma RecordOfBuiltRow(header: seq<string>, data: Record)
    ensures var cells := seq(|header|, i requires 0 <= i < |header| => Get(data, header[i], Str("")));
      RecordOf(header, cells) == map c | c in header :: Get(data, c, Str(""))
  {
  }
}
