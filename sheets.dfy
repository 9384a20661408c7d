/** An in-memory model of one worksheet of the spreadsheet service: a header row and the grid of
    cells below it, with the three operations the core uses (`append_row`, `batch_clear`,
    `append_rows`) and `get_all_records`. */
module Sheets {

  /** The value of one cell, as Python sees it after reading a sheet or building a DataFrame
      (`Missing` is pandas' NaN). */
  datatype Cell = Text(s: string) | Int(i: int) | Real(r: real) | Bool(b: bool) | Missing

  type Row = seq<Cell>

  /** One data row keyed by the header, as `get_all_records` returns it. */
  type Record = map<string, Cell>

  /** What an empty cell reads as. */
  const BLANK: Cell := Text("")

  /** `batch_clear(["A2:Z1000"])` covers sheet rows 2 to 1000, that is the first 999 data rows,
      and the columns A to Z. */
  const CLEARED_ROWS: nat := 999
  const CLEARED_COLUMNS: nat := 26

  predicate BlankRow(row: Row) {
    forall j :: 0 <= j < |row| ==> row[j] == BLANK
  }

  /** The rows up to the last one holding a non-blank cell: what the service reports as the
      sheet's data, and where an append goes. */
  function Trim(rows: seq<Row>): (t: seq<Row>)
    ensures |t| <= |rows| && t == rows[..|t|]
    ensures t == [] || !BlankRow(t[|t| - 1])
    ensures forall i :: |t| <= i < |rows| ==> BlankRow(rows[i])
  {
    if rows == [] then []
    else if BlankRow(rows[|rows| - 1]) then Trim(rows[..|rows| - 1])
    else rows
  }

  /** Trimming changes nothing when the last row is not blank. */
  lemma TrimKeeps(rows: seq<Row>)
    requires rows == [] || !BlankRow(rows[|rows| - 1])
    ensures Trim(rows) == rows
  {
  }

  /** A row read under the header: `dict(zip(header, row))` after the row has been padded
      with blanks to the header's width; a later column of a repeated name wins. */
  function RecordOf(header: seq<string>, row: Row): (r: Record)
    ensures r.Keys == set k | k in header
  {
    if header == [] then map[]
    else
      var n := |header| - 1;
      RecordOf(header[..n], row)[header[n] := if n < |row| then row[n] else BLANK]
  }

  /** When a column name occurs only at index `k` of the header, the record holds that
      column's cell. */
  lemma {:induction false} RecordOfColumn(header: seq<string>, row: Row, k: nat)
    requires k < |header|
    requires forall j :: 0 <= j < |header| && j != k ==> header[j] != header[k]
    ensures header[k] in RecordOf(header, row)
    ensures RecordOf(header, row)[header[k]] == if k < |row| then row[k] else BLANK
  {
    var n := |header| - 1;
    if k < n {
      RecordOfColumn(header[..n], row, k);
    }
  }

  /** `get_all_records()`: every data row as a record, each keyed by exactly the header's
      column names. */
  function RecordsOf(header: seq<string>, rows: seq<Row>): (rs: seq<Record>)
    ensures |rs| == |rows|
    ensures forall i :: 0 <= i < |rs| ==> rs[i].Keys == set k | k in header
  {
    seq(|rows|, i requires 0 <= i < |rows| => RecordOf(header, rows[i]))
  }

  function ClearRow(row: Row): Row {
    seq(|row|, j requires 0 <= j < |row| => if j < CLEARED_COLUMNS then BLANK else row[j])
  }

  /** The grid after the range A2:Z1000 has been cleared. */
  function ClearRange(rows: seq<Row>): seq<Row> {
    seq(|rows|, i requires 0 <= i < |rows| => if i < CLEARED_ROWS then ClearRow(rows[i]) else rows[i])
  }

  /** The data lies inside the range that `batch_clear(["A2:Z1000"])` clears. */
  predicate WithinClearedRange(rows: seq<Row>) {
    |rows| <= CLEARED_ROWS && forall i :: 0 <= i < |rows| ==> |rows[i]| <= CLEARED_COLUMNS
  }

  /** Clearing a grid that lies within the range leaves no data. */
  lemma ClearRangeEmpties(rows: seq<Row>)
    requires WithinClearedRange(rows)
    ensures Trim(ClearRange(rows)) == []
  {
    var c := ClearRange(rows);
    assert forall i :: 0 <= i < |c| ==> BlankRow(c[i]);
  }

  /** Clearing twice is clearing once, also for a grid that reaches beyond the range. */
  lemma ClearRangeIdempotent(rows: seq<Row>)
    ensures Trim(ClearRange(Trim(ClearRange(rows)))) == Trim(ClearRange(rows))
  {
    var c := ClearRange(rows);
    var t := Trim(c);
    forall i | 0 <= i < |t| && i < CLEARED_ROWS
      ensures ClearRow(t[i]) == t[i]
    {
      assert t[i] == c[i] == ClearRow(rows[i]);
    }
    assert ClearRange(t) == t;
    TrimKeeps(t);
  }

  class Worksheet {
    const title: string
    var header: seq<string>
    /** The rows below the header. */
    var rows: seq<Row>

    /** The grid holds no trailing blank rows: it is exactly what the service reports. */
    predicate Valid()
      reads this
    {
      Trim(rows) == rows
    }

    /** `get_all_records()`. */
    function Records(): (rs: seq<Record>)
      reads this
      ensures |rs| == |rows|
    {
      RecordsOf(header, rows)
    }

    constructor (title: string, header: seq<string>, rows: seq<Row>)
      ensures Valid()
      ensures this.title == title && this.header == header && this.rows == Trim(rows)
    {
      this.title := title;
      this.header := header;
      this.rows := Trim(rows);
    }

    /** `append_row(row)`: the row goes after the last row holding data. */
    method AppendRow(row: Row)
      requires Valid()
      modifies this
      ensures Valid()
      ensures header == old(header)
      ensures rows == Trim(old(rows) + [row])
      ensures !BlankRow(row) ==> rows == old(rows) + [row]
    {
      rows := Trim(rows + [row]);
    }

    /** `batch_clear(["A2:Z1000"])`: the cells of the range become empty; the header and every
        cell outside the range keep their values. */
    method BatchClear()
      requires Valid()
      modifies this
      ensures Valid()
      ensures header == old(header)
      ensures rows == Trim(ClearRange(old(rows)))
      ensures WithinClearedRange(old(rows)) ==> rows == []
    {
      if WithinClearedRange(rows) {
        ClearRangeEmpties(rows);
      }
      rows := Trim(ClearRange(rows));
    }

    /** `append_rows(rows)`: the rows go, in order, after the last row holding data. */
    method AppendRows(newRows: seq<Row>)
      requires Valid()
      modifies this
      ensures Valid()
      ensures header == old(header)
      ensures rows == Trim(old(rows) + newRows)
    {
      rows := Trim(rows + newRows);
    }
  }
}
