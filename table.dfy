/**
 * Turning the rows of an HTML table into records. The first row gives the
 * header texts; each later row becomes an object that maps the header at a
 * cell's position to the cell's text. `extractTableData` skips rows without
 * cells; the `/api/extract-table` endpoint keeps them as empty records.
 */
module Table {
  import opened Http

  /**
   * The property key a cell at position `i` is stored under. Past the end of
   * the headers, `headers[i]` is `undefined`, which JavaScript turns into the
   * key "undefined".
   */
  function HeaderKey(headers: seq<string>, i: nat): string
  {
    if i < |headers| then headers[i] else "undefined"
  }

  /** The object one data row builds, cell by cell, a later cell overwriting an earlier one under the same key. */
  function RowRecord(headers: seq<string>, cells: seq<string>): Record
    decreases |cells|
  {
    if cells == [] then map[]
    else RowRecord(headers, cells[..|cells| - 1])[HeaderKey(headers, |cells| - 1) := cells[|cells| - 1]]
  }

  /** A row's record has exactly the keys of its cells' positions. */
  lemma {:induction false} RowRecordKeys(headers: seq<string>, cells: seq<string>)
    ensures forall key :: key in RowRecord(headers, cells) <==>
      exists i: nat :: i < |cells| && HeaderKey(headers, i) == key
    decreases |cells|
  {
    if cells != [] {
      var n := |cells| - 1;
      RowRecordKeys(headers, cells[..n]);
      forall key | key in RowRecord(headers, cells)
        ensures exists i: nat :: i < |cells| && HeaderKey(headers, i) == key
      {
        if key != HeaderKey(headers, n) {
          assert key in RowRecord(headers, cells[..n]);
          var i: nat :| i < |cells[..n]| && HeaderKey(headers, i) == key;
        }
      }
      forall key | exists i: nat :: i < |cells| && HeaderKey(headers, i) == key
        ensures key in RowRecord(headers, cells)
      {
        var i: nat :| i < |cells| && HeaderKey(headers, i) == key;
        if i < n {
          assert exists i': nat :: i' < |cells[..n]| && HeaderKey(headers, i') == key;
        }
      }
    }
  }

  /** The last cell under a key supplies its value: a later duplicate header wins. */
  lemma {:induction false} RowRecordAt(headers: seq<string>, cells: seq<string>, i: nat)
    requires i < |cells|
    requires forall j :: i < j < |cells| ==> HeaderKey(headers, j) != HeaderKey(headers, i)
    ensures HeaderKey(headers, i) in RowRecord(headers, cells)
    ensures RowRecord(headers, cells)[HeaderKey(headers, i)] == cells[i]
    decreases |cells|
  {
    var n := |cells| - 1;
    if i < n {
      RowRecordAt(headers, cells[..n], i);
    }
  }

  /** The header texts: the cells of the first row, if there is one. */
  function Headers(rows: seq<seq<string>>): seq<string>
  {
    if rows == [] then [] else rows[0]
  }

  /** The rows after the first. */
  function Tail(rows: seq<seq<string>>): seq<seq<string>>
  {
    if rows == [] then [] else rows[1..]
  }

  /** The rows that have at least one cell, in their order. */
  function NonEmptyRows(rows: seq<seq<string>>): (r: seq<seq<string>>)
    ensures |r| <= |rows|
    ensures forall i :: 0 <= i < |r| ==> |r[i]| > 0
    ensures (forall i :: 0 <= i < |rows| ==> |rows[i]| > 0) ==> r == rows
    decreases |rows|
  {
    if rows == [] then []
    else
      var last := rows[|rows| - 1];
      assert rows == rows[..|rows| - 1] + [last];
      NonEmptyRows(rows[..|rows| - 1]) + (if |last| > 0 then [last] else [])
  }

  /** The records of the rows that have cells, in order: the body of the row loop, row by row. */
  function Collect(headers: seq<string>, rows: seq<seq<string>>): seq<Record>
    decreases |rows|
  {
    if rows == [] then []
    else
      var last := rows[|rows| - 1];
      Collect(headers, rows[..|rows| - 1]) + (if |last| > 0 then [RowRecord(headers, last)] else [])
  }

  /** The collected records are the records of the non-empty rows, one for one. */
  lemma {:induction false} CollectShape(headers: seq<string>, rows: seq<seq<string>>)
    ensures |Collect(headers, rows)| == |NonEmptyRows(rows)|
    ensures forall i :: 0 <= i < |NonEmptyRows(rows)| ==>
      Collect(headers, rows)[i] == RowRecord(headers, NonEmptyRows(rows)[i])
    decreases |rows|
  {
    if rows != [] {
      CollectShape(headers, rows[..|rows| - 1]);
    }
  }

  /** What `extractTableData` returns for the rows of a page. */
  function TableRecords(rows: seq<seq<string>>): seq<Record>
  {
    Collect(Headers(rows), Tail(rows))
  }

  /** What `/api/extract-table` returns for the rows of a page: one record per later row. */
  function InlineRecords(rows: seq<seq<string>>): seq<Record>
  {
    var data := Tail(rows);
    seq(|data|, i requires 0 <= i < |data| => RowRecord(Headers(rows), data[i]))
  }

  /** Processing one more row extends the records by that row's record, if it is a data row with cells. */
  lemma {:induction false} TableRecordsSnoc(rows: seq<seq<string>>, k: nat)
    requires k < |rows|
    ensures TableRecords(rows[..k + 1]) ==
      TableRecords(rows[..k]) + (if k > 0 && |rows[k]| > 0 then [RowRecord(rows[0], rows[k])] else [])
  {
    if k > 0 {
      var before, after := Tail(rows[..k]), Tail(rows[..k + 1]);
      assert after[..|after| - 1] == before;
      assert Headers(rows[..k]) == Headers(rows[..k + 1]) == rows[0];
    }
  }

  /** The page was fetched and answered with status 200, the only status `extractTableData` reads. */
  predicate Accepted(page: Page)
  {
    page.Fetched? && page.status == 200
  }

  /**
   * The cell loop of a header row: each cell's text is pushed onto the
   * (empty) header list in order.
   */
  method HeaderCells(cells: seq<string>) returns (headers: seq<string>)
    ensures headers == cells
  {
    headers := [];
    var colIndex := 0;
    while colIndex < |cells|
      invariant colIndex <= |cells|
      invariant headers == cells[..colIndex]
    {
      headers := headers + [cells[colIndex]];
      colIndex := colIndex + 1;
    }
  }

  /**
   * The cell loop of a data row: each cell's text is assigned to the key
   * its position has among the headers.
   */
  method RowObject(headers: seq<string>, cells: seq<string>) returns (rowData: Record)
    ensures rowData == RowRecord(headers, cells)
  {
    rowData := map[];
    var colIndex := 0;
    while colIndex < |cells|
      invariant colIndex <= |cells|
      invariant rowData == RowRecord(headers, cells[..colIndex])
    {
      assert cells[..colIndex + 1][..colIndex] == cells[..colIndex];
      rowData := rowData[HeaderKey(headers, colIndex) := cells[colIndex]];
      colIndex := colIndex + 1;
    }
    assert cells[..colIndex] == cells;
  }

  /**
   * `extractTableData`: a page that was not answered with status 200 gives
   * null; otherwise the row loop collects the headers from row 0 and one
   * record per later row that has cells. The cell loop tests the row index
   * on every cell; the index is fixed within a row, so the test is made
   * once per row here.
   */
  method ExtractTableData(page: Page) returns (tableData: Option<seq<Record>>)
    ensures tableData.None? <==> !Accepted(page)
    ensures tableData.Some? ==> tableData.value == TableRecords(page.rows)
  {
    if page.FetchError? || page.status != 200 {
      return None;
    }
    var rows := page.rows;
    var headers: seq<string> := [];
    var data: seq<Record> := [];
    var rowIndex := 0;
    while rowIndex < |rows|
      invariant rowIndex <= |rows|
      invariant headers == Headers(rows[..rowIndex])
      invariant data == TableRecords(rows[..rowIndex])
    {
      var cells := rows[rowIndex];
      if |cells| > 0 {
        if rowIndex == 0 {
          headers := HeaderCells(cells);
        } else {
          var rowData := RowObject(headers, cells);
          data := data + [rowData];
        }
      }
      TableRecordsSnoc(rows, rowIndex);
      rowIndex := rowIndex + 1;
    }
    assert rows[..rowIndex] == rows;
    return Some(data);
  }

  /** The number of records is the number of rows after the first that have cells. */
  lemma {:induction false} TableRecordsCount(rows: seq<seq<string>>)
    ensures |TableRecords(rows)| == |NonEmptyRows(Tail(rows))|
    ensures (forall i :: 1 <= i < |rows| ==> |rows[i]| > 0) ==> |TableRecords(rows)| == |Tail(rows)|
  {
    CollectShape(Headers(rows), Tail(rows));
  }

  /**
   * Under distinct headers, a row no longer than the header row maps exactly
   * the headers of its cells, each to its own cell.
   */
  lemma {:induction false} RowRecordDistinct(headers: seq<string>, row: seq<string>, c: nat)
    requires forall i, j :: 0 <= i < j < |headers| ==> headers[i] != headers[j]
    requires c < |row| <= |headers|
    ensures RowRecord(headers, row).Keys == set j | 0 <= j < |row| :: headers[j]
    ensures RowRecord(headers, row)[headers[c]] == row[c]
  {
    RowRecordKeys(headers, row);
    RowRecordAt(headers, row, c);
    forall key | key in RowRecord(headers, row)
      ensures key in set j | 0 <= j < |row| :: headers[j]
    {
      var j: nat :| j < |row| && HeaderKey(headers, j) == key;
      assert headers[j] == key;
    }
    forall j | 0 <= j < |row|
      ensures headers[j] in RowRecord(headers, row)
    {
      assert HeaderKey(headers, j) == headers[j];
    }
  }

  /**
   * A well-formed table (distinct headers, every data row non-empty and no
   * longer than the header row) gives one record per data row that maps
   * exactly the headers of its cells to those cells.
   */
  lemma {:induction false} WellFormedTable(rows: seq<seq<string>>, r: nat, c: nat)
    requires forall i, j :: 0 <= i < j < |Headers(rows)| ==> Headers(rows)[i] != Headers(rows)[j]
    requires forall i :: 1 <= i < |rows| ==> 0 < |rows[i]| <= |Headers(rows)|
    requires r + 1 < |rows| && c < |rows[r + 1]|
    ensures |TableRecords(rows)| == |rows| - 1
    ensures TableRecords(rows)[r].Keys == set j | 0 <= j < |rows[r + 1]| :: rows[0][j]
    ensures TableRecords(rows)[r][rows[0][c]] == rows[r + 1][c]
  {
    var data := Tail(rows);
    assert forall i :: 0 <= i < |data| ==> data[i] == rows[i + 1];
    assert NonEmptyRows(data) == data;
    CollectShape(rows[0], data);
    assert TableRecords(rows)[r] == RowRecord(rows[0], rows[r + 1]);
    RowRecordDistinct(rows[0], rows[r + 1], c);
  }

  /** When every later row has cells, the two extraction loops agree. */
  lemma {:induction false} VariantsAgree(rows: seq<seq<string>>)
    requires forall i :: 1 <= i < |rows| ==> |rows[i]| > 0
    ensures InlineRecords(rows) == TableRecords(rows)
  {
    CollectShape(Headers(rows), Tail(rows));
    assert NonEmptyRows(Tail(rows)) == Tail(rows) by {
      assert forall i :: 0 <= i < |Tail(rows)| ==> |Tail(rows)[i]| > 0;
    }
  }

  /** The endpoint's loop keeps a row without cells as an empty record; `extractTableData` drops it. */
  lemma {:induction false} InlineKeepsEmptyRows(rows: seq<seq<string>>, i: nat)
    requires 1 <= i < |rows| && rows[i] == []
    ensures |InlineRecords(rows)| == |rows| - 1
    ensures InlineRecords(rows)[i - 1] == map[]
    ensures [] !in NonEmptyRows(Tail(rows))
  {
  }
}
