/**
 The grid built by `createExcelFileWithComments`: the field list discovered
 from the records (`getAllFields`), the header row (`createHeaderRow`) and one
 data row per record (`fillDataRowsWithComments`). Row 0 is the header; record
 `i` becomes row `i + 1`; column `c` of every row belongs to field `fields[c]`.
 */
module Sheet {
  import opened Wrappers
  import opened Cells

  /** One JSON object of the input list: field name to value. */
  type Record = map<string, Value>

  /** The sheet as rows of cells, row 0 first. */
  type Grid = seq<seq<Cell>>

  /** The set of field names used by at least one record. */
  function KeyUnion(records: seq<Record>): (keys: set<string>)
    ensures forall i, k :: 0 <= i < |records| && k in records[i] ==> k in keys
    ensures forall k :: k in keys ==> exists i :: 0 <= i < |records| && k in records[i]
  {
    if records == [] then {}
    else
      var init := records[..|records| - 1];
      assert forall i :: 0 <= i < |init| ==> init[i] == records[i];
      KeyUnion(init) + records[|records| - 1].Keys
  }

  predicate NoDuplicates(s: seq<string>) {
    forall i, j :: 0 <= i < j < |s| ==> s[i] != s[j]
  }

  /**
   A valid header order: every field name of every record exactly once. The
   source iterates a hash set, so its order is unspecified; the model admits
   any order with this property.
   */
  ghost predicate IsFieldList(fields: seq<string>, records: seq<Record>) {
    NoDuplicates(fields) && forall f :: f in fields <==> f in KeyUnion(records)
  }

  /** `getAllFields` followed by the copy into a list: collects the keys of each record in turn, skipping ones already seen. */
  method GetAllFields(records: seq<Record>) returns (fields: seq<string>)
    ensures IsFieldList(fields, records)
  {
    fields := [];
    var i := 0;
    while i < |records|
      invariant 0 <= i <= |records|
      invariant NoDuplicates(fields)
      invariant forall f :: f in fields <==> f in KeyUnion(records[..i])
    {
      var remaining := records[i].Keys;
      while remaining != {}
        invariant remaining <= records[i].Keys
        invariant NoDuplicates(fields)
        invariant forall f :: f in fields <==> f in KeyUnion(records[..i]) || f in records[i].Keys - remaining
        decreases remaining
      {
        var k :| k in remaining;
        if k !in fields {
          fields := fields + [k];
        }
        remaining := remaining - {k};
      }
      assert records[..i + 1][..i] == records[..i];
      i := i + 1;
    }
    assert records[..|records|] == records;
  }

  /** `Map.get`: the value under `field`, or null when the record lacks the field. */
  function Lookup(record: Record, field: string): Value {
    if field in record then record[field] else Null
  }

  function HeaderCell(field: string): Cell {
    Cell(Text(field), None, HeaderStyle, false)
  }

  /** `createHeaderRow`: one header-styled cell per field, in field order. */
  function HeaderRow(fields: seq<string>): (row: seq<Cell>)
    ensures |row| == |fields|
    ensures forall c :: 0 <= c < |fields| ==> row[c] == HeaderCell(fields[c])
  {
    seq(|fields|, c requires 0 <= c < |fields| => HeaderCell(fields[c]))
  }

  /** The cell at sheet row `rowIndex`, column `col`: the cell policy on the record's value under the column's field. */
  function DataCell(record: Record, field: string, rowIndex: int, col: int, failing: set<(int, int)>): Cell {
    SetCellValueWithComment(Lookup(record, field), field, (rowIndex, col) in failing)
  }

  /** The data row of `record` at sheet row `rowIndex`: one cell per field, column `c` holding field `c`'s cell. */
  function DataRow(record: Record, fields: seq<string>, rowIndex: int, failing: set<(int, int)>): (row: seq<Cell>)
    ensures |row| == |fields|
    ensures forall c :: 0 <= c < |fields| ==> row[c] == DataCell(record, fields[c], rowIndex, c, failing)
  {
    seq(|fields|, c requires 0 <= c < |fields| => DataCell(record, fields[c], rowIndex, c, failing))
  }

  /** The inner loop of `fillDataRowsWithComments`: one data cell per field, in field order. */
  method FillRow(record: Record, fields: seq<string>, rowIndex: int, failing: set<(int, int)>) returns (row: seq<Cell>)
    ensures |row| == |fields|
    ensures forall c :: 0 <= c < |fields| ==> row[c] == DataCell(record, fields[c], rowIndex, c, failing)
  {
    row := [];
    var colIndex := 0;
    while colIndex < |fields|
      invariant 0 <= colIndex <= |fields|
      invariant |row| == colIndex
      invariant forall c :: 0 <= c < colIndex ==> row[c] == DataCell(record, fields[c], rowIndex, c, failing)
    {
      var field := fields[colIndex];
      row := row + [DataCell(record, field, rowIndex, colIndex, failing)];
      colIndex := colIndex + 1;
    }
  }

  /**
   `fillDataRowsWithComments`: record `i` becomes sheet row `i + 1`, a row of one
   cell per field. `failing` holds the (row, column) positions where attaching
   an annotation throws.
   */
  method FillDataRows(records: seq<Record>, fields: seq<string>, failing: set<(int, int)>) returns (rows: Grid)
    ensures |rows| == |records|
    ensures forall i :: 0 <= i < |records| ==> rows[i] == DataRow(records[i], fields, i + 1, failing)
  {
    rows := [];
    var rowIndex := 1;
    while rowIndex <= |records|
      invariant 1 <= rowIndex <= |records| + 1
      invariant |rows| == rowIndex - 1
      invariant forall i :: 0 <= i < |rows| ==> rows[i] == DataRow(records[i], fields, i + 1, failing)
    {
      var row := FillRow(records[rowIndex - 1], fields, rowIndex, failing);
      assert row == DataRow(records[rowIndex - 1], fields, rowIndex, failing);
      rows := rows + [row];
      rowIndex := rowIndex + 1;
    }
  }

  /** A record lacking a field renders that column through the null path. */
  lemma MissingFieldIsEmpty(record: Record, field: string, rowIndex: int, col: int, failing: set<(int, int)>)
    requires field !in record
    ensures DataCell(record, field, rowIndex, col, failing) == EMPTY_DATA_CELL
  {
  }

  /**
   The sheet body of `createExcelFileWithComments`: the header row holds every
   field name of every record exactly once; there is one more row than there
   are records; every row has one cell per header column; and the cell at row
   `i + 1`, column `c` is the cell policy applied to record `i`'s value under
   the field named in header column `c` (`fields[c]`), so a record lacking that field shows
   the empty null-path cell there.
   */
  method CreateSheet(records: seq<Record>, failing: set<(int, int)>) returns (fields: seq<string>, sheet: Grid)
    ensures IsFieldList(fields, records)
    ensures |sheet| == |records| + 1
    ensures forall r :: 0 <= r < |sheet| ==> |sheet[r]| == |fields|
    ensures forall c :: 0 <= c < |fields| ==> sheet[0][c] == HeaderCell(fields[c])
    ensures forall c, d :: 0 <= c < d < |fields| ==> sheet[0][c] != sheet[0][d]
    ensures forall k :: k in KeyUnion(records) ==> exists c :: 0 <= c < |fields| && sheet[0][c] == HeaderCell(k)
    ensures forall i, c :: 0 <= i < |records| && 0 <= c < |fields| ==>
              sheet[i + 1][c] == DataCell(records[i], fields[c], i + 1, c, failing)
    ensures forall i, c :: 0 <= i < |records| && 0 <= c < |fields| && fields[c] !in records[i] ==>
              sheet[i + 1][c] == EMPTY_DATA_CELL
  {
    fields := GetAllFields(records);
    var header := HeaderRow(fields);
    var rows := FillDataRows(records, fields, failing);
    sheet := [header] + rows;
    assert sheet[0] == header;
    assert forall r :: 1 <= r <= |records| ==> sheet[r] == rows[r - 1];
    DataRowsHoldPolicy(sheet, records, fields, failing);
    MissingFieldsAreEmpty(sheet, records, fields, failing);
    HeaderRowCoversFields(fields, records);
  }

  /** Below the header, the sheet holds, cell by cell, the policy applied to each record's field values. */
  lemma DataRowsHoldPolicy(sheet: Grid, records: seq<Record>, fields: seq<string>, failing: set<(int, int)>)
    requires |sheet| == |records| + 1
    requires forall r :: 1 <= r <= |records| ==> sheet[r] == DataRow(records[r - 1], fields, r, failing)
    ensures forall r :: 1 <= r <= |records| ==> |sheet[r]| == |fields|
    ensures forall i, c :: 0 <= i < |records| && 0 <= c < |fields| ==>
              sheet[i + 1][c] == DataCell(records[i], fields[c], i + 1, c, failing)
  {
    forall i, c | 0 <= i < |records| && 0 <= c < |fields|
      ensures sheet[i + 1][c] == DataCell(records[i], fields[c], i + 1, c, failing)
    {
      assert sheet[i + 1] == DataRow(records[i], fields, i + 1, failing);
    }
  }

  /** Below the header, a record lacking a column's field shows the empty cell there. */
  lemma MissingFieldsAreEmpty(sheet: Grid, records: seq<Record>, fields: seq<string>, failing: set<(int, int)>)
    requires |sheet| == |records| + 1
    requires forall r :: 1 <= r <= |records| ==> sheet[r] == DataRow(records[r - 1], fields, r, failing)
    ensures forall r :: 1 <= r <= |records| ==> |sheet[r]| == |fields|
    ensures forall i, c :: 0 <= i < |records| && 0 <= c < |fields| && fields[c] !in records[i] ==>
              sheet[i + 1][c] == EMPTY_DATA_CELL
  {
    forall i, c | 0 <= i < |records| && 0 <= c < |fields| && fields[c] !in records[i]
      ensures sheet[i + 1][c] == EMPTY_DATA_CELL
    {
      assert sheet[i + 1] == DataRow(records[i], fields, i + 1, failing);
      MissingFieldIsEmpty(records[i], fields[c], i + 1, c, failing);
    }
  }

  /** The header row of a valid field list names every field of every record in exactly one column. */
  lemma HeaderRowCoversFields(fields: seq<string>, records: seq<Record>)
    requires IsFieldList(fields, records)
    ensures forall c, d :: 0 <= c < d < |fields| ==> HeaderRow(fields)[c] != HeaderRow(fields)[d]
    ensures forall k :: k in KeyUnion(records) ==> exists c :: 0 <= c < |fields| && HeaderRow(fields)[c] == HeaderCell(k)
  {
    var header := HeaderRow(fields);
    forall k | k in KeyUnion(records)
      ensures exists c :: 0 <= c < |fields| && header[c] == HeaderCell(k)
    {
      var c :| 0 <= c < |fields| && fields[c] == k;
      assert header[c] == HeaderCell(k);
    }
  }
}
