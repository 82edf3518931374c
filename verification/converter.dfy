/**
 `convertJsonToExcel`: the validation guard in front of the sheet builder, the
 write, and the release of the workbook in the `finally` block. Reading the
 file and writing the workbook are I/O; their outcomes are inputs here.
 */
module Converter {
  import opened Wrappers
  import opened Cells
  import opened Sheet

  /** The `data` object of the response; `records` is the wire field `data.data`. */
  datatype ResponseData = ResponseData(page: int, limit: int, order: string, field: string, total: int,
                                       records: Option<seq<Record>>)

  datatype ApiResponse = ApiResponse(code: int, msg: string, data: Option<ResponseData>, requestId: string)

  /** What reading the input file produced: an I/O or parse error, or a response (None when the document is JSON `null`). */
  datatype LoadResult = LoadError | Loaded(response: Option<ApiResponse>)

  datatype Outcome =
    | LoadFailed
      /** `data` or its record list is missing: reported, nothing built. */
    | InvalidData
      /** The record list is empty: reported, nothing built. */
    | EmptyRecords
      /** The sheet was built but writing the file threw. */
    | WriteFailed
    | Written(path: string, fields: seq<string>, sheet: Grid)

  /** The workbook's state once `convertJsonToExcel` returns. */
  datatype WorkbookState = NeverCreated | LeftOpen | Closed

  datatype Run = Run(outcome: Outcome, workbook: WorkbookState)

  /** The record list the guard lets through: present only when the response, its data and its records are all present. */
  function RecordsOf(load: LoadResult): (r: Option<seq<Record>>)
    ensures r.Some? <==> load.Loaded? && load.response.Some? && load.response.value.data.Some?
                         && load.response.value.data.value.records.Some?
    ensures r.Some? ==> r.value == load.response.value.data.value.records.value
  {
    if load.LoadError? then None
    else match load.response
      case None => None
      case Some(resp) =>
        match resp.data
        case None => None
        case Some(d) => d.records
  }

  /** A workbook exists exactly when the guard passed and the sheet was built. */
  predicate WorkbookCreated(outcome: Outcome) {
    outcome.WriteFailed? || outcome.Written?
  }

  /**
   The release as the source writes it: the local `workbook` is assigned only
   when `createExcelFileWithComments` returns, so a workbook whose write threw
   is never seen by the `finally` block and stays open.
   */
  function ReleaseAsWritten(outcome: Outcome): (w: WorkbookState)
    ensures w == Closed <==> outcome.Written?
    ensures w == NeverCreated <==> !WorkbookCreated(outcome)
  {
    match outcome
    case Written(_, _, _) => Closed
    case WriteFailed => LeftOpen
    case _ => NeverCreated
  }

  /** The write failure leaves the workbook open in the source. */
  lemma AsWrittenLeaksOnWriteFailure()
    ensures WorkbookCreated(WriteFailed) && ReleaseAsWritten(WriteFailed) == LeftOpen
  {
  }

  /** The release the `finally` block intends: every workbook that was created is closed, on every path. */
  function Release(outcome: Outcome): (w: WorkbookState)
    ensures w != LeftOpen
    ensures w == Closed <==> WorkbookCreated(outcome)
  {
    if WorkbookCreated(outcome) then Closed else NeverCreated
  }

  /**
   `convertJsonToExcel` after the file has been read. A missing response, data
   or record list, or an empty record list, returns before any workbook is
   built. Otherwise the sheet is built (header row plus one row per record)
   and written unless the write throws. The workbook is released as `Release`
   does it, the corrected `finally` block: it differs from the source's
   release, `ReleaseAsWritten`, exactly when the write throws.
   */
  method ConvertJsonToExcel(load: LoadResult, excelFilePath: string, failing: set<(int, int)>, writeFails: bool)
    returns (run: Run)
    ensures load.LoadError? ==> run.outcome == LoadFailed
    ensures load.Loaded? && RecordsOf(load).None? ==> run.outcome == InvalidData
    ensures RecordsOf(load) == Some([]) ==> run.outcome == EmptyRecords
    ensures WorkbookCreated(run.outcome) <==> RecordsOf(load).Some? && RecordsOf(load).value != []
    ensures run.outcome.WriteFailed? <==> WorkbookCreated(run.outcome) && writeFails
    ensures run.outcome.Written? ==>
              var records := RecordsOf(load).value;
              && run.outcome.path == excelFilePath
              && IsFieldList(run.outcome.fields, records)
              && |run.outcome.sheet| == |records| + 1
              && (forall r :: 0 <= r < |run.outcome.sheet| ==> |run.outcome.sheet[r]| == |run.outcome.fields|)
              && (forall c :: 0 <= c < |run.outcome.fields| ==> run.outcome.sheet[0][c] == HeaderCell(run.outcome.fields[c]))
              && (forall i, c :: 0 <= i < |records| && 0 <= c < |run.outcome.fields| ==>
                    run.outcome.sheet[i + 1][c] == DataCell(records[i], run.outcome.fields[c], i + 1, c, failing))
    ensures run.workbook != LeftOpen
    ensures run.workbook == Closed <==> WorkbookCreated(run.outcome)
    ensures run.workbook == ReleaseAsWritten(run.outcome) <==> !run.outcome.WriteFailed?
  {
    var outcome: Outcome;
    if load.LoadError? {
      outcome := LoadFailed;
    } else {
      var records := RecordsOf(load);
      if records.None? {
        outcome := InvalidData;
      } else if records.value == [] {
        outcome := EmptyRecords;
      } else {
        var fields, sheet := CreateSheet(records.value, failing);
        if writeFails {
          outcome := WriteFailed;
        } else {
          outcome := Written(excelFilePath, fields, sheet);
        }
      }
    }
    run := Run(outcome, Release(outcome));
  }
}
