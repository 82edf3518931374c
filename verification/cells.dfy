/**
 The per-cell value policy of `JsonToExcelConverter` (`setCellValueWithComment`,
 `handleLongTextWithComment` and the fallback branch of `addCommentToCell`). A
 spreadsheet cell is modelled as a small immutable record; whether attaching the
 annotation throws is an input, since it depends on the spreadsheet library.
 */
module Cells {
  import opened Wrappers
  import opened Decimal
  import opened Content
  import opened Overflow

  /**
   A record value as the JSON reader hands it over. `Num` carries the number as an
   opaque tag; `Nested` is any other object (a nested map or list), represented
   by the text its `toString()` produces.
   */
  datatype Value = Null | Num(number: int) | Bool(flag: bool) | Str(text: string) | Nested(rendered: string)

  /** What a cell holds: a string, a number or a boolean. */
  datatype CellValue = Text(text: string) | Number(number: int) | Boolean(flag: bool)

  /** The two base styles; the highlight for hidden content is a separate flag layered on top. */
  datatype Style = HeaderStyle | DataStyle

  datatype Annotation = Annotation(author: string, text: string)

  datatype Cell = Cell(value: CellValue, annotation: Option<Annotation>, style: Style, highlighted: bool)

  /** The author name given to every annotation. */
  const COMMENT_AUTHOR := "数据导出系统"

  /** A data cell after the null path: the empty string, nothing attached, not highlighted. */
  const EMPTY_DATA_CELL := Cell(Text(""), None, DataStyle, false)

  /** The text a string-like value is judged by: the string itself, or the `toString()` of a nested value. */
  function StringForm(v: Value): string
    requires v.Str? || v.Nested?
  {
    if v.Str? then v.text else v.rendered
  }

  /**
   `handleLongTextWithComment` on a data cell: the summary goes into the cell,
   then the annotation is attached; when attaching throws, the cell text is
   replaced by the length placeholder and no annotation is kept. The highlight
   is applied in both cases, since it runs after the attempt unconditionally.
   */
  function HandleLongText(fullText: string, fieldName: string, attachFails: bool): (c: Cell)
    ensures c.highlighted && c.style == DataStyle
    ensures c.annotation.Some? <==> !attachFails
    ensures c.annotation.Some? ==> c.annotation.value.author == COMMENT_AUTHOR
    ensures c.value.Text?
  {
    if attachFails then
      Cell(Text(FallbackText(|fullText|)), None, DataStyle, true)
    else
      Cell(Text(CreateDisplayText(fullText, fieldName)),
           Some(Annotation(COMMENT_AUTHOR, CreateCommentContent(fullText, fieldName))), DataStyle, true)
  }

  /**
   `setCellValueWithComment` on a data cell. Null becomes the empty string;
   numbers and booleans are stored as they are, with no length check; strings
   and stringified values of at most `MAX_CELL_LENGTH` chars are stored
   verbatim, and only longer ones take the overflow path.
   */
  function SetCellValueWithComment(value: Value, fieldName: string, attachFails: bool): (c: Cell)
    ensures c.style == DataStyle
    ensures value.Null? ==> c == EMPTY_DATA_CELL
    ensures value.Num? ==> c == Cell(Number(value.number), None, DataStyle, false)
    ensures value.Bool? ==> c == Cell(Boolean(value.flag), None, DataStyle, false)
    ensures (value.Str? || value.Nested?) && |StringForm(value)| <= MAX_CELL_LENGTH ==>
              c == Cell(Text(StringForm(value)), None, DataStyle, false)
    ensures c.highlighted <==> (value.Str? || value.Nested?) && |StringForm(value)| > MAX_CELL_LENGTH
    ensures c.annotation.Some? <==> c.highlighted && !attachFails
  {
    match value
    case Null => EMPTY_DATA_CELL
    case Num(n) => Cell(Number(n), None, DataStyle, false)
    case Bool(b) => Cell(Boolean(b), None, DataStyle, false)
    case _ =>
      var stringValue := StringForm(value);
      if |stringValue| > MAX_CELL_LENGTH then HandleLongText(stringValue, fieldName, attachFails)
      else Cell(Text(stringValue), None, DataStyle, false)
  }

  /** The length boundary: 32700 chars are stored verbatim, 32701 chars overflow. */
  lemma OverflowBoundary(text: string, fieldName: string, attachFails: bool)
    ensures |text| == MAX_CELL_LENGTH ==> SetCellValueWithComment(Str(text), fieldName, attachFails).value == Text(text)
    ensures |text| == MAX_CELL_LENGTH + 1 ==> SetCellValueWithComment(Str(text), fieldName, attachFails).highlighted
  {
  }

  /** With the annotation attached, the cell summary and the annotation read back as what they state about the value. */
  lemma AttachedOverflowReadsBack(t: string, fieldName: string)
    requires |t| > MAX_CELL_LENGTH
    ensures HandleLongText(t, fieldName, false).annotation.Some?
    ensures ReadDisplay(HandleLongText(t, fieldName, false).value.text, fieldName)
         == Some(DisplaySummary(Classify(t), |t|, t[..Min(PreviewLength(Classify(t)), |t|)]))
    ensures ReadComment(HandleLongText(t, fieldName, false).annotation.value.text, fieldName)
         == Some(CommentSummary(|t|, t[..COMMENT_PREVIEW_LENGTH], Some(|t| - COMMENT_PREVIEW_LENGTH), Classify(t)))
  {
    DisplayRoundTrip(t, fieldName);
    CommentRoundTrip(t, fieldName);
  }

  /** Without the annotation, the placeholder reads back as the value's length. */
  lemma FailedOverflowReadsBack(t: string, fieldName: string)
    ensures HandleLongText(t, fieldName, true).annotation.None?
    ensures ReadFallback(HandleLongText(t, fieldName, true).value.text) == Some(|t|)
  {
    FallbackRoundTrip(|t|);
  }

  /**
   What an overflowing cell says, read back from its texts: with the annotation
   attached, the cell summary states the value's type, length and preview and
   the annotation states its length, first 1000 chars, omitted count and type;
   without it, the placeholder states the length. The cell text is never the
   raw value when the field name is at most half as long as the value.
   */
  lemma OverflowCellFaithful(value: Value, fieldName: string, attachFails: bool)
    requires value.Str? || value.Nested?
    requires |StringForm(value)| > MAX_CELL_LENGTH
    ensures SetCellValueWithComment(value, fieldName, attachFails) == HandleLongText(StringForm(value), fieldName, attachFails)
    ensures 2 * |fieldName| <= |StringForm(value)| ==>
              SetCellValueWithComment(value, fieldName, attachFails).value != Text(StringForm(value))
  {
    var t := StringForm(value);
    if 2 * |fieldName| <= |t| {
      OverflowCellTextIsShorter(t, fieldName);
    }
  }
}
