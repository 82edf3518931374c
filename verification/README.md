# JsonToExcel in Dafny

A Dafny model of the core of JsonToExcel. The tool reads an API response whose
`data.data` field is a list of JSON objects, and writes them to a spreadsheet:
- a header row holding every field name;
- one row per record;
- a special policy for values too long for a spreadsheet cell.

A string longer than `MAX_CELL_LENGTH` (32700 chars) is not stored in its cell.
Instead, the cell gets a short summary, and an annotation attached to the cell
holds the first 1000 chars of the value. If attaching the annotation throws,
the cell instead shows a length placeholder. The cell is highlighted either way.

Modules, one per concern of `JsonToExcelConverter` and `JsonToExcel`:

| module | file | what it models |
|---|---|---|
| `Wrappers` | wrappers.dfy | `Option` |
| `Text` | text.dfy | `String.trim`, `endsWith`, `contains` |
| `Decimal` | decimal.dfy | decimal rendering of lengths, and a reader for it |
| `Content` | content.dfy | `isJsonLike`, `isXmlLike`, `isBase64Like`, and the first-match type chain |
| `Overflow` | overflow.dfy | `createDisplayText`, `createCommentContent`, the fallback placeholder, and a reader for each |
| `Cells` | cells.dfy | `setCellValueWithComment`, `handleLongTextWithComment`, the fallback branch of `addCommentToCell` |
| `Sheet` | sheet.dfy | `getAllFields`, `createHeaderRow`, `fillDataRowsWithComments`, the grid of `createExcelFileWithComments` |
| `Converter` | converter.dfy | the validation guard of `convertJsonToExcel`, and the workbook release |
| `Cli` | cli.dfy | `JsonToExcel.main`: the argument check and the output path |

Each generated text (the cell summary, the annotation, the placeholder) has a
reader that parses it back. A round-trip lemma then shows what the text
states: the value's exact length, its exact preview prefix, the omitted-char
count and the content type.

The JSON, XML and Base64 shapes exclude each other (`ShapesAreExclusive`). So the
first-match chain names exactly the one shape a text has (`Classify`), and the
cell summary and the annotation always agree on the type.

The output path is derived with Java's `String.replace("json", "xlsx")`. It
replaces every non-overlapping occurrence, scanning left to right, and the
model follows the code: every occurrence is replaced. `Cli.ReplaceJsonByPositions`
states the result char by char: inside an occurrence of `json` starting at k,
position i holds `xlsx`[i - k]; everywhere else the input char is kept.
`Cli.Main` states that the derived path is exactly this replacement, and
`Cli.DerivedPath` that it has no `json` left in it.

## Model

| member | source | states |
|---|---|---|
| Text.Trim | src/main/java/com/yw/JsonToExcelConverter.java:329-330 | the trimmed text is empty exactly when the input is all blanks (chars up to U+0020), and a non-empty result starts and ends with a non-blank char |
| Text.TrimIsSlice | src/main/java/com/yw/JsonToExcelConverter.java:329-330 | the trimmed text is the slice of the input that begins right after its leading blanks, and everything after that slice is blank |
| Text.TrimIsCoreSpan | src/main/java/com/yw/JsonToExcelConverter.java:329-330 | when a slice has non-blank end chars and only blanks before and after it, trimming yields exactly that slice |
| Text.CoreSpanOfTrim | src/main/java/com/yw/JsonToExcelConverter.java:329-330 | every text that is not all blanks has such a slice, running from its first to its last non-blank char |
| Text.TrimIdempotent | src/main/java/com/yw/JsonToExcelConverter.java:329-330 | trimming a trimmed text changes nothing |
| Text.TrimOfPadded | src/main/java/com/yw/JsonToExcelConverter.java:329-330 | blanks around a text with non-blank ends are exactly what trimming removes |
| Text.TrimIgnoresPadding | src/main/java/com/yw/JsonToExcelConverter.java:329-330 | trimming a text padded with blanks gives the same result as trimming the text |
| Decimal.NatToString | src/main/java/com/yw/JsonToExcelConverter.java:282 | a length is written as a non-empty run of decimal digits, with no leading zero unless it is 0 |
| Decimal.ReadNat | src/main/java/com/yw/JsonToExcelConverter.java:282 | the reader finds a number exactly when the text starts with a digit, and hands back a proper suffix as the rest |
| Decimal.DigitsValueOfNatToString | src/main/java/com/yw/JsonToExcelConverter.java:282 | the digits written for a length have that length as their value |
| Decimal.ReadNatOfNatToString | src/main/java/com/yw/JsonToExcelConverter.java:282 | a written length followed by a non-digit reads back as that length and the text after it |
| Decimal.NatToStringInjective | src/main/java/com/yw/JsonToExcelConverter.java:282 | different lengths are written differently |
| Decimal.NatToStringLength | src/main/java/com/yw/JsonToExcelConverter.java:213 | a length n takes at most 1 + n/10 digits |
| Content.IsJsonLike | src/main/java/com/yw/JsonToExcelConverter.java:329 | an empty or all-blank text is never JSON-like |
| Content.JsonLikeByCoreSpan | src/main/java/com/yw/JsonToExcelConverter.java:328-333 | a text is JSON-like exactly when, apart from blank padding, it opens with `{` and closes with `}` or opens with `[` and closes with `]` |
| Content.JsonLikeAtSpan | src/main/java/com/yw/JsonToExcelConverter.java:328-333 | at the text's non-blank core, JSON-likeness is decided by the core's first and last chars |
| Content.IsXmlLike | src/main/java/com/yw/JsonToExcelConverter.java:336 | an empty or all-blank text is never XML-like |
| Content.XmlLikeByCoreSpan | src/main/java/com/yw/JsonToExcelConverter.java:335-340 | a text is XML-like exactly when, apart from blank padding, it opens with `<?xml`, or opens with `<` and closes with `>` |
| Content.XmlLikeAtSpan | src/main/java/com/yw/JsonToExcelConverter.java:335-340 | at the text's non-blank core, XML-likeness is decided by the core's opening and its last char |
| Content.IsBase64Like | src/main/java/com/yw/JsonToExcelConverter.java:342-346 | a Base64-like text has at least 20 chars, a length divisible by 4, and only `[A-Za-z0-9+/]` before its last two chars |
| Content.Base64PatternByPositions | src/main/java/com/yw/JsonToExcelConverter.java:345 | the pattern `^[A-Za-z0-9+/]*={0,2}$` matches exactly the texts whose chars are all Base64 chars or `=` in the last two places, with an `=` only ever followed by `=` |
| Content.Base64HasNothingToTrim | src/main/java/com/yw/JsonToExcelConverter.java:342-346 | a Base64-like text is unchanged by trimming and starts with a Base64 char |
| Content.ShapesAreExclusive | src/main/java/com/yw/JsonToExcelConverter.java:328-346 | no text is both JSON-like and XML-like, and a Base64-like text is neither |
| Content.Classify | src/main/java/com/yw/JsonToExcelConverter.java:211-223 | the JSON, XML, Base64, plain-text chain names each kind exactly when the text has that shape, in both directions |
| Content.StructuredShapesIgnorePadding | src/main/java/com/yw/JsonToExcelConverter.java:328-340 | blanks around a text do not change whether it is JSON-like or XML-like |
| Content.Base64DoesNotTrim | src/main/java/com/yw/JsonToExcelConverter.java:342-346 | Base64 detection does not trim: a leading blank turns a Base64-like text into plain text |
| Overflow.ReadSummaryText | src/main/java/com/yw/JsonToExcelConverter.java:211-223 | each of the four summary templates reads back as exactly the kind, length and preview it was built from |
| Overflow.DisplayIsSummaryOfKind | src/main/java/com/yw/JsonToExcelConverter.java:207-224 | the cell summary uses the template of the classified kind, with a preview of min(200, L) chars for JSON and XML, none for Base64, and min(100, L) for plain text |
| Overflow.DisplayRoundTrip | src/main/java/com/yw/JsonToExcelConverter.java:207-224 | the cell summary of a value states its kind, its exact length L and exactly its first min(p, L) chars, where p is 200, 0 or 100 by kind |
| Overflow.ContentTypeLineIsClassified | src/main/java/com/yw/JsonToExcelConverter.java:295-304 | the annotation's own if-chain (JSON, then XML, then Base64, else text) picks the kind of the classification, and its closing line names that kind |
| Overflow.ReadTypeLineOf | src/main/java/com/yw/JsonToExcelConverter.java:296-304 | each of the four type lines reads back as its kind |
| Overflow.OmittedCount | src/main/java/com/yw/JsonToExcelConverter.java:290-293 | a count of left-out chars exists iff the value has more than 1000 chars, and the count plus 1000 is the value's length |
| Overflow.ReadOmissionOf | src/main/java/com/yw/JsonToExcelConverter.java:290-293 | the omission note appears iff the value has more than 1000 chars, and then states L - 1000 |
| Overflow.CommentLayout | src/main/java/com/yw/JsonToExcelConverter.java:279-307 | the annotation is the field line, the length line, the preview intro, the preview, the omission note and the type line, in that order |
| Overflow.ReadCommentBodyOf | src/main/java/com/yw/JsonToExcelConverter.java:286-304 | the part after the preview intro reads back as exactly the preview of min(1000, L) chars, the omitted count iff L > 1000, and the kind |
| Overflow.ReadCommentOf | src/main/java/com/yw/JsonToExcelConverter.java:279-307 | any annotation laid out that way reads back as its length, preview, omitted count and kind |
| Overflow.CommentRoundTrip | src/main/java/com/yw/JsonToExcelConverter.java:279-307 | the annotation of a value states its exact length L, exactly its first min(1000, L) chars, an omitted count iff L > 1000 (and then L - 1000), and its classified kind |
| Overflow.DisplayAndCommentAgreeOnKind | src/main/java/com/yw/JsonToExcelConverter.java:296-304 | the cell summary and the annotation of the same value name the same content type |
| Overflow.FallbackRoundTrip | src/main/java/com/yw/JsonToExcelConverter.java:272 | the placeholder reads back as exactly the value's length |
| Overflow.OverflowCellTextIsShorter | src/main/java/com/yw/JsonToExcelConverter.java:180-182 | both the summary and the placeholder are shorter than the overflowing value, for any field name at most half its length |
| Cells.HandleLongText | src/main/java/com/yw/JsonToExcelConverter.java:192-202 | an overflowing cell is always highlighted and holds text; it keeps an annotation by the export author iff attaching did not throw |
| Cells.SetCellValueWithComment | src/main/java/com/yw/JsonToExcelConverter.java:160-187 | null gives the empty cell; numbers and booleans are stored as they are; a string or stringified value of at most 32700 chars is stored verbatim; a cell is highlighted iff its string form is longer than that; it carries an annotation iff highlighted and the attach succeeded |
| Cells.OverflowBoundary | src/main/java/com/yw/JsonToExcelConverter.java:180 | 32700 chars are stored verbatim and 32701 chars overflow |
| Cells.AttachedOverflowReadsBack | src/main/java/com/yw/JsonToExcelConverter.java:192-198 | with the annotation attached, the cell text reads back as the value's kind, length and preview, and the annotation as its length, first 1000 chars, omitted count and kind |
| Cells.FailedOverflowReadsBack | src/main/java/com/yw/JsonToExcelConverter.java:269-273 | when attaching throws, no annotation is kept and the cell text reads back as the value's length |
| Cells.OverflowCellFaithful | src/main/java/com/yw/JsonToExcelConverter.java:180-182 | an overflowing value takes the long-text path, and its cell never holds the raw value when the field name is at most half its length |
| Sheet.KeyUnion | src/main/java/com/yw/JsonToExcelConverter.java:111-117 | the field set holds a name iff some record has that key |
| Sheet.GetAllFields | src/main/java/com/yw/JsonToExcelConverter.java:111-117 | the field list holds every key of every record exactly once, and nothing else |
| Sheet.HeaderRow | src/main/java/com/yw/JsonToExcelConverter.java:122-131 | the header row has one header-styled cell per field, column c holding field c |
| Sheet.DataRow | src/main/java/com/yw/JsonToExcelConverter.java:144-152 | the data row of a record has one cell per field, column c holding the cell policy applied to the record's value under field c |
| Sheet.FillRow | src/main/java/com/yw/JsonToExcelConverter.java:144-152 | a data row has one cell per field, column c holding the cell policy applied to the record's value under field c |
| Sheet.FillDataRows | src/main/java/com/yw/JsonToExcelConverter.java:136-155 | record i becomes sheet row i + 1, which is that record's data row |
| Sheet.DataRowsHoldPolicy | src/main/java/com/yw/JsonToExcelConverter.java:139-153 | below the header, every row is as wide as the header, and the cell at row i + 1, column c is the cell policy applied to record i's value under field c |
| Sheet.MissingFieldsAreEmpty | src/main/java/com/yw/JsonToExcelConverter.java:145-151 | below the header, a record lacking a column's field shows the empty, unannotated cell in that column |
| Sheet.MissingFieldIsEmpty | src/main/java/com/yw/JsonToExcelConverter.java:145-151 | a record lacking a field gets the empty, unannotated cell in that column |
| Sheet.HeaderRowCoversFields | src/main/java/com/yw/JsonToExcelConverter.java:87-92 | the header cells are pairwise distinct, and every field of every record has a header column |
| Sheet.CreateSheet | src/main/java/com/yw/JsonToExcelConverter.java:80-95 | the sheet has a header row naming every field exactly once, plus one row per record; every row is as wide as the header; and the cell at row i + 1, column c is the cell policy applied to record i's value under that column's field, or the empty cell when the record lacks it |
| Converter.RecordsOf | src/main/java/com/yw/JsonToExcelConverter.java:32-38 | the guard yields records iff the response, its `data` and its record list are all present, and they are the response's records |
| Converter.ReleaseAsWritten | src/main/java/com/yw/JsonToExcelConverter.java:45-61 | as written, the workbook is closed only after a successful write |
| Converter.AsWrittenLeaksOnWriteFailure | src/main/java/com/yw/JsonToExcelConverter.java:45-61 | as written, a workbook whose write throws is created but left open |
| Converter.Release | src/main/java/com/yw/JsonToExcelConverter.java:53-61 | every workbook that was created is closed, and none is left open |
| Converter.ConvertJsonToExcel | src/main/java/com/yw/JsonToExcelConverter.java:24-63 | a load error, a missing record list and an empty record list each stop the conversion before any workbook exists; otherwise the sheet is built and written unless the write throws; a written sheet has the field list as its header row (row 0, column c holds the header cell of field c) and, at row i + 1 and column c, the cell policy applied to record i under field c. The release is the corrected one of the Findings table (`Converter.Release`): every created workbook is closed, and this differs from the source's release exactly when the write throws |
| Cli.ReplaceAll | src/main/java/com/yw/JsonToExcel.java:10 | a text shorter than the target is unchanged, and a leading occurrence is replaced |
| Cli.ReplaceJsonByPositions | src/main/java/com/yw/JsonToExcel.java:10 | replacing every `json` with `xlsx` keeps the length; a position inside an occurrence of `json` starting at k holds `xlsx`[i - k], and every other position keeps the input char |
| Cli.PositionsDetermineReplacement | src/main/java/com/yw/JsonToExcel.java:10 | any text of the input's length with those two position properties is the replace-all result, so they characterise it completely |
| Cli.JsonDoesNotOverlap | src/main/java/com/yw/JsonToExcel.java:10 | two occurrences of `json` never overlap, so each position lies in at most one replaced occurrence |
| Cli.ReplaceAllKeepsLength | src/main/java/com/yw/JsonToExcel.java:10 | replacing with a string of the target's length keeps the text's length |
| Cli.ReplaceAllWithoutTarget | src/main/java/com/yw/JsonToExcel.java:10 | a text not containing the target is unchanged |
| Cli.ReplaceAllRemovesJson | src/main/java/com/yw/JsonToExcel.java:10 | no `json` is left after replacing every `json` with `xlsx`, including none formed across a replacement |
| Cli.DerivedPath | src/main/java/com/yw/JsonToExcel.java:10 | the derived output path has the input's length and no `json`, and equals the input when the input has none |
| Cli.Main | src/main/java/com/yw/JsonToExcel.java:4-13 | a missing or empty argument array only shows usage; otherwise the first argument is the input, and the second, when given, is the output verbatim; without it, the output is exactly the replace-all of `json` by `xlsx` in the input |

## Left out

- File reading and JSON parsing (`readJsonFile`, Jackson): the loaded response, or the load error, is an input to `Converter.ConvertJsonToExcel`.
- Writing the workbook file: whether the write throws is an input (`writeFails`).
- Whether attaching an annotation throws depends on the spreadsheet library. It is an input: the set `failing` of (row, column) positions.
- `addCommentToCell` is modelled as all-or-nothing: an annotation is attached in full, or not at all with the placeholder in the cell. Partial library state after a throw is not modelled.
- The annotation's drawing anchor (3 columns by 5 rows), the fonts, the header and data cell styles, the workbook's sheet name, and the ignored font-setting failure (lines 255-264) are presentation only. The highlight from `addVisualIndicator` is a boolean on the cell.
- `autoSizeColumns` is commented out at its call site.
- Console and error output (`System.out`, `System.err`, `printStackTrace`) is left out.
- Cells.Value: numbers are an opaque integer tag. The conversion to `double` is not modelled, because only the cell's kind matters to the policy.
- Cells.Value: a nested object or list is represented by the text its `toString()` gives. Java's rendering of maps and lists is not modelled.
- Sheet.GetAllFields: the source iterates a `HashSet`, whose order is unspecified. The model admits every order with each key exactly once, rather than one hash order.
- Cells.SetCellValueWithComment and Overflow.CreateDisplayText: a char of the model is a Unicode scalar value, while Java's `length()` and `substring` count UTF-16 code units. For values outside the Basic Multilingual Plane this shifts the `> 32700` overflow test, the preview cuts at 100 and 200 in the cell summary and at 1000 in the annotation, and the lengths the summary and the annotation embed.
- Overflow.OverflowCellTextIsShorter: needs the field name to be at most half as long as the value. The plain-text summary embeds the field name, so a huge field name could make the summary longer than the value.
- Cells.OverflowCellFaithful: states that the cell does not hold the raw value only under the same field-name bound, for the same reason.
- A null element of the record list is not modelled: records and strings in the model are never null. In the source `record.keySet()` throws for it (line 114); the exception is caught at line 50 and the workbook built at line 80 is never closed.
- Exceptions the spreadsheet library raises while the sheet is built are not modelled, except the annotation-attach failure. One example is a text over the library's cell-length limit at line 128 or 195, which a huge field name can cause. In the source such an exception aborts the whole conversion at line 50.

## Findings

| source | as written | input that shows it | evidently intended | confidence | as-written member | corrected member |
|---|---|---|---|---|---|---|
| src/main/java/com/yw/JsonToExcelConverter.java:45-61 | `workbook` is assigned only when `createExcelFileWithComments` returns. That method builds the workbook at line 80 and throws if the write at lines 101-103 fails, so the `finally` block sees `null` and never closes it | a non-empty record list with an output path that cannot be opened for writing | the `finally` block closes every workbook that was created (the comment at line 54) | not executed | Converter.AsWrittenLeaksOnWriteFailure | Converter.Release |
