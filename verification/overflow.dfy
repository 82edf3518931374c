/**
 The long-text overflow policy of `JsonToExcelConverter`: the summary shown in a
 cell whose value is too long (`createDisplayText`), the annotation text holding
 the start of the full value (`createCommentContent`), and the placeholder written
 when the annotation cannot be attached. Each text has a reader that recovers
 what the text states, and a round-trip lemma shows the reader gets back exactly
 the length, preview, omission count and content type of the original value.
 */
module Overflow {
  import opened Wrappers
  import opened Text
  import opened Decimal
  import opened Content

  /** Longest value stored verbatim in a cell (`MAX_CELL_LENGTH`). */
  const MAX_CELL_LENGTH: nat := 32700
  /** Number of leading chars of the value copied into the annotation (`COMMENT_PREVIEW_LENGTH`). */
  const COMMENT_PREVIEW_LENGTH: nat := 1000
  /** Preview length in the cell summary of JSON-like and XML-like values. */
  const STRUCTURED_PREVIEW_LENGTH: nat := 200
  /** Preview length in the cell summary of plain text. */
  const TEXT_PREVIEW_LENGTH: nat := 100

  function Min(a: nat, b: nat): (m: nat)
    ensures m <= a && m <= b && (m == a || m == b)
  {
    if a < b then a else b
  }

  // ---------------------------------------------------------------- cell summary

  const JSON_HEAD := "📊 [JSON数据: "
  const XML_HEAD := "📋 [XML数据: "
  const BASE64_HEAD := "🔒 [Base64数据: "
  /** Closes the length label; followed by a space and a preview except for Base64. */
  const CHARS_CLOSE := "字符]"
  const ELLIPSIS := "..."

  function TextHead(fieldName: string): string {
    "📝 [" + fieldName + ": "
  }

  /** `<length>字符] <preview>...`, the part after the marker shared by the templates that show a preview. */
  function LengthAndPreview(totalLength: nat, preview: string): string {
    NatToString(totalLength) + ((CHARS_CLOSE + " ") + (preview + ELLIPSIS))
  }

  /** The summary text of one content type: its marker and label, the total length, and the preview unless Base64. */
  function SummaryText(kind: ContentKind, totalLength: nat, preview: string, fieldName: string): (summary: string) {
    match kind
    case Json => JSON_HEAD + LengthAndPreview(totalLength, preview)
    case Xml => XML_HEAD + LengthAndPreview(totalLength, preview)
    case Base64 => BASE64_HEAD + (NatToString(totalLength) + CHARS_CLOSE)
    case PlainText => TextHead(fieldName) + LengthAndPreview(totalLength, preview)
  }

  /**
   `createDisplayText`: the summary written into an overflowing cell. The type
   is chosen by its own first-match chain, as in the source.
   */
  function CreateDisplayText(fullText: string, fieldName: string): (display: string) {
    var totalLength := |fullText|;
    if IsJsonLike(fullText) then
      SummaryText(Json, totalLength, fullText[..Min(STRUCTURED_PREVIEW_LENGTH, |fullText|)], fieldName)
    else if IsXmlLike(fullText) then
      SummaryText(Xml, totalLength, fullText[..Min(STRUCTURED_PREVIEW_LENGTH, |fullText|)], fieldName)
    else if IsBase64Like(fullText) then
      SummaryText(Base64, totalLength, [], fieldName)
    else
      SummaryText(PlainText, totalLength, fullText[..Min(TEXT_PREVIEW_LENGTH, |fullText|)], fieldName)
  }

  /** What a cell summary says: the content type its marker names, the total length and the preview. */
  datatype DisplaySummary = DisplaySummary(kind: ContentKind, length: nat, preview: string)

  /** How many leading chars of the value the summary of each content type shows. */
  function PreviewLength(kind: ContentKind): nat {
    match kind
    case Json => STRUCTURED_PREVIEW_LENGTH
    case Xml => STRUCTURED_PREVIEW_LENGTH
    case Base64 => 0
    case PlainText => TEXT_PREVIEW_LENGTH
  }

  /** Reads `<length>字符] <preview>...`. */
  function ReadLengthAndPreview(s: string, kind: ContentKind): Option<DisplaySummary> {
    match ReadNat(s)
    case None => None
    case Some((n, rest)) =>
      if |rest| >= |CHARS_CLOSE| + 1 + |ELLIPSIS| && CHARS_CLOSE + " " <= rest && EndsWith(rest, ELLIPSIS) then
        Some(DisplaySummary(kind, n, rest[|CHARS_CLOSE| + 1..|rest| - |ELLIPSIS|]))
      else None
  }

  /**
   Reads a cell summary back, given the column's field name (which the plain
   text summary embeds). None when the text is not a summary.
   */
  function ReadDisplay(display: string, fieldName: string): (r: Option<DisplaySummary>) {
    if JSON_HEAD <= display then
      ReadLengthAndPreview(display[|JSON_HEAD|..], Json)
    else if XML_HEAD <= display then
      ReadLengthAndPreview(display[|XML_HEAD|..], Xml)
    else if BASE64_HEAD <= display then
      match ReadNat(display[|BASE64_HEAD|..])
      case None => None
      case Some((n, rest)) => if rest == CHARS_CLOSE then Some(DisplaySummary(Base64, n, [])) else None
    else if TextHead(fieldName) <= display then
      ReadLengthAndPreview(display[|TextHead(fieldName)|..], PlainText)
    else None
  }

  /** `head` is a prefix of `head + rest`, and dropping it leaves `rest`. */
  lemma DropHead(head: string, rest: string)
    ensures head <= head + rest
    ensures (head + rest)[|head|..] == rest
  {
  }

  /** Texts that differ in their first char are not prefixes of each other. */
  lemma FirstCharDiffers(head: string, s: string)
    requires |head| > 0 && |s| > 0 && head[0] != s[0]
    ensures !(head <= s)
  {
  }

  lemma ReadLengthAndPreviewOf(n: nat, preview: string, kind: ContentKind)
    ensures ReadLengthAndPreview(LengthAndPreview(n, preview), kind) == Some(DisplaySummary(kind, n, preview))
  {
    var rest := (CHARS_CLOSE + " ") + (preview + ELLIPSIS);
    assert rest[0] == '字';
    ReadNatOfNatToString(n, rest);
    DropHead(CHARS_CLOSE + " ", preview + ELLIPSIS);
    assert rest[|CHARS_CLOSE| + 1..|rest| - |ELLIPSIS|] == preview;
  }

  lemma ReadJsonSummary(n: nat, preview: string, fieldName: string)
    ensures ReadDisplay(SummaryText(Json, n, preview, fieldName), fieldName) == Some(DisplaySummary(Json, n, preview))
  {
    var tail := LengthAndPreview(n, preview);
    ReadLengthAndPreviewOf(n, preview, Json);
    DropHead(JSON_HEAD, tail);
  }

  lemma ReadXmlSummary(n: nat, preview: string, fieldName: string)
    ensures ReadDisplay(SummaryText(Xml, n, preview, fieldName), fieldName) == Some(DisplaySummary(Xml, n, preview))
  {
    var tail := LengthAndPreview(n, preview);
    ReadLengthAndPreviewOf(n, preview, Xml);
    DropHead(XML_HEAD, tail);
    FirstCharDiffers(JSON_HEAD, XML_HEAD + tail);
  }

  lemma ReadBase64Summary(n: nat, fieldName: string)
    ensures ReadDisplay(SummaryText(Base64, n, [], fieldName), fieldName) == Some(DisplaySummary(Base64, n, []))
  {
    var tail := NatToString(n) + CHARS_CLOSE;
    DropHead(BASE64_HEAD, tail);
    FirstCharDiffers(JSON_HEAD, BASE64_HEAD + tail);
    FirstCharDiffers(XML_HEAD, BASE64_HEAD + tail);
    assert CHARS_CLOSE[0] == '字';
    ReadNatOfNatToString(n, CHARS_CLOSE);
  }

  lemma ReadTextSummary(n: nat, preview: string, fieldName: string)
    ensures ReadDisplay(SummaryText(PlainText, n, preview, fieldName), fieldName) == Some(DisplaySummary(PlainText, n, preview))
  {
    var tail := LengthAndPreview(n, preview);
    ReadLengthAndPreviewOf(n, preview, PlainText);
    DropHead(TextHead(fieldName), tail);
    FirstCharDiffers(JSON_HEAD, TextHead(fieldName) + tail);
    FirstCharDiffers(XML_HEAD, TextHead(fieldName) + tail);
    FirstCharDiffers(BASE64_HEAD, TextHead(fieldName) + tail);
  }

  /** Every summary text reads back as the type, length and preview it was made from. */
  lemma ReadSummaryText(kind: ContentKind, n: nat, preview: string, fieldName: string)
    requires kind == Base64 ==> preview == []
    ensures ReadDisplay(SummaryText(kind, n, preview, fieldName), fieldName) == Some(DisplaySummary(kind, n, preview))
  {
    match kind {
      case Json => ReadJsonSummary(n, preview, fieldName);
      case Xml => ReadXmlSummary(n, preview, fieldName);
      case Base64 => ReadBase64Summary(n, fieldName);
      case PlainText => ReadTextSummary(n, preview, fieldName);
    }
  }

  /** The display text is the summary of the type the first-match chain names, with that type's preview. */
  lemma DisplayIsSummaryOfKind(fullText: string, fieldName: string)
    ensures CreateDisplayText(fullText, fieldName)
         == SummaryText(Classify(fullText), |fullText|,
                        fullText[..Min(PreviewLength(Classify(fullText)), |fullText|)], fieldName)
  {
  }

  /**
   The summary of a value states the value's content type (by the same chain
   as `Classify`), its exact total length, and exactly the prefix of the value
   whose length is the smaller of the type's preview length and the total
   length: 200 chars for JSON and XML, none for Base64, 100 for plain text.
   */
  lemma DisplayRoundTrip(fullText: string, fieldName: string)
    ensures ReadDisplay(CreateDisplayText(fullText, fieldName), fieldName)
         == Some(DisplaySummary(Classify(fullText), |fullText|,
                                fullText[..Min(PreviewLength(Classify(fullText)), |fullText|)]))
  {
    var kind := Classify(fullText);
    DisplayIsSummaryOfKind(fullText, fieldName);
    ReadSummaryText(kind, |fullText|, fullText[..Min(PreviewLength(kind), |fullText|)], fieldName);
  }

  // ---------------------------------------------------------------- annotation text

  const SEPARATOR := "----------------------------------------"
  const FIELD_LABEL := "字段: "
  const LENGTH_LABEL := "总长度: "
  const LENGTH_UNIT := " 字符\n"
  const PREVIEW_INTRO := "预览内容:\n" + SEPARATOR + "\n"
  const OMISSION_HEAD := "\n" + SEPARATOR + "\n" + "... [剩余 "
  const OMISSION_TAIL := " 字符未显示]"
  const JSON_TYPE_LINE := "\n\n📌 内容类型: JSON 数据"
  const XML_TYPE_LINE := "\n\n📌 内容类型: XML 数据"
  const BASE64_TYPE_LINE := "\n\n📌 内容类型: Base64 编码数据"
  const TEXT_TYPE_LINE := "\n\n📌 内容类型: 文本数据"

  /**
   `createCommentContent`: the annotation text. Field and length lines, the
   preview of at most 1000 chars between separators, a count of the chars left
   out when there are any, and a content-type line chosen by its own chain.
   */
  function CreateCommentContent(fullText: string, fieldName: string): (comment: string) {
    var totalLength := |fullText|;
    CommentText(fieldName, totalLength, fullText[..Min(COMMENT_PREVIEW_LENGTH, totalLength)], ContentTypeLine(fullText))
  }

  /** The annotation's pieces, in the order the source appends them. */
  function CommentText(fieldName: string, totalLength: nat, preview: string, typeLine: string): string {
    var fieldLine := FIELD_LABEL + fieldName + "\n" + LENGTH_LABEL;
    var intro := LENGTH_UNIT + PREVIEW_INTRO;
    fieldLine + (NatToString(totalLength) + (intro + (preview + (OmissionOf(totalLength) + typeLine))))
  }

  /** The content-type hint closing the annotation: the type line of the kind the annotation's own chain picks. */
  function ContentTypeLine(fullText: string): string {
    TypeLine(CommentKind(fullText))
  }

  /** The annotation's own first-match chain, written out separately from the display's in the source. */
  function CommentKind(fullText: string): ContentKind {
    if IsJsonLike(fullText) then Json
    else if IsXmlLike(fullText) then Xml
    else if IsBase64Like(fullText) then Base64
    else PlainText
  }

  /** What an annotation says: total length, preview, how many chars it leaves out (if any) and the content type. */
  datatype CommentSummary = CommentSummary(length: nat, preview: string, omitted: Option<nat>, kind: ContentKind)

  function TypeLine(kind: ContentKind): string {
    match kind
    case Json => JSON_TYPE_LINE
    case Xml => XML_TYPE_LINE
    case Base64 => BASE64_TYPE_LINE
    case PlainText => TEXT_TYPE_LINE
  }

  function ReadTypeLine(s: string): (r: Option<ContentKind>)
    ensures r.Some? ==> TypeLine(r.value) == s
  {
    if s == JSON_TYPE_LINE then Some(Json)
    else if s == XML_TYPE_LINE then Some(Xml)
    else if s == BASE64_TYPE_LINE then Some(Base64)
    else if s == TEXT_TYPE_LINE then Some(PlainText)
    else None
  }

  /** Reads the optional omission line: the count it states (or None when absent) and the text after it. */
  function ReadOmission(s: string): Option<(Option<nat>, string)> {
    if OMISSION_HEAD <= s then
      match ReadNat(s[|OMISSION_HEAD|..])
      case None => None
      case Some((m, rest)) =>
        if OMISSION_TAIL <= rest then Some((Some(m), rest[|OMISSION_TAIL|..])) else None
    else Some((None, s))
  }

  /** Reads an annotation back, given the field name it was written for. None when the text is not an annotation. */
  function ReadComment(comment: string, fieldName: string): (r: Option<CommentSummary>) {
    var head := FIELD_LABEL + fieldName + "\n" + LENGTH_LABEL;
    if !(head <= comment) then None
    else
      match ReadNat(comment[|head|..])
      case None => None
      case Some((n, rest)) =>
        var intro := LENGTH_UNIT + PREVIEW_INTRO;
        if !(intro <= rest) then None
        else
          ReadCommentBody(n, rest[|intro|..])
  }

  /** Reads what follows the preview intro of an annotation stating total length `n`: preview, omission line, type line. */
  function ReadCommentBody(n: nat, body: string): Option<CommentSummary> {
    var p := Min(COMMENT_PREVIEW_LENGTH, n);
    if |body| < p then None
    else
      match ReadOmission(body[p..])
      case None => None
      case Some((omitted, typeLine)) =>
        match ReadTypeLine(typeLine)
        case None => None
        case Some(kind) => Some(CommentSummary(n, body[..p], omitted, kind))
  }

  lemma ReadTypeLineOf(kind: ContentKind)
    ensures ReadTypeLine(TypeLine(kind)) == Some(kind)
  {
  }

  /** Texts that differ at some index are not prefixes of each other. */
  lemma CharDiffers(head: string, s: string, i: nat)
    requires i < |head| && i < |s| && head[i] != s[i]
    ensures !(head <= s)
  {
  }

  lemma TypeLineOpensWithBlankLine(kind: ContentKind)
    ensures |TypeLine(kind)| > 1 && TypeLine(kind)[1] == '\n'
  {
  }

  /** How many characters the annotation preview leaves out of a value of `totalLength` characters, if any. */
  function OmittedCount(totalLength: nat): (c: Option<nat>)
    ensures c.Some? <==> totalLength > COMMENT_PREVIEW_LENGTH
    ensures c.Some? ==> c.value + COMMENT_PREVIEW_LENGTH == totalLength
  {
    if totalLength > COMMENT_PREVIEW_LENGTH then Some(totalLength - COMMENT_PREVIEW_LENGTH) else None
  }

  /** The omission line reads back as the omitted count exactly when the value exceeds the annotation preview. */
  lemma ReadOmissionOf(totalLength: nat, typeLine: string)
    requires |typeLine| > 1 && typeLine[1] == '\n'
    ensures ReadOmission(OmissionOf(totalLength) + typeLine)
         == Some((OmittedCount(totalLength), typeLine))
  {
    if totalLength > COMMENT_PREVIEW_LENGTH {
      ReadLongOmission(totalLength, typeLine);
    } else {
      ReadShortOmission(totalLength, typeLine);
    }
  }

  lemma ReadLongOmission(totalLength: nat, typeLine: string)
    requires totalLength > COMMENT_PREVIEW_LENGTH
    ensures ReadOmission(OmissionOf(totalLength) + typeLine) == Some((Some(totalLength - COMMENT_PREVIEW_LENGTH), typeLine))
  {
    var m := totalLength - COMMENT_PREVIEW_LENGTH;
    var line := OmissionOf(totalLength);
    assert line == OMISSION_HEAD + (NatToString(m) + OMISSION_TAIL);
    Reassociate(OMISSION_HEAD, NatToString(m), OMISSION_TAIL, typeLine);
    ReadOmissionLine(m, typeLine);
  }

  lemma ReadShortOmission(totalLength: nat, typeLine: string)
    requires totalLength <= COMMENT_PREVIEW_LENGTH
    requires |typeLine| > 1 && typeLine[1] == '\n'
    ensures ReadOmission(OmissionOf(totalLength) + typeLine) == Some((None, typeLine))
  {
    assert OmissionOf(totalLength) + typeLine == typeLine;
    ReadNoOmission(typeLine);
  }

  /** Without an omission line, the reader finds no count and leaves the type line untouched. */
  lemma ReadNoOmission(typeLine: string)
    requires |typeLine| > 1 && typeLine[1] == '\n'
    ensures ReadOmission(typeLine) == Some((None, typeLine))
  {
    assert OMISSION_HEAD[1] == '-';
    CharDiffers(OMISSION_HEAD, typeLine, 1);
  }

  lemma ReadOmissionLine(m: nat, typeLine: string)
    ensures ReadOmission(OMISSION_HEAD + (NatToString(m) + (OMISSION_TAIL + typeLine))) == Some((Some(m), typeLine))
  {
    var rest := OMISSION_TAIL + typeLine;
    DropHead(OMISSION_HEAD, NatToString(m) + rest);
    assert rest[0] == ' ';
    ReadNatOfNatToString(m, rest);
    DropHead(OMISSION_TAIL, typeLine);
  }

  /** The omission line of a value of the given length, as `createCommentContent` appends it. */
  function OmissionOf(totalLength: nat): string {
    if totalLength > COMMENT_PREVIEW_LENGTH
    then OMISSION_HEAD + (NatToString(totalLength - COMMENT_PREVIEW_LENGTH) + OMISSION_TAIL)
    else ""
  }

  lemma Reassociate(a: string, b: string, c: string, d: string)
    ensures (a + (b + c)) + d == a + (b + (c + d))
  {
  }

  /** The annotation's closing line names the type the first-match chain names. */
  lemma ContentTypeLineIsClassified(fullText: string)
    ensures CommentKind(fullText) == Classify(fullText)
    ensures ContentTypeLine(fullText) == TypeLine(Classify(fullText))
  {
  }

  /** The annotation text laid out as the pieces `createCommentContent` appends, in order. */
  lemma CommentLayout(fullText: string, fieldName: string)
    ensures CreateCommentContent(fullText, fieldName)
         == (FIELD_LABEL + fieldName + "\n" + LENGTH_LABEL)
          + (NatToString(|fullText|)
          + ((LENGTH_UNIT + PREVIEW_INTRO)
          + (fullText[..Min(COMMENT_PREVIEW_LENGTH, |fullText|)]
          + (OmissionOf(|fullText|) + TypeLine(Classify(fullText))))))
  {
    ContentTypeLineIsClassified(fullText);
  }

  /**
   The annotation of a value states its exact total length; its preview is
   exactly the prefix of length min(1000, L); it states an omitted count iff
   L > 1000, and that count is L - 1000; and it names the same content type as
   the first-match chain.
   */
  lemma CommentRoundTrip(fullText: string, fieldName: string)
    ensures ReadComment(CreateCommentContent(fullText, fieldName), fieldName)
         == Some(CommentSummary(|fullText|, fullText[..Min(COMMENT_PREVIEW_LENGTH, |fullText|)],
                                OmittedCount(|fullText|),
                                Classify(fullText)))
  {
    ContentTypeLineIsClassified(fullText);
    ReadCommentOf(CreateCommentContent(fullText, fieldName), |fullText|, fullText[..Min(COMMENT_PREVIEW_LENGTH, |fullText|)],
                  CommentKind(fullText), fieldName);
  }

  /** Any annotation laid out as `createCommentContent` lays it out reads back as its parts. */
  lemma ReadCommentOf(comment: string, n: nat, preview: string, kind: ContentKind, fieldName: string)
    requires |preview| == Min(COMMENT_PREVIEW_LENGTH, n)
    requires comment == CommentText(fieldName, n, preview, TypeLine(kind))
    ensures ReadComment(comment, fieldName)
         == Some(CommentSummary(n, preview, OmittedCount(n), kind))
  {
    var head := FIELD_LABEL + fieldName + "\n" + LENGTH_LABEL;
    var intro := LENGTH_UNIT + PREVIEW_INTRO;
    var body := preview + (OmissionOf(n) + TypeLine(kind));
    var rest := intro + body;
    DropHead(head, NatToString(n) + rest);
    assert rest[0] == ' ';
    ReadNatOfNatToString(n, rest);
    DropHead(intro, body);
    ReadCommentBodyOf(n, preview, kind);
  }

  /** The part after the preview intro reads back as the preview, the omitted count and the kind. */
  lemma ReadCommentBodyOf(n: nat, preview: string, kind: ContentKind)
    requires |preview| == Min(COMMENT_PREVIEW_LENGTH, n)
    ensures ReadCommentBody(n, preview + (OmissionOf(n) + TypeLine(kind)))
         == Some(CommentSummary(n, preview, OmittedCount(n), kind))
  {
    var after := OmissionOf(n) + TypeLine(kind);
    DropHead(preview, after);
    TypeLineOpensWithBlankLine(kind);
    ReadOmissionOf(n, TypeLine(kind));
    ReadTypeLineOf(kind);
  }

  /** The display summary and the annotation of the same value always name the same content type. */
  lemma DisplayAndCommentAgreeOnKind(fullText: string, fieldName: string)
    ensures ReadDisplay(CreateDisplayText(fullText, fieldName), fieldName).Some?
    ensures ReadComment(CreateCommentContent(fullText, fieldName), fieldName).Some?
    ensures ReadDisplay(CreateDisplayText(fullText, fieldName), fieldName).value.kind
         == ReadComment(CreateCommentContent(fullText, fieldName), fieldName).value.kind
  {
    DisplayRoundTrip(fullText, fieldName);
    CommentRoundTrip(fullText, fieldName);
  }

  // ---------------------------------------------------------------- fallback

  const FALLBACK_HEAD := "[内容过长: "

  /** The placeholder `addCommentToCell` writes into the cell when attaching the annotation fails. */
  function FallbackText(totalLength: nat): (placeholder: string) {
    FALLBACK_HEAD + NatToString(totalLength) + CHARS_CLOSE
  }

  function ReadFallback(s: string): (r: Option<nat>) {
    if FALLBACK_HEAD <= s then
      match ReadNat(s[|FALLBACK_HEAD|..])
      case None => None
      case Some((n, rest)) => if rest == CHARS_CLOSE then Some(n) else None
    else None
  }

  /** The placeholder states the value's length and nothing else. */
  lemma FallbackRoundTrip(totalLength: nat)
    ensures ReadFallback(FallbackText(totalLength)) == Some(totalLength)
  {
    assert FallbackText(totalLength) == FALLBACK_HEAD + (NatToString(totalLength) + CHARS_CLOSE);
    DropHead(FALLBACK_HEAD, NatToString(totalLength) + CHARS_CLOSE);
    assert CHARS_CLOSE[0] == '字';
    ReadNatOfNatToString(totalLength, CHARS_CLOSE);
  }

  // ---------------------------------------------------------------- sizes

  /**
   An overflowing value is never written into its cell unchanged: both the
   summary and the placeholder are shorter than the value, provided the field
   name (which the plain-text summary embeds) is at most half as long as it.
   */
  lemma OverflowCellTextIsShorter(fullText: string, fieldName: string)
    requires |fullText| > MAX_CELL_LENGTH
    requires 2 * |fieldName| <= |fullText|
    ensures |CreateDisplayText(fullText, fieldName)| < |fullText|
    ensures |FallbackText(|fullText|)| < |fullText|
  {
    var n := |fullText|;
    var kind := Classify(fullText);
    DisplayIsSummaryOfKind(fullText, fieldName);
    NatToStringLength(n);
    var preview := fullText[..Min(PreviewLength(kind), n)];
    assert |preview| <= 200;
    assert |SummaryText(kind, n, preview, fieldName)| <= |fieldName| + 218 + |NatToString(n)|;
  }
}
