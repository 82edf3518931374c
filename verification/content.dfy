/**
 Content classification of an overflowing value (`isJsonLike`, `isXmlLike`,
 `isBase64Like` in `JsonToExcelConverter`) and the first-match chain that picks
 the display template and the comment's content-type line.
 */
module Content {
  import opened Text

  datatype ContentKind = Json | Xml | Base64 | PlainText

  /** `isJsonLike`: the trimmed text is non-empty and is bracketed by `{ }` or by `[ ]`. */
  predicate IsJsonLike(text: string)
    ensures IsJsonLike(text) ==> !AllTrimmable(text)
  {
    var trimmed := Trim(text);
    trimmed != [] && (("{" <= trimmed && EndsWith(trimmed, "}")) || ("[" <= trimmed && EndsWith(trimmed, "]")))
  }

  /** `isXmlLike`: the trimmed text is non-empty and starts with `<?xml`, or starts with `<` and ends with `>`. */
  predicate IsXmlLike(text: string)
    ensures IsXmlLike(text) ==> !AllTrimmable(text)
  {
    var trimmed := Trim(text);
    trimmed != [] && ("<?xml" <= trimmed || ("<" <= trimmed && EndsWith(trimmed, ">")))
  }

  /** One char of the class `[A-Za-z0-9+/]`. */
  predicate IsBase64Char(c: char) {
    ('A' <= c <= 'Z') || ('a' <= c <= 'z') || ('0' <= c <= '9') || c == '+' || c == '/'
  }

  predicate AllBase64Chars(s: string) {
    forall i :: 0 <= i < |s| ==> IsBase64Char(s[i])
  }

  /** `s` is a run of Base64 chars followed by exactly `pad` `=` signs. */
  predicate BodyThenPadding(s: string, pad: nat) {
    pad <= |s| && AllBase64Chars(s[..|s| - pad]) && forall i :: |s| - pad <= i < |s| ==> s[i] == '='
  }

  /** Whole-string match of the pattern `^[A-Za-z0-9+/]*={0,2}$`. */
  predicate MatchesBase64Pattern(s: string) {
    BodyThenPadding(s, 0) || BodyThenPadding(s, 1) || BodyThenPadding(s, 2)
  }

  /**
   `isBase64Like`: looks at the untrimmed text; at least 20 chars, matching the
   Base64 pattern, and a length that is a multiple of 4.
   */
  predicate IsBase64Like(text: string)
    ensures IsBase64Like(text) ==> |text| >= 20 && |text| % 4 == 0
    ensures IsBase64Like(text) ==> forall i :: 0 <= i < |text| - 2 ==> IsBase64Char(text[i])
  {
    if |text| < 20 then false
    else MatchesBase64Pattern(text) && |text| % 4 == 0
  }

  /** A Base64-shaped text has nothing to trim and starts with a Base64 char. */
  lemma Base64HasNothingToTrim(text: string)
    requires IsBase64Like(text)
    ensures Trim(text) == text
    ensures IsBase64Char(text[0])
  {
    assert IsBase64Char(text[0]);
    var last := text[|text| - 1];
    assert last == '=' || IsBase64Char(last) by {
      if BodyThenPadding(text, 0) {
        assert text[..|text|][|text| - 1] == last;
      } else if BodyThenPadding(text, 1) {
      } else {
      }
    }
    TrimOfPadded([], text, []);
    assert [] + text + [] == text;
  }

  /** `{`/`}` or `[`/`]` at the two ends of the core span. */
  predicate JsonEnds(text: string, i: int, j: int)
    requires 0 <= i < |text| && 0 <= j < |text|
  {
    (text[i] == '{' && text[j] == '}') || (text[i] == '[' && text[j] == ']')
  }

  /**
   `isJsonLike` read as a statement about the text's chars: apart from blank
   padding, the text opens with `{` and closes with `}`, or opens with `[` and
   closes with `]`.
   */
  lemma JsonLikeByCoreSpan(text: string)
    ensures IsJsonLike(text) <==> exists i, j :: IsCoreSpan(text, i, j) && JsonEnds(text, i, j)
  {
    if IsJsonLike(text) {
      var i := LeadingBlanks(text);
      var j := i + |Trim(text)| - 1;
      CoreSpanOfTrim(text);
      JsonLikeAtSpan(text, i, j);
    }
    forall i, j | IsCoreSpan(text, i, j) && JsonEnds(text, i, j)
      ensures IsJsonLike(text)
    {
      JsonLikeAtSpan(text, i, j);
    }
  }

  /** At the core span, `isJsonLike` is decided by the span's two end chars. */
  lemma JsonLikeAtSpan(text: string, i: int, j: int)
    requires IsCoreSpan(text, i, j)
    ensures IsJsonLike(text) <==> JsonEnds(text, i, j)
  {
    TrimIsCoreSpan(text, i, j);
    var t := Trim(text);
    assert t[0] == text[i] && t[|t| - 1] == text[j];
    OneCharEnds(t, '{');
    OneCharEnds(t, '}');
    OneCharEnds(t, '[');
    OneCharEnds(t, ']');
  }

  /** `<?xml` at the start of the core span, or `<`/`>` at its two ends. */
  predicate XmlEnds(text: string, i: int, j: int)
    requires 0 <= i <= j < |text|
  {
    "<?xml" <= text[i..j + 1] || (text[i] == '<' && text[j] == '>')
  }

  /**
   `isXmlLike` read as a statement about the text's chars: apart from blank
   padding, the text opens with `<?xml`, or opens with `<` and closes with `>`.
   */
  lemma XmlLikeByCoreSpan(text: string)
    ensures IsXmlLike(text) <==> exists i, j :: IsCoreSpan(text, i, j) && XmlEnds(text, i, j)
  {
    if IsXmlLike(text) {
      var i := LeadingBlanks(text);
      var j := i + |Trim(text)| - 1;
      CoreSpanOfTrim(text);
      XmlLikeAtSpan(text, i, j);
    }
    forall i, j | IsCoreSpan(text, i, j) && XmlEnds(text, i, j)
      ensures IsXmlLike(text)
    {
      XmlLikeAtSpan(text, i, j);
    }
  }

  /** At the core span, `isXmlLike` is decided by the span's opening and its two end chars. */
  lemma XmlLikeAtSpan(text: string, i: int, j: int)
    requires IsCoreSpan(text, i, j)
    ensures IsXmlLike(text) <==> XmlEnds(text, i, j)
  {
    TrimIsCoreSpan(text, i, j);
    var t := Trim(text);
    assert t[0] == text[i] && t[|t| - 1] == text[j];
    OneCharEnds(t, '<');
    OneCharEnds(t, '>');
  }

  /**
   The Base64 pattern read as a statement about positions: every char is a
   Base64 char or an `=` in one of the last two places, and an `=` is only
   ever followed by `=`.
   */
  predicate PaddedBase64(s: string) {
    && (forall i :: 0 <= i < |s| ==> IsBase64Char(s[i]) || (s[i] == '=' && i >= |s| - 2))
    && (forall i, j :: 0 <= i < j < |s| && s[i] == '=' ==> s[j] == '=')
  }

  /** The pattern `^[A-Za-z0-9+/]*={0,2}$` matches exactly the padded Base64 texts. */
  lemma Base64PatternByPositions(s: string)
    ensures MatchesBase64Pattern(s) <==> PaddedBase64(s)
  {
    if MatchesBase64Pattern(s) {
      var pad :| pad <= 2 && BodyThenPadding(s, pad);
      assert forall i :: 0 <= i < |s| - pad ==> s[..|s| - pad][i] == s[i];
    }
    if PaddedBase64(s) {
      var pad := if |s| == 0 || s[|s| - 1] != '=' then 0 else if |s| == 1 || s[|s| - 2] != '=' then 1 else 2;
      assert forall i :: 0 <= i < |s| - pad ==> s[..|s| - pad][i] == s[i];
      assert BodyThenPadding(s, pad);
    }
  }

  /** The three shapes exclude each other: no text is both JSON-like and XML-like, and a Base64-like text is neither. */
  lemma ShapesAreExclusive(text: string)
    ensures !(IsJsonLike(text) && IsXmlLike(text))
    ensures IsBase64Like(text) ==> !IsJsonLike(text) && !IsXmlLike(text)
  {
    var t := Trim(text);
    if t != [] {
      assert "{" <= t ==> t[0] == '{';
      assert "[" <= t ==> t[0] == '[';
      assert "<" <= t ==> t[0] == '<';
      assert "<?xml" <= t ==> t[0] == '<';
    }
    if IsBase64Like(text) {
      Base64HasNothingToTrim(text);
    }
  }

  /**
   The first-match chain of `createDisplayText` and `createCommentContent`:
   JSON, then XML, then Base64, then plain text. Because the shapes exclude each
   other, the chain names exactly the one shape the text has, whatever the order.
   */
  function Classify(text: string): (k: ContentKind)
    ensures k == Json <==> IsJsonLike(text)
    ensures k == Xml <==> IsXmlLike(text)
    ensures k == Base64 <==> IsBase64Like(text)
    ensures k == PlainText <==> !IsJsonLike(text) && !IsXmlLike(text) && !IsBase64Like(text)
  {
    ShapesAreExclusive(text);
    if IsJsonLike(text) then Json
    else if IsXmlLike(text) then Xml
    else if IsBase64Like(text) then Base64
    else PlainText
  }

  /** JSON and XML detection ignore surrounding blanks; the verdict on the padded text is the verdict on the text. */
  lemma StructuredShapesIgnorePadding(front: string, text: string, back: string)
    requires AllTrimmable(front) && AllTrimmable(back)
    ensures IsJsonLike(front + text + back) == IsJsonLike(text)
    ensures IsXmlLike(front + text + back) == IsXmlLike(text)
  {
    TrimIgnoresPadding(front, text, back);
  }

  /** Base64 detection, by contrast, does not trim: one leading blank turns a Base64-like text into plain text. */
  lemma Base64DoesNotTrim(text: string)
    requires IsBase64Like(text)
    ensures !IsBase64Like(" " + text)
    ensures Classify(" " + text) == PlainText
  {
    var s := " " + text;
    assert !IsBase64Char(s[0]);
    StructuredShapesIgnorePadding(" ", text, []);
    assert " " + text + [] == s;
    ShapesAreExclusive(text);
  }
}
