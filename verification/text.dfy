/**
 Character-sequence helpers that stand in for the `java.lang.String` methods the
 converter calls: `trim()`, `startsWith`, `endsWith` and `contains`. Java strings
 are modelled as `seq<char>`; a string prefix test `p <= s` is Dafny's own.
 */
module Text {

  /** `String.trim()` removes every leading and trailing char whose code is at most U+0020. */
  predicate IsTrimmable(c: char) {
    c <= ' '
  }

  predicate AllTrimmable(s: string) {
    forall i :: 0 <= i < |s| ==> IsTrimmable(s[i])
  }

  /** The number of trimmable chars at the front of `s`. */
  function LeadingBlanks(s: string): (n: nat)
    ensures n <= |s|
    ensures AllTrimmable(s[..n])
    ensures n < |s| ==> !IsTrimmable(s[n])
  {
    if |s| == 0 || !IsTrimmable(s[0]) then 0
    else
      var m := LeadingBlanks(s[1..]);
      assert s[..1 + m] == [s[0]] + s[1..][..m];
      1 + m
  }

  /** The number of trimmable chars at the back of `s`. */
  function TrailingBlanks(s: string): (n: nat)
    ensures n <= |s|
    ensures AllTrimmable(s[|s| - n..])
    ensures n < |s| ==> !IsTrimmable(s[|s| - 1 - n])
  {
    if |s| == 0 || !IsTrimmable(s[|s| - 1]) then 0
    else
      var init := s[..|s| - 1];
      var m := TrailingBlanks(init);
      assert s[|s| - (1 + m)..] == init[|init| - m..] + [s[|s| - 1]];
      1 + m
  }

  /**
   The model of `String.trim()`: `s` with its leading and trailing trimmable
   chars removed. The result is empty exactly when `s` is all blanks, and a
   non-empty result starts and ends with a non-trimmable char; `TrimIsSlice`
   states where in `s` it lies.
   */
  function Trim(s: string): (t: string)
    ensures |t| <= |s|
    ensures t == [] <==> AllTrimmable(s)
    ensures t != [] ==> !IsTrimmable(t[0]) && !IsTrimmable(t[|t| - 1])
  {
    var lead := LeadingBlanks(s);
    if lead == |s| then
      assert s[..lead] == s;
      []
    else
      var trail := TrailingBlanks(s);
      s[lead..|s| - trail]
  }

  /** The trimmed text is the slice of `s` right after its leading blanks, and everything after that slice is blank. */
  lemma TrimIsSlice(s: string)
    ensures LeadingBlanks(s) + |Trim(s)| <= |s|
    ensures Trim(s) == s[LeadingBlanks(s)..LeadingBlanks(s) + |Trim(s)|]
    ensures AllTrimmable(s[LeadingBlanks(s) + |Trim(s)|..])
  {
    var lead := LeadingBlanks(s);
    var t := Trim(s);
    if lead == |s| {
      assert t == [] by { assert s[..lead] == s; }
      assert s[lead..] == [];
    } else {
      var trail := TrailingBlanks(s);
      BlanksDoNotMeet(s);
      assert t == s[lead..|s| - trail];
      assert lead + |t| == |s| - trail;
    }
  }

  /** In a text that is not all blanks, the leading and trailing blanks are separated by at least one char. */
  lemma BlanksDoNotMeet(s: string)
    requires LeadingBlanks(s) < |s|
    ensures LeadingBlanks(s) + TrailingBlanks(s) < |s|
  {
    var lead := LeadingBlanks(s);
    var trail := TrailingBlanks(s);
    assert !IsTrimmable(s[lead]);
    assert forall i :: |s| - trail <= i < |s| ==> s[i] == s[|s| - trail..][i - (|s| - trail)];
  }

  /** Java's `endsWith`. */
  predicate EndsWith(s: string, suffix: string) {
    |suffix| <= |s| && s[|s| - |suffix|..] == suffix
  }

  /** `needle` occurs in `s` starting at index `i`. */
  predicate OccursAt(s: string, needle: string, i: int) {
    0 <= i && i + |needle| <= |s| && s[i..i + |needle|] == needle
  }

  /** Java's `contains`: `needle` occurs somewhere in `s`. */
  predicate Contains(s: string, needle: string) {
    exists i | 0 <= i <= |s| :: OccursAt(s, needle, i)
  }

  /** Trimming is determined by the non-blank core: blanks added around a trimmed string are all removed again. */
  lemma TrimOfPadded(front: string, core: string, back: string)
    requires AllTrimmable(front) && AllTrimmable(back)
    requires core != [] ==> !IsTrimmable(core[0]) && !IsTrimmable(core[|core| - 1])
    ensures Trim(front + core + back) == core
  {
    var s := front + core + back;
    if core == [] {
      assert AllTrimmable(s) by {
        forall i | 0 <= i < |s| ensures IsTrimmable(s[i]) {
          if i < |front| { assert s[i] == front[i]; } else { assert s[i] == back[i - |front|]; }
        }
      }
    } else {
      LeadingBlanksOfPadded(front, core + back);
      assert s == front + (core + back);
      TrailingBlanksOfPadded(front + core, back);
      assert s[|front|..|s| - |back|] == core;
    }
  }

  /** Blanks in front of a text that starts with a non-blank char are exactly its leading blanks. */
  lemma {:induction false} LeadingBlanksOfPadded(front: string, rest: string)
    requires AllTrimmable(front)
    requires rest != [] && !IsTrimmable(rest[0])
    ensures LeadingBlanks(front + rest) == |front|
    decreases |front|
  {
    if front == [] {
      assert front + rest == rest;
    } else {
      assert (front + rest)[1..] == front[1..] + rest;
      LeadingBlanksOfPadded(front[1..], rest);
    }
  }

  /** Blanks behind a text that ends with a non-blank char are exactly its trailing blanks. */
  lemma {:induction false} TrailingBlanksOfPadded(rest: string, back: string)
    requires AllTrimmable(back)
    requires rest != [] && !IsTrimmable(rest[|rest| - 1])
    ensures TrailingBlanks(rest + back) == |back|
    decreases |back|
  {
    if back == [] {
      assert rest + back == rest;
    } else {
      var init := back[..|back| - 1];
      assert (rest + back)[..|rest + back| - 1] == rest + init;
      TrailingBlanksOfPadded(rest, init);
    }
  }

  /** Trimming twice is the same as trimming once. */
  lemma TrimIdempotent(s: string)
    ensures Trim(Trim(s)) == Trim(s)
  {
    TrimOfPadded([], Trim(s), []);
    assert [] + Trim(s) + [] == Trim(s);
  }

  lemma AllTrimmableConcat(a: string, b: string)
    requires AllTrimmable(a) && AllTrimmable(b)
    ensures AllTrimmable(a + b)
  {
    assert forall i :: 0 <= i < |a| ==> (a + b)[i] == a[i];
    assert forall i :: |a| <= i < |a + b| ==> (a + b)[i] == b[i - |a|];
  }

  /** Blanks added around any text are removed by trimming along with the text's own blanks. */
  lemma TrimIgnoresPadding(front: string, text: string, back: string)
    requires AllTrimmable(front) && AllTrimmable(back)
    ensures Trim(front + text + back) == Trim(text)
  {
    var before, core, after := TrimSplits(text);
    TrimOfDoublePadded(front, before, core, after, back);
  }

  /** Every text is its trimmed form with blanks before and after it. */
  lemma TrimSplits(text: string) returns (before: string, core: string, after: string)
    ensures AllTrimmable(before) && AllTrimmable(after)
    ensures core == Trim(text)
    ensures core != [] ==> !IsTrimmable(core[0]) && !IsTrimmable(core[|core| - 1])
    ensures text == before + core + after
  {
    var lead := LeadingBlanks(text);
    TrimIsSlice(text);
    before := text[..lead];
    core := Trim(text);
    after := text[lead + |core|..];
  }

  /** Two layers of blanks around a trimmed core are removed together. */
  lemma TrimOfDoublePadded(front: string, before: string, core: string, after: string, back: string)
    requires AllTrimmable(front) && AllTrimmable(before) && AllTrimmable(after) && AllTrimmable(back)
    requires core != [] ==> !IsTrimmable(core[0]) && !IsTrimmable(core[|core| - 1])
    ensures Trim(front + (before + core + after) + back) == core
  {
    AllTrimmableConcat(front, before);
    AllTrimmableConcat(after, back);
    assert front + (before + core + after) + back == (front + before) + core + (after + back);
    TrimOfPadded(front + before, core, after + back);
  }

  /** `s[i..j + 1]` is `s` without its blank padding: blanks before `i` and after `j`, and non-blank ends. */
  predicate IsCoreSpan(s: string, i: int, j: int) {
    0 <= i <= j < |s| && AllTrimmable(s[..i]) && AllTrimmable(s[j + 1..]) && !IsTrimmable(s[i]) && !IsTrimmable(s[j])
  }

  /** Trimming yields exactly the core span, whenever the text has one. */
  lemma TrimIsCoreSpan(s: string, i: int, j: int)
    requires IsCoreSpan(s, i, j)
    ensures Trim(s) == s[i..j + 1]
  {
    SplitAround(s, i, j + 1);
    TrimOfPadded(s[..i], s[i..j + 1], s[j + 1..]);
  }

  /** A text that is not all blanks has a core span: from its first to its last non-blank char. */
  lemma CoreSpanOfTrim(s: string)
    requires !AllTrimmable(s)
    ensures IsCoreSpan(s, LeadingBlanks(s), LeadingBlanks(s) + |Trim(s)| - 1)
  {
    TrimIsSlice(s);
    CoreSpanOfSlice(s, Trim(s), LeadingBlanks(s));
  }

  /** A non-blank-ended slice with only blanks around it is a core span. */
  lemma CoreSpanOfSlice(s: string, t: string, i: int)
    requires 0 <= i && i + |t| <= |s| && t == s[i..i + |t|]
    requires t != [] && !IsTrimmable(t[0]) && !IsTrimmable(t[|t| - 1])
    requires AllTrimmable(s[..i]) && AllTrimmable(s[i + |t|..])
    ensures IsCoreSpan(s, i, i + |t| - 1)
  {
    assert s[i] == t[0] && s[i + |t| - 1] == t[|t| - 1];
  }

  /** For a one-char prefix or suffix, `startsWith` and `endsWith` compare the first or last char. */
  lemma OneCharEnds(t: string, c: char)
    requires |t| > 0
    ensures [c] <= t <==> t[0] == c
    ensures EndsWith(t, [c]) <==> t[|t| - 1] == c
  {
    assert t[|t| - 1..] == [t[|t| - 1]];
  }

  lemma SplitAround(s: string, i: nat, j: nat)
    requires i <= j <= |s|
    ensures s == s[..i] + s[i..j] + s[j..]
  {
  }

}
