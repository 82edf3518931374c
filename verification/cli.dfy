/**
 `JsonToExcel.main`: the argument check and the output path. Without a second
 argument the output path is the input path with `String.replace("json", "xlsx")`
 applied, which replaces every non-overlapping occurrence, scanning left to right.
 */
module Cli {
  import opened Wrappers
  import opened Text

  const JSON := "json"
  const XLSX := "xlsx"

  /**
   `String.replace(target, replacement)` for a non-empty target: scanning left
   to right, each occurrence of `target` is replaced and scanning resumes after it.
   */
  function ReplaceAll(s: string, target: string, replacement: string): (r: string)
    requires |target| > 0
    ensures |s| < |target| ==> r == s
    ensures target <= s ==> replacement <= r
    decreases |s|
  {
    if |s| < |target| then s
    else if target <= s then replacement + ReplaceAll(s[|target|..], target, replacement)
    else [s[0]] + ReplaceAll(s[1..], target, replacement)
  }

  /** Replacing by a string of the same length keeps the length. */
  lemma {:induction false} ReplaceAllKeepsLength(s: string, target: string, replacement: string)
    requires |target| > 0 && |replacement| == |target|
    ensures |ReplaceAll(s, target, replacement)| == |s|
    decreases |s|
  {
    if |s| < |target| {
    } else if target <= s {
      ReplaceAllKeepsLength(s[|target|..], target, replacement);
    } else {
      ReplaceAllKeepsLength(s[1..], target, replacement);
    }
  }

  /** A text without the target is left unchanged. */
  lemma {:induction false} ReplaceAllWithoutTarget(s: string, target: string, replacement: string)
    requires |target| > 0 && !Contains(s, target)
    ensures ReplaceAll(s, target, replacement) == s
    decreases |s|
  {
    if |s| >= |target| {
      assert !OccursAt(s, target, 0);
      assert !Contains(s[1..], target) by {
        forall i | 0 <= i <= |s[1..]| ensures !OccursAt(s[1..], target, i) {
          if OccursAt(s[1..], target, i) {
            assert s[1..][i..i + |target|] == s[i + 1..i + 1 + |target|];
            assert OccursAt(s, target, i + 1);
          }
        }
      }
      ReplaceAllWithoutTarget(s[1..], target, replacement);
    }
  }

  /** The occurrence of `json` at `k` covers position `i`. */
  predicate Covers(s: string, k: int, i: int) {
    OccursAt(s, JSON, k) && k <= i < k + |JSON|
  }

  /** Position `i` lies inside some occurrence of `json`. */
  predicate Covered(s: string, i: int) {
    exists k | 0 <= k <= i :: Covers(s, k, i)
  }

  /** Two occurrences of `json` never overlap: `j` does not occur in `son`. */
  lemma JsonDoesNotOverlap(s: string, k: int, m: int)
    requires OccursAt(s, JSON, k) && OccursAt(s, JSON, m) && k < m
    ensures k + |JSON| <= m
  {
    assert s[m] == s[m..m + 4][0] == 'j';
    assert forall p :: k < p < k + 4 ==> s[p] == s[k..k + 4][p - k] != 'j';
  }

  /** An occurrence in a suffix of `s` is the same occurrence in `s`, shifted. */
  lemma OccursInSuffix(s: string, d: nat, k: int)
    requires d <= |s| && 0 <= k
    ensures OccursAt(s[d..], JSON, k) <==> OccursAt(s, JSON, k + d)
  {
    if 0 <= k && k + 4 <= |s| - d {
      assert s[d..][k..k + 4] == s[k + d..k + d + 4];
    }
  }

  /**
   Char by char, the derived path is the input with each `json` occurrence
   written over by `xlsx`: a position inside the occurrence at `k` holds the
   matching char of `xlsx`, and every other position keeps the input's char.
   Since occurrences never overlap, this determines the result completely.
   */
  lemma ReplaceJsonByPositions(s: string)
    ensures |ReplaceAll(s, JSON, XLSX)| == |s|
    ensures forall k, i :: Covers(s, k, i) ==> ReplaceAll(s, JSON, XLSX)[i] == XLSX[i - k]
    ensures forall i :: 0 <= i < |s| && !Covered(s, i) ==> ReplaceAll(s, JSON, XLSX)[i] == s[i]
  {
    ReplaceAllKeepsLength(s, JSON, XLSX);
    ReplaceInsideJson(s);
    ReplaceOutsideJson(s);
  }

  /** Any text that agrees with the input char by char as `ReplaceJsonByPositions` describes is the derived path. */
  lemma PositionsDetermineReplacement(s: string, r: string)
    requires |r| == |s|
    requires forall k, i :: Covers(s, k, i) ==> r[i] == XLSX[i - k]
    requires forall i :: 0 <= i < |s| && !Covered(s, i) ==> r[i] == s[i]
    ensures r == ReplaceAll(s, JSON, XLSX)
  {
    var derived := ReplaceAll(s, JSON, XLSX);
    ReplaceJsonByPositions(s);
    forall i | 0 <= i < |s| ensures r[i] == derived[i] {
      if Covered(s, i) {
        var k :| 0 <= k <= i && Covers(s, k, i);
        assert r[i] == XLSX[i - k] == derived[i];
      }
    }
  }

  lemma {:induction false} ReplaceInsideJson(s: string)
    ensures |ReplaceAll(s, JSON, XLSX)| == |s|
    ensures forall k, i :: Covers(s, k, i) ==> ReplaceAll(s, JSON, XLSX)[i] == XLSX[i - k]
    decreases |s|
  {
    ReplaceAllKeepsLength(s, JSON, XLSX);
    var r := ReplaceAll(s, JSON, XLSX);
    if |s| < |JSON| {
    } else if JSON <= s {
      ReplaceInsideJson(s[4..]);
      InsideAfterJson(s, r, ReplaceAll(s[4..], JSON, XLSX));
    } else {
      ReplaceInsideJson(s[1..]);
      InsideAfterCopy(s, r, ReplaceAll(s[1..], JSON, XLSX));
    }
  }

  /** The step for a text that starts with `json`: `xlsx` followed by the replaced remainder. */
  lemma InsideAfterJson(s: string, r: string, rest: string)
    requires JSON <= s && r == XLSX + rest && |rest| == |s| - 4
    requires forall k, i :: Covers(s[4..], k, i) ==> rest[i] == XLSX[i - k]
    ensures forall k, i :: Covers(s, k, i) ==> r[i] == XLSX[i - k]
  {
    assert OccursAt(s, JSON, 0);
    forall k, i | Covers(s, k, i) ensures r[i] == XLSX[i - k] {
      if k != 0 {
        JsonDoesNotOverlap(s, 0, k);
        OccursInSuffix(s, 4, k - 4);
        assert Covers(s[4..], k - 4, i - 4);
      }
    }
  }

  /** The step for a text that does not start with `json`: its first char followed by the replaced remainder. */
  lemma InsideAfterCopy(s: string, r: string, rest: string)
    requires |s| >= 4 && !(JSON <= s) && r == [s[0]] + rest && |rest| == |s| - 1
    requires forall k, i :: Covers(s[1..], k, i) ==> rest[i] == XLSX[i - k]
    ensures forall k, i :: Covers(s, k, i) ==> r[i] == XLSX[i - k]
  {
    forall k, i | Covers(s, k, i) ensures r[i] == XLSX[i - k] {
      assert k != 0 by { assert s[..4] == s[0..4]; }
      OccursInSuffix(s, 1, k - 1);
      assert Covers(s[1..], k - 1, i - 1);
    }
  }

  lemma {:induction false} ReplaceOutsideJson(s: string)
    ensures |ReplaceAll(s, JSON, XLSX)| == |s|
    ensures forall i :: 0 <= i < |s| && !Covered(s, i) ==> ReplaceAll(s, JSON, XLSX)[i] == s[i]
    decreases |s|
  {
    ReplaceAllKeepsLength(s, JSON, XLSX);
    var r := ReplaceAll(s, JSON, XLSX);
    if |s| < |JSON| {
    } else if JSON <= s {
      var rest := ReplaceAll(s[4..], JSON, XLSX);
      assert r == XLSX + rest;
      assert OccursAt(s, JSON, 0);
      ReplaceOutsideJson(s[4..]);
      forall i | 0 <= i < |s| && !Covered(s, i) ensures r[i] == s[i] {
        assert !Covers(s, 0, i);
        var tail, j := s[4..], i - 4;
        assert !Covered(tail, j) by {
          forall k | 0 <= k <= j ensures !Covers(tail, k, j) {
            OccursInSuffix(s, 4, k);
            assert !Covers(s, k + 4, i);
          }
        }
      }
    } else {
      var rest := ReplaceAll(s[1..], JSON, XLSX);
      assert r == [s[0]] + rest;
      ReplaceOutsideJson(s[1..]);
      forall i | 1 <= i < |s| && !Covered(s, i) ensures r[i] == s[i] {
        var tail, j := s[1..], i - 1;
        assert !Covered(tail, j) by {
          forall k | 0 <= k <= j ensures !Covers(tail, k, j) {
            OccursInSuffix(s, 1, k);
            assert !Covers(s, k + 1, i);
          }
        }
      }
    }
  }

  /**
   The derived path contains no `json`. A `j` in it cannot come from `xlsx`, so
   it is a copied char; the three chars after it cannot come from `xlsx`
   either, since an occurrence starting there would have to start after the
   `j` and would put `x`, `l` or `s` where `s`, `o` and `n` stand. So all four
   were copied, and the input would have a `json` there that the scan missed.
   */
  lemma ReplaceAllRemovesJson(s: string)
    ensures !Contains(ReplaceAll(s, JSON, XLSX), JSON)
  {
    var r := ReplaceAll(s, JSON, XLSX);
    ReplaceJsonByPositions(s);
    forall p | 0 <= p <= |r| ensures !OccursAt(r, JSON, p) {
      NoJsonFormed(s, r, p);
    }
  }

  /** No `json` starts at `p` in a text related to `s` as `ReplaceJsonByPositions` describes. */
  lemma NoJsonFormed(s: string, r: string, p: int)
    requires |r| == |s|
    requires forall k, i :: Covers(s, k, i) ==> r[i] == XLSX[i - k]
    requires forall i :: 0 <= i < |s| && !Covered(s, i) ==> r[i] == s[i]
    ensures !OccursAt(r, JSON, p)
  {
    if OccursAt(r, JSON, p) {
      forall d | 0 <= d < 4 ensures s[p + d] == JSON[d] {
        var q := p + d;
        NotCoveredInMatch(s, r, p, q);
        CopiedInMatch(s, r, p, q);
      }
      assert s[p..p + 4] == JSON;
      assert Covers(s, p, p);
      NotCoveredInMatch(s, r, p, p);
    }
  }

  /** Inside a `json` of the replaced text no replaced occurrence lies: `xlsx` has no `j`, and no `x` either of `son`. */
  lemma NotCoveredInMatch(s: string, r: string, p: int, q: int)
    requires |r| == |s| && OccursAt(r, JSON, p) && p <= q < p + |JSON|
    requires forall k, i :: Covers(s, k, i) ==> r[i] == XLSX[i - k]
    ensures !Covered(s, q)
  {
    assert r[p] == r[p..p + 4][0] == 'j';
    forall k | 0 <= k <= q ensures !Covers(s, k, q) {
      if k <= p {
        assert Covers(s, k, q) ==> Covers(s, k, p);
      } else {
        assert r[k] == r[p..p + 4][k - p] != 'x';
        assert Covers(s, k, q) ==> Covers(s, k, k);
      }
    }
  }

  /** A char of a `json` in the replaced text that no occurrence covers was copied from the input. */
  lemma CopiedInMatch(s: string, r: string, p: int, q: int)
    requires |r| == |s| && OccursAt(r, JSON, p) && p <= q < p + |JSON|
    requires forall i :: 0 <= i < |s| && !Covered(s, i) ==> r[i] == s[i]
    requires !Covered(s, q)
    ensures s[q] == JSON[q - p]
  {
    assert r[q] == r[p..p + 4][q - p];
  }

  /** The derived output path: the same length, free of `json`, and the input itself when the input has no `json`. */
  lemma DerivedPath(jsonFilePath: string)
    ensures |ReplaceAll(jsonFilePath, JSON, XLSX)| == |jsonFilePath|
    ensures !Contains(ReplaceAll(jsonFilePath, JSON, XLSX), JSON)
    ensures !Contains(jsonFilePath, JSON) ==> ReplaceAll(jsonFilePath, JSON, XLSX) == jsonFilePath
  {
    ReplaceAllKeepsLength(jsonFilePath, JSON, XLSX);
    ReplaceAllRemovesJson(jsonFilePath);
    if !Contains(jsonFilePath, JSON) {
      ReplaceAllWithoutTarget(jsonFilePath, JSON, XLSX);
    }
  }

  /** What `main` does with its arguments. */
  datatype Action = ShowUsage | Convert(jsonFilePath: string, excelFilePath: string)

  /**
   `main`: no arguments (or a null array) only prints the usage hint. Otherwise
   the first argument is the input; the second, when present, is the output
   verbatim; without it the output is the input with every `json` replaced by
   `xlsx`: the same length, free of `json`, and the input itself when the input
   contains no `json`.
   */
  function Main(args: Option<seq<string>>): (a: Action)
    ensures a.ShowUsage? <==> args.None? || |args.value| < 1
    ensures a.Convert? ==> a.jsonFilePath == args.value[0]
    ensures a.Convert? && |args.value| > 1 ==> a.excelFilePath == args.value[1]
    ensures a.Convert? && |args.value| == 1 ==> a.excelFilePath == ReplaceAll(a.jsonFilePath, JSON, XLSX)
    ensures a.Convert? && |args.value| == 1 ==>
              && |a.excelFilePath| == |a.jsonFilePath|
              && !Contains(a.excelFilePath, JSON)
              && (!Contains(a.jsonFilePath, JSON) ==> a.excelFilePath == a.jsonFilePath)
  {
    if args.None? || |args.value| < 1 then ShowUsage
    else
      var jsonFilePath := args.value[0];
      var excelFilePath := if |args.value| > 1 then args.value[1] else ReplaceAll(jsonFilePath, JSON, XLSX);
      DerivedPath(jsonFilePath);
      Convert(jsonFilePath, excelFilePath)
  }
}
