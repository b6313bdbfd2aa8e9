/** `GherkinLine`: one physical line of a feature file, kept as its raw text
    and the same text after `ltrim`, with the queries the parser asks of it:
    indentation, partial dedent, prefix and title-keyword tests, and the
    whitespace-separated tags. The pipe-table scan is in module `TableCells`. */
module GherkinLine {
  import opened Results
  import opened JavaString

  /** `GherkinLineSpan`: a piece of a line and its 1-based column. */
  datatype Span = Span(column: int, text: JString)

  /** The two strings a line stores: the raw text and the text with its
      leading whitespace stripped. */
  datatype LineText = LineText(text: JString, trimmed: JString)

  /** What every constructed line satisfies: the trimmed text is a suffix of
      the raw text, and the indentation it dropped holds no surrogate unit. */
  ghost predicate WellFormed(l: LineText) {
    && |l.trimmed| <= |l.text|
    && l.text[|l.text| - |l.trimmed|..] == l.trimmed
    && NoSurrogates(l.text[..|l.text| - |l.trimmed|])
  }

  /** A constructed `GherkinLine`. */
  type Line = l: LineText | WellFormed(l) witness LineText([], [])

  /** The leading units the constructor's `ltrim` removed. */
  function Indentation(l: Line): (r: JString)
    ensures r + l.trimmed == l.text
  {
    l.text[..|l.text| - |l.trimmed|]
  }

  /** The constructor: `ltrim` drops the longest prefix of units in the
      leading-whitespace class `isLeadingSpace`. That class is assumed to
      contain no surrogate, as every whitespace class does. */
  function NewLine(text: JString, isLeadingSpace: CodeUnit -> bool): (l: Line)
    requires forall u :: isLeadingSpace(u) ==> !IsSurrogate(u)
    ensures l.text == text
    ensures forall k :: 0 <= k < |Indentation(l)| ==> isLeadingSpace(text[k])
    ensures |l.trimmed| == 0 || !isLeadingSpace(l.trimmed[0])
  {
    var n := LeadingCount(text, isLeadingSpace);
    LeadingCountIsRun(text, isLeadingSpace);
    assert NoSurrogates(text[..n]) by {
      forall k | 0 <= k < n ensures !IsSurrogate(text[..n][k]) {
        assert isLeadingSpace(text[k]);
      }
    }
    LineText(text, text[n..])
  }

  /** `indent()`: symbols of the raw text minus symbols of the trimmed text.
      It is the number of units `ltrim` removed. */
  function Indent(l: Line): (n: nat)
    ensures n == |Indentation(l)|
    ensures n == |l.text| - |l.trimmed|
  {
    CountSymbolsAfterPlainPrefix(Indentation(l), l.trimmed);
    CountSymbols(l.text) - CountSymbols(l.trimmed)
  }

  /** A line built from `text` is indented by exactly the leading units of
      the whitespace class, and its trimmed text starts right after them. */
  lemma NewLineIndent(text: JString, isLeadingSpace: CodeUnit -> bool)
    requires forall u :: isLeadingSpace(u) ==> !IsSurrogate(u)
    ensures Indent(NewLine(text, isLeadingSpace)) == LeadingCount(text, isLeadingSpace)
    ensures NewLine(text, isLeadingSpace).trimmed == text[LeadingCount(text, isLeadingSpace)..]
  {
  }

  /** `getLineText(indentToRemove)`: the trimmed text when the request is
      negative or exceeds the indentation, otherwise the raw text with exactly
      `indentToRemove` leading units removed. Either way the result lies
      between the raw text and the trimmed text. */
  function GetLineText(l: Line, indentToRemove: int): (r: JString)
    ensures indentToRemove < 0 || indentToRemove > Indent(l) ==> r == l.trimmed
    ensures 0 <= indentToRemove <= Indent(l) ==> |r| == |l.text| - indentToRemove
    ensures |l.trimmed| <= |r| <= |l.text|
    ensures r == l.text[|l.text| - |r|..]
    ensures r[|r| - |l.trimmed|..] == l.trimmed
  {
    if indentToRemove < 0 || indentToRemove > Indent(l) then l.trimmed
    else l.text[indentToRemove..]
  }

  /** Removing all the indentation gives the trimmed text, removing none
      gives the raw text, and an out-of-range request falls back to the
      trimmed text. */
  lemma GetLineTextExtremes(l: Line)
    ensures GetLineText(l, Indent(l)) == l.trimmed
    ensures GetLineText(l, 0) == l.text
    ensures GetLineText(l, -1) == l.trimmed
    ensures GetLineText(l, Indent(l) + 1) == l.trimmed
  {
  }

  /** `isEmpty()`: the trimmed text has no units, so the whole line is
      indentation. */
  predicate IsEmpty(l: Line)
    ensures IsEmpty(l) <==> Indentation(l) == l.text
    ensures IsEmpty(l) <==> Indent(l) == |l.text|
  {
    |l.trimmed| == 0
  }

  /** A constructed line is empty exactly when every unit of its text is in
      the leading-whitespace class. */
  lemma EmptyIffAllLeadingSpace(text: JString, isLeadingSpace: CodeUnit -> bool)
    requires forall u :: isLeadingSpace(u) ==> !IsSurrogate(u)
    ensures IsEmpty(NewLine(text, isLeadingSpace)) <==> forall k :: 0 <= k < |text| ==> isLeadingSpace(text[k])
  {
    var l := NewLine(text, isLeadingSpace);
    if !IsEmpty(l) {
      assert !isLeadingSpace(text[|Indentation(l)|]);
    }
  }

  /** `startsWith(prefix)`: an exact prefix test on the trimmed text. */
  predicate StartsWith(l: Line, prefix: JString)
    ensures StartsWith(l, prefix) <==> |prefix| <= |l.trimmed| && l.trimmed[..|prefix|] == prefix
  {
    HasPrefix(l.trimmed, prefix)
  }

  /** `getRestTrimmed(length)`: the trimmed text from `length` on, trimmed
      at both ends; `substring` throws when `length` is outside the text. */
  function GetRestTrimmed(l: Line, length: int): (r: Result<JString, Fault>)
    ensures r.Success? <==> 0 <= length <= |l.trimmed|
    ensures r.Failure? ==> r.error == StringIndexOutOfBounds(length)
    ensures r.Success? ==> IsTrimOf(l.trimmed[length..], r.value)
  {
    if length < 0 || length > |l.trimmed| then Failure(StringIndexOutOfBounds(length))
    else
      TrimIsTrimOf(l.trimmed[length..]);
      Success(Trim(l.trimmed[length..]))
  }

  /** `startsWithTitleKeyword(keyword)` with title separator `separator`:
      true exactly when the trimmed text starts with the keyword followed by
      the separator. When the text is longer than the keyword and starts with
      it but is too short to hold the separator, `substring` throws. */
  function StartsWithTitleKeyword(l: Line, keyword: JString, separator: JString): (r: Result<bool, Fault>)
    requires |separator| >= 1
    ensures r == Success(true) <==> HasPrefix(l.trimmed, keyword + separator)
    ensures r.Failure? <==> HasPrefix(l.trimmed, keyword) && |keyword| < |l.trimmed| < |keyword| + |separator|
    ensures r.Failure? ==> r.error == StringIndexOutOfBounds(|keyword| + |separator|)
  {
    var t := l.trimmed;
    var n := |keyword|;
    if |t| > n && HasPrefix(t, keyword) then
      if n + |separator| > |t| then Failure(StringIndexOutOfBounds(n + |separator|))
      else
        assert t[..n + |separator|] == t[..n] + t[n..n + |separator|];
        Success(t[n..n + |separator|] == separator)
    else
      Success(false)
  }

  /** A one-unit separator never makes the test throw; a keyword alone is
      never a title, nor is a keyword followed by something other than the
      separator, as long as the line is long enough to hold the separator. */
  lemma TitleKeywordCases(l: Line, keyword: JString, separator: JString)
    requires |separator| >= 1
    ensures |separator| == 1 ==> StartsWithTitleKeyword(l, keyword, separator).Success?
    ensures l.trimmed == keyword ==> StartsWithTitleKeyword(l, keyword, separator) == Success(false)
    ensures HasPrefix(l.trimmed, keyword) && |l.trimmed| >= |keyword| + |separator|
            && l.trimmed[|keyword|] != separator[0]
            ==> StartsWithTitleKeyword(l, keyword, separator) == Success(false)
    ensures |separator| > 1 && |l.trimmed| == |keyword| + 1 && HasPrefix(l.trimmed, keyword)
            ==> StartsWithTitleKeyword(l, keyword, separator).Failure?
  {
    if HasPrefix(l.trimmed, keyword) && |l.trimmed| >= |keyword| + |separator| && l.trimmed[|keyword|] != separator[0] {
      assert (keyword + separator)[|keyword|] == separator[0];
    }
  }

  // ---------------------------------------------------------------------
  // Tags: the trimmed text split on runs of `\s`
  // ---------------------------------------------------------------------

  predicate IsTagUnit(u: CodeUnit) {
    !IsRegexSpace(u)
  }

  /** Position `i` of `t` is not strictly inside a run of tag units. */
  predicate AtTagBoundary(t: JString, i: nat)
    requires i <= |t|
  {
    i == 0 || i == |t| || IsRegexSpace(t[i - 1]) || IsRegexSpace(t[i])
  }

  /** The unit offset within the trimmed text at which span `s` starts. */
  function TagStart(indent: int, s: Span): int {
    s.column - indent - 1
  }

  /** `text` is a maximal non-empty run of non-`\s` units of `t` starting at
      offset `start`. */
  ghost predicate IsRunAt(t: JString, start: int, text: JString) {
    && 0 <= start
    && start + |text| <= |t|
    && |text| > 0
    && (forall k :: 0 <= k < |text| ==> text[k] == t[start + k] && IsTagUnit(text[k]))
    && (start == 0 || IsRegexSpace(t[start - 1]))
    && (start + |text| == |t| || IsRegexSpace(t[start + |text|]))
  }

  /** Span `s` is a maximal non-empty run of non-`\s` units of `t`, and its
      column is the run's offset plus `indent` plus one. */
  ghost predicate IsTagOf(t: JString, indent: int, s: Span) {
    IsRunAt(t, TagStart(indent, s), s.text)
  }

  /** The end of the run of tag units that starts at `i`: the first `\s`
      unit at or after `i`, or the end of the text. */
  function TagRunEnd(t: JString, i: nat): (e: nat)
    requires i <= |t|
    ensures i <= e <= |t|
    ensures e < |t| ==> IsRegexSpace(t[e])
    ensures i < |t| && !IsRegexSpace(t[i]) ==> i < e
    decreases |t| - i
  {
    if i == |t| || IsRegexSpace(t[i]) then i else TagRunEnd(t, i + 1)
  }

  /** Every unit of the run is a tag unit. */
  lemma {:induction false} TagRunAllTagUnits(t: JString, i: nat, j: nat)
    requires i <= |t| && i <= j < TagRunEnd(t, i)
    ensures IsTagUnit(t[j])
    decreases j - i
  {
    if j > i {
      TagRunAllTagUnits(t, i + 1, j);
    }
  }

  /** The tokens a `Scanner` with delimiter `\s+` returns from offset `i` on,
      each with the column `getSpans` gives it. */
  function TagsFrom(t: JString, i: nat, indent: int): (r: seq<Span>)
    requires i <= |t| && AtTagBoundary(t, i)
    decreases |t| - i
  {
    if i == |t| then []
    else if IsRegexSpace(t[i]) then TagsFrom(t, i + 1, indent)
    else
      var e := TagRunEnd(t, i);
      [Span(i + indent + 1, t[i..e])] + TagsFrom(t, e, indent)
  }

  /** The run of tag units starting at a boundary `i` that is not `\s` is a
      tag. */
  lemma TagRunIsTag(t: JString, i: nat, indent: int)
    requires i < |t| && AtTagBoundary(t, i) && !IsRegexSpace(t[i])
    ensures IsTagOf(t, indent, Span(i + indent + 1, t[i..TagRunEnd(t, i)]))
  {
    TagRunIsRun(t, i);
    assert TagStart(indent, Span(i + indent + 1, t[i..TagRunEnd(t, i)])) == i;
  }

  /** The run of tag units starting at a boundary `i` that is not `\s` is a
      maximal run. */
  lemma TagRunIsRun(t: JString, i: nat)
    requires i < |t| && AtTagBoundary(t, i) && !IsRegexSpace(t[i])
    ensures IsRunAt(t, i, t[i..TagRunEnd(t, i)])
  {
    var e := TagRunEnd(t, i);
    forall k | 0 <= k < e - i
      ensures t[i..e][k] == t[i + k] && IsTagUnit(t[i..e][k])
    {
      TagRunAllTagUnits(t, i, i + k);
    }
  }

  /** Every token from offset `i` on starts at or after `i`. */
  lemma {:induction false} TagsFromStartAfter(t: JString, i: nat, indent: int)
    requires i <= |t| && AtTagBoundary(t, i)
    ensures forall k :: 0 <= k < |TagsFrom(t, i, indent)| ==> TagStart(indent, TagsFrom(t, i, indent)[k]) >= i
    decreases |t| - i
  {
    if i == |t| {
    } else if IsRegexSpace(t[i]) {
      assert TagsFrom(t, i, indent) == TagsFrom(t, i + 1, indent);
      TagsFromStartAfter(t, i + 1, indent);
    } else {
      var e := TagRunEnd(t, i);
      var rest := TagsFrom(t, e, indent);
      TagsFromStartAfter(t, e, indent);
      var r := TagsFrom(t, i, indent);
      assert r == [Span(i + indent + 1, t[i..e])] + rest;
      forall k | 0 < k < |r|
        ensures TagStart(indent, r[k]) >= i
      {
        assert r[k] == rest[k - 1];
      }
    }
  }

  /** Every token from offset `i` on is a maximal run of tag units. */
  lemma {:induction false} TagsFromAreTags(t: JString, i: nat, indent: int)
    requires i <= |t| && AtTagBoundary(t, i)
    ensures forall k :: 0 <= k < |TagsFrom(t, i, indent)| ==> IsTagOf(t, indent, TagsFrom(t, i, indent)[k])
    decreases |t| - i
  {
    if i == |t| {
    } else if IsRegexSpace(t[i]) {
      assert TagsFrom(t, i, indent) == TagsFrom(t, i + 1, indent);
      TagsFromAreTags(t, i + 1, indent);
    } else {
      var e := TagRunEnd(t, i);
      TagRunIsTag(t, i, indent);
      var head := Span(i + indent + 1, t[i..e]);
      var rest := TagsFrom(t, e, indent);
      TagsFromAreTags(t, e, indent);
      var r := TagsFrom(t, i, indent);
      assert r == [head] + rest;
      forall k | 0 <= k < |r|
        ensures IsTagOf(t, indent, r[k])
      {
        if k > 0 {
          assert r[k] == rest[k - 1];
        }
      }
    }
  }

  /** The tokens from offset `i` on come in strictly increasing order of
      their columns. */
  lemma {:induction false} TagsFromOrdered(t: JString, i: nat, indent: int)
    requires i <= |t| && AtTagBoundary(t, i)
    ensures forall k, m :: 0 <= k < m < |TagsFrom(t, i, indent)| ==>
      TagsFrom(t, i, indent)[k].column < TagsFrom(t, i, indent)[m].column
    decreases |t| - i
  {
    if i == |t| {
    } else if IsRegexSpace(t[i]) {
      assert TagsFrom(t, i, indent) == TagsFrom(t, i + 1, indent);
      TagsFromOrdered(t, i + 1, indent);
    } else {
      var e := TagRunEnd(t, i);
      var head := Span(i + indent + 1, t[i..e]);
      var rest := TagsFrom(t, e, indent);
      TagsFromStartAfter(t, e, indent);
      TagsFromOrdered(t, e, indent);
      var r := TagsFrom(t, i, indent);
      assert r == [head] + rest;
      forall k, m | 0 <= k < m < |r|
        ensures r[k].column < r[m].column
      {
        assert r[m] == rest[m - 1];
        if k > 0 {
          assert r[k] == rest[k - 1];
        } else {
          assert TagStart(indent, rest[m - 1]) >= e;
        }
      }
    }
  }

  /** `getTags()`: one span per maximal run of non-`\s` units of the
      trimmed text, in order, with strictly increasing columns; none for an
      empty line. */
  function GetTags(l: Line): (r: seq<Span>)
    ensures |l.trimmed| == 0 ==> r == []
    ensures forall k :: 0 <= k < |r| ==> IsTagOf(l.trimmed, Indent(l), r[k])
    ensures forall k, m :: 0 <= k < m < |r| ==> r[k].column < r[m].column
  {
    TagsFromAreTags(l.trimmed, 0, Indent(l));
    TagsFromOrdered(l.trimmed, 0, Indent(l));
    TagsFrom(l.trimmed, 0, Indent(l))
  }

  /** Offset `j` of the trimmed text lies within span `s`. */
  predicate Covers(indent: int, s: Span, j: int) {
    TagStart(indent, s) <= j < TagStart(indent, s) + |s.text|
  }

  /** No tag unit is lost: every non-`\s` unit from `i` on lies in one of
      the spans; `k` is the index of that span. */
  lemma {:induction false} TagsFromCoverTagUnits(t: JString, i: nat, indent: int, j: int) returns (k: nat)
    requires i <= |t| && AtTagBoundary(t, i)
    requires i <= j < |t| && IsTagUnit(t[j])
    ensures k < |TagsFrom(t, i, indent)| && Covers(indent, TagsFrom(t, i, indent)[k], j)
    decreases |t| - i
  {
    var r := TagsFrom(t, i, indent);
    if IsRegexSpace(t[i]) {
      assert r == TagsFrom(t, i + 1, indent);
      k := TagsFromCoverTagUnits(t, i + 1, indent, j);
    } else {
      var e := TagRunEnd(t, i);
      var head := Span(i + indent + 1, t[i..e]);
      var rest := TagsFrom(t, e, indent);
      assert r == [head] + rest;
      if j < e {
        k := 0;
        assert r[0] == head;
      } else {
        assert j != e;
        var m := TagsFromCoverTagUnits(t, e, indent, j);
        k := m + 1;
        assert r[k] == rest[m];
      }
    }
  }

  /** Every non-`\s` unit of the trimmed text belongs to one of the tags. */
  lemma GetTagsCoverTagUnits(l: Line, j: int)
    requires 0 <= j < |l.trimmed| && IsTagUnit(l.trimmed[j])
    ensures exists k :: 0 <= k < |GetTags(l)| && Covers(Indent(l), GetTags(l)[k], j)
  {
    var k := TagsFromCoverTagUnits(l.trimmed, 0, Indent(l), j);
    var r := TagsFrom(l.trimmed, 0, Indent(l));
    assert GetTags(l)[k] == r[k];
  }
}
