/** The parts of `java.lang.String` and `java.lang.Character` that the line
    tokenizer and the dialect provider rely on. A Java string is a sequence of
    UTF-16 code units: `length`, `charAt` and `substring` count units, and only
    code-point counting treats a surrogate pair as one symbol. */
module JavaString {

  /** One UTF-16 code unit, a Java `char`. */
  type CodeUnit = u: int | 0 <= u < 0x1_0000

  /** A Java `String`. */
  type JString = seq<CodeUnit>

  const NEWLINE: CodeUnit := 0x0A
  const PIPE: CodeUnit := 0x7C
  const BACKSLASH: CodeUnit := 0x5C
  const LOWER_N: CodeUnit := 0x6E

  /** The exception `charAt` and `substring` throw for an index outside the
      string; `index` is the offending position that was asked for. */
  datatype Fault = StringIndexOutOfBounds(index: int)

  // ---------------------------------------------------------------------
  // Character classes
  // ---------------------------------------------------------------------

  /** The regular-expression class `\s` of `java.util.regex.Pattern`:
      space, tab, line feed, vertical tab, form feed, carriage return. */
  predicate IsRegexSpace(u: CodeUnit) {
    u == 0x20 || 0x09 <= u <= 0x0D
  }

  /** The units `String.trim` removes: every unit up to U+0020. */
  predicate IsTrimSpace(u: CodeUnit) {
    u <= 0x20
  }

  /** `Character.isWhitespace(char)` as of Java 9 (Unicode 6.3): the Unicode space, line and paragraph
      separators other than the no-break spaces, plus U+0009..U+000D and
      U+001C..U+001F. */
  predicate IsJavaWhitespace(u: CodeUnit) {
    || 0x09 <= u <= 0x0D
    || 0x1C <= u <= 0x20
    || u == 0x1680
    || 0x2000 <= u <= 0x2006
    || 0x2008 <= u <= 0x200A
    || u == 0x2028 || u == 0x2029 || u == 0x205F || u == 0x3000
  }

  predicate IsHighSurrogate(u: CodeUnit) {
    0xD800 <= u <= 0xDBFF
  }

  predicate IsLowSurrogate(u: CodeUnit) {
    0xDC00 <= u <= 0xDFFF
  }

  predicate IsSurrogate(u: CodeUnit) {
    IsHighSurrogate(u) || IsLowSurrogate(u)
  }

  predicate NoSurrogates(s: JString) {
    forall k :: 0 <= k < |s| ==> !IsSurrogate(s[k])
  }

  // ---------------------------------------------------------------------
  // Runs of units at either end of a string
  // ---------------------------------------------------------------------

  /** Length of the longest prefix of `s` whose units all satisfy `p`. */
  function LeadingCount(s: JString, p: CodeUnit -> bool): (n: nat)
    ensures n <= |s|
  {
    if |s| == 0 || !p(s[0]) then 0 else 1 + LeadingCount(s[1..], p)
  }

  /** `LeadingCount` stops at the first unit outside `p`. */
  lemma {:induction false} LeadingCountIsRun(s: JString, p: CodeUnit -> bool)
    ensures var n := LeadingCount(s, p);
      && (forall k :: 0 <= k < n ==> p(s[k]))
      && (n < |s| ==> !p(s[n]))
  {
    if |s| > 0 && p(s[0]) {
      LeadingCountIsRun(s[1..], p);
      assert forall k :: 1 <= k < LeadingCount(s, p) ==> s[k] == s[1..][k - 1];
    }
  }

  /** Length of the longest suffix of `s` whose units all satisfy `p`. */
  function TrailingCount(s: JString, p: CodeUnit -> bool): (n: nat)
    ensures n <= |s|
  {
    if |s| == 0 || !p(s[|s| - 1]) then 0 else 1 + TrailingCount(s[..|s| - 1], p)
  }

  /** `TrailingCount` stops at the last unit outside `p`. */
  lemma {:induction false} TrailingCountIsRun(s: JString, p: CodeUnit -> bool)
    ensures var n := TrailingCount(s, p);
      && (forall k :: |s| - n <= k < |s| ==> p(s[k]))
      && (n < |s| ==> !p(s[|s| - n - 1]))
  {
    if |s| > 0 && p(s[|s| - 1]) {
      TrailingCountIsRun(s[..|s| - 1], p);
    }
  }

  // ---------------------------------------------------------------------
  // String.trim
  // ---------------------------------------------------------------------

  /** `s[a..b]` is what remains of `s` once its leading and trailing
      trim-space units are removed: everything outside the slice is trim
      space, and a non-empty slice neither starts nor ends with it. */
  ghost predicate TrimBounds(s: JString, a: int, b: int) {
    && 0 <= a <= b <= |s|
    && (forall k :: 0 <= k < a ==> IsTrimSpace(s[k]))
    && (forall k :: b <= k < |s| ==> IsTrimSpace(s[k]))
    && (a == b || (!IsTrimSpace(s[a]) && !IsTrimSpace(s[b - 1])))
  }

  /** `r` is `s` trimmed at both ends. */
  ghost predicate IsTrimOf(s: JString, r: JString) {
    exists a, b :: TrimBounds(s, a, b) && r == s[a..b]
  }

  /** `String.trim()`. */
  function Trim(s: JString): (r: JString)
    ensures |r| <= |s|
  {
    var a := LeadingCount(s, IsTrimSpace);
    var rest := s[a..];
    var z := TrailingCount(rest, IsTrimSpace);
    rest[..|rest| - z]
  }

  /** `Trim` removes exactly the trim space at both ends. */
  lemma TrimIsTrimOf(s: JString)
    ensures IsTrimOf(s, Trim(s))
  {
    var a := LeadingCount(s, IsTrimSpace);
    var rest := s[a..];
    var z := TrailingCount(rest, IsTrimSpace);
    LeadingCountIsRun(s, IsTrimSpace);
    TrailingCountIsRun(rest, IsTrimSpace);
    assert Trim(s) == s[a..|s| - z];
    assert forall k :: |s| - z <= k < |s| ==> s[k] == rest[k - a];
    assert TrimBounds(s, a, |s| - z);
  }

  /** Two trim bounds of one string give the same (possibly empty) slice. */
  lemma TrimBoundsAgree(s: JString, a1: int, b1: int, a2: int, b2: int)
    requires TrimBounds(s, a1, b1) && TrimBounds(s, a2, b2)
    ensures s[a1..b1] == s[a2..b2]
  {
  }

  /** The description `IsTrimOf` admits exactly one result, so `Trim` is
      pinned down by its postcondition. */
  lemma TrimOfIsUnique(s: JString, r1: JString, r2: JString)
    requires IsTrimOf(s, r1) && IsTrimOf(s, r2)
    ensures r1 == r2
  {
    var a1, b1 :| TrimBounds(s, a1, b1) && r1 == s[a1..b1];
    var a2, b2 :| TrimBounds(s, a2, b2) && r2 == s[a2..b2];
    TrimBoundsAgree(s, a1, b1, a2, b2);
  }

  /** Trimming twice is trimming once. */
  lemma TrimIdempotent(s: JString)
    ensures Trim(Trim(s)) == Trim(s)
  {
    var r := Trim(s);
    TrimIsTrimOf(s);
    TrimIsTrimOf(r);
    TrimOfIsUnique(r, r, Trim(r));
  }

  // ---------------------------------------------------------------------
  // String.startsWith
  // ---------------------------------------------------------------------

  /** `s.startsWith(prefix)`, compared unit by unit. */
  predicate HasPrefix(s: JString, prefix: JString)
    ensures HasPrefix(s, prefix) <==> |prefix| <= |s| && s[..|prefix|] == prefix
  {
    |prefix| == 0 || (|s| > 0 && s[0] == prefix[0] && HasPrefix(s[1..], prefix[1..]))
  }

  // ---------------------------------------------------------------------
  // Code-point counting
  // ---------------------------------------------------------------------

  /** The number of symbols (Unicode code points) in `s`, as
      `String.codePointCount` counts them: a high surrogate directly followed
      by a low surrogate is one symbol, every other unit is one symbol. */
  function CountSymbols(s: JString): (n: nat)
    ensures n <= |s| <= 2 * n
    ensures NoSurrogates(s) ==> n == |s|
  {
    if |s| == 0 then 0
    else if |s| >= 2 && IsHighSurrogate(s[0]) && IsLowSurrogate(s[1]) then 1 + CountSymbols(s[2..])
    else 1 + CountSymbols(s[1..])
  }

  /** A prefix without surrogates adds one symbol per unit, whatever follows. */
  lemma {:induction false} CountSymbolsAfterPlainPrefix(p: JString, s: JString)
    requires NoSurrogates(p)
    ensures CountSymbols(p + s) == |p| + CountSymbols(s)
  {
    if |p| > 0 {
      assert !IsSurrogate(p[0]);
      assert (p + s)[1..] == p[1..] + s;
      CountSymbolsAfterPlainPrefix(p[1..], s);
    } else {
      assert p + s == s;
    }
  }

  // ---------------------------------------------------------------------
  // String.compareTo
  // ---------------------------------------------------------------------

  /** `a.compareTo(b)`: the difference of the first pair of differing units,
      or the difference of the lengths when one string is a prefix of the
      other. */
  function CompareTo(a: JString, b: JString): (c: int)
    ensures c == 0 <==> a == b
  {
    if |a| == 0 || |b| == 0 then |a| - |b|
    else if a[0] != b[0] then a[0] - b[0]
    else
      assert a == [a[0]] + a[1..] && b == [b[0]] + b[1..];
      CompareTo(a[1..], b[1..])
  }

  /** `a` sorts strictly before `b` under `compareTo`. */
  predicate Less(a: JString, b: JString) {
    CompareTo(a, b) < 0
  }

  lemma {:induction false} CompareToAntisymmetric(a: JString, b: JString)
    ensures CompareTo(a, b) == -CompareTo(b, a)
  {
    if |a| > 0 && |b| > 0 && a[0] == b[0] {
      CompareToAntisymmetric(a[1..], b[1..]);
    }
  }

  lemma {:induction false} LessTransitive(a: JString, b: JString, c: JString)
    requires Less(a, b) && Less(b, c)
    ensures Less(a, c)
  {
    if |a| > 0 && |b| > 0 && |c| > 0 && a[0] == b[0] && b[0] == c[0] {
      LessTransitive(a[1..], b[1..], c[1..]);
    }
  }

  /** Any two distinct strings are ordered one way round, and only one. */
  lemma LessTotal(a: JString, b: JString)
    ensures a != b <==> Less(a, b) || Less(b, a)
    ensures !(Less(a, b) && Less(b, a))
  {
    CompareToAntisymmetric(a, b);
  }
}
