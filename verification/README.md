# Gherkin line tokenizer and dialect provider, in Dafny

This project models two leaf components of the Gherkin parser front end of
Cucumber (Java):

- `GherkinLine`: one physical line of a feature file. It holds the raw
  text and the text after `ltrim`. The parser asks it for:
  - the indentation;
  - the line with part of its indentation removed;
  - prefix and title-keyword tests, and the rest of the line trimmed;
  - the whitespace-separated tags;
  - the cells of a pipe table row, with backslash escapes.
- `GherkinDialectProvider`: the registry from language codes to keyword
  tables. It looks a dialect up by code, serves a default dialect, and lists
  the codes in sorted order.

Java strings are sequences of UTF-16 code units (`JavaString.CodeUnit`,
0..0xFFFF). `charAt`, `substring` and `length` count units. Only
`indent()` counts code points. Every operation is a pure function over
immutable values. A Java exception becomes the `Failure` branch of a
`Result`, carrying the offending index or the missing language.

Modules:

| file | module | contents |
|---|---|---|
| `results.dfy` | `Results` | `Result` and `Option` |
| `java_string.dfy` | `JavaString` | code units, the character classes, `trim`, `startsWith`, `codePointCount`, `compareTo` |
| `gherkin_line.dfy` | `GherkinLine` | the line, its queries, and the tags |
| `table_cells.dfy` | `TableCells` | the table scan as written and bounded, and a reference definition of its cells |
| `table_cells_facts.dfy` | `TableCellsFacts` | text after the last `|` is never emitted |
| `table_examples.dfy` | `TableExamples` | the rows `\|a\|`, `\|a\|b\|` and `\|\|` worked through |
| `dialect_provider.dfy` | `GherkinDialectProvider` | lookup, the default dialect, the sorted listing |

## The table scan

`getTableCells()` walks the trimmed text with a `do … while` loop. The
loop's condition `col < length` holds after every body, because each body
leaves `col` at the last index it consumed. So the loop re-enters after the
last unit and `charAt(length)` throws. On empty text it throws at once.

The model keeps the loop state in `TableCells.ScanState`: `beforeFirst`,
`startCol`, the cell buffer and the spans so far. `TableCells.Step` is one
loop body. `TableCells.DoWhile` is the loop as written.
`TableCells.Scan` is the same body run over the indices `0 .. length-1`
only. Three results follow:

- `TableCells.DoWhileFaultsAfterScan` proves the written loop throws for
  index `length` on every input. At that point it holds exactly the state
  the bounded loop ends in.
- The cells the scan accumulates are also defined without any loop state:
  - `Escaped` says which units a backslash consumes;
  - `Bars` gives the unescaped `|` positions;
  - `Decode` gives the escape-decoded text between two positions;
  - `RowCells` gives one span per pair of consecutive delimiters.
- `TableCells.ScanFollowsReference` proves, by simulation, that the loop
  state at every unit boundary is the reference state at that boundary.

Three behaviours of `getTableCells` that are easy to miss:

- The content after the last `|` is never emitted. There is no final flush.
- An escape other than `\n`, `\|` and `\\` keeps its backslash.
- The first cell's column is counted from column 0 of the trimmed text,
  because the first `|` leaves `startCol` at 0.

## Model

| member | source | states |
|---|---|---|
| GherkinLine.NewLine | gherkin/java/src/main/java/gherkin/GherkinLine.java:14-17 | the raw text is kept; every unit `ltrim` dropped is leading whitespace; the trimmed text does not start with leading whitespace |
| GherkinLine.Indent | gherkin/java/src/main/java/gherkin/GherkinLine.java:19-22 | the code-point difference equals the number of units `ltrim` removed, so it is never negative |
| GherkinLine.NewLineIndent | gherkin/java/src/main/java/gherkin/GherkinLine.java:14-22 | the indentation of a constructed line is the length of the maximal leading-whitespace prefix, and the trimmed text is what follows it |
| GherkinLine.GetLineText | gherkin/java/src/main/java/gherkin/GherkinLine.java:29-34 | a negative request or one above the indentation gives the trimmed text; otherwise the raw text loses exactly that many leading units; the result is always a suffix of the raw text ending with the trimmed text |
| GherkinLine.GetLineTextExtremes | gherkin/java/src/main/java/gherkin/GherkinLine.java:30-34 | removing the whole indentation gives the trimmed text, removing none gives the raw text, and -1 or indent+1 fall back to the trimmed text |
| GherkinLine.IsEmpty | gherkin/java/src/main/java/gherkin/GherkinLine.java:36-39 | a line is empty iff its whole text is indentation, iff its indent equals its length |
| GherkinLine.EmptyIffAllLeadingSpace | gherkin/java/src/main/java/gherkin/GherkinLine.java:14-39 | a constructed line is empty iff every unit of its text is leading whitespace |
| GherkinLine.StartsWith | gherkin/java/src/main/java/gherkin/GherkinLine.java:41-44 | true iff the prefix is no longer than the trimmed text and equals its first units |
| GherkinLine.GetRestTrimmed | gherkin/java/src/main/java/gherkin/GherkinLine.java:46-49 | succeeds iff 0 <= length <= the trimmed length, and then returns the rest with the trim space removed at both ends; otherwise the out-of-bounds exception for `length` |
| JavaString.TrimIsTrimOf | gherkin/java/src/main/java/gherkin/GherkinLine.java:48 | `trim` removes exactly the units up to U+0020 at both ends, and the result neither starts nor ends with one |
| JavaString.TrimOfIsUnique | gherkin/java/src/main/java/gherkin/GherkinLine.java:48 | that description of `trim` admits exactly one result |
| JavaString.TrimIdempotent | gherkin/java/src/main/java/gherkin/GherkinLine.java:48 | trimming a trimmed string changes nothing |
| JavaString.HasPrefix | gherkin/java/src/main/java/gherkin/GherkinLine.java:43 | the unit-by-unit test is equivalent to a length check plus equality of the leading slice |
| JavaString.CountSymbols | gherkin/java/src/main/java/gherkin/GherkinLine.java:21 | the code-point count lies between half the length and the length, and equals the length without surrogates |
| JavaString.CountSymbolsAfterPlainPrefix | gherkin/java/src/main/java/gherkin/GherkinLine.java:21 | a surrogate-free prefix adds exactly its length to the code-point count |
| GherkinLine.StartsWithTitleKeyword | gherkin/java/src/main/java/gherkin/GherkinLine.java:56-64 | true iff the trimmed text starts with keyword followed by separator; throws iff it starts with the keyword and is longer than it but too short for the separator |
| GherkinLine.TitleKeywordCases | gherkin/java/src/main/java/gherkin/GherkinLine.java:57-62 | a one-unit separator never throws; the keyword alone is false; the keyword followed by a non-separator unit is false; with a longer separator a line one unit past the keyword throws |
| GherkinLine.TagRunEnd | gherkin/java/src/main/java/gherkin/GherkinLine.java:132-137 | a token ends at a `\s` unit or at the end of the text, at or after its start, and a token that starts with a non-`\s` unit is non-empty |
| GherkinLine.TagRunAllTagUnits | gherkin/java/src/main/java/gherkin/GherkinLine.java:132-137 | every unit between a token's start and its end is a non-`\s` unit, so the token ends at the first `\s` unit |
| GherkinLine.TagsFromAreTags | gherkin/java/src/main/java/gherkin/GherkinLine.java:129-140 | every token is a maximal non-empty run of non-`\s` units, and its column is its offset + indent + 1 |
| GherkinLine.TagsFromOrdered | gherkin/java/src/main/java/gherkin/GherkinLine.java:129-140 | the token columns strictly increase |
| GherkinLine.TagsFromCoverTagUnits | gherkin/java/src/main/java/gherkin/GherkinLine.java:129-140 | every non-`\s` unit lies inside one of the tokens |
| GherkinLine.GetTags | gherkin/java/src/main/java/gherkin/GherkinLine.java:51-54 | an empty line has no tags; every tag is a maximal run of non-`\s` units at column offset + indent + 1; the columns strictly increase |
| GherkinLine.GetTagsCoverTagUnits | gherkin/java/src/main/java/gherkin/GherkinLine.java:129-140 | no non-`\s` unit of the trimmed text is lost between the tags |
| TableCells.ContentStartIsFirstContent | gherkin/java/src/main/java/gherkin/GherkinLine.java:67-74 | `contentStart` skips only whitespace and stops at the first non-whitespace unit, or is 0 when the buffer is all whitespace |
| TableCells.Unescape | gherkin/java/src/main/java/gherkin/GherkinLine.java:94-100 | an escaped `n` appends a newline, an escaped `\|` or `\\` appends that unit alone, and any other escaped unit appends the backslash and the unit |
| TableCells.Step | gherkin/java/src/main/java/gherkin/GherkinLine.java:113-124 | one body throws iff it reads a `\` in the last unit; a `\` consumes the next unit; a unit other than `\|` keeps the spans and extends the buffer; a `\|` empties the buffer, clears `beforeFirst` and emits one span unless it is the first |
| TableCells.Scan | gherkin/java/src/main/java/gherkin/GherkinLine.java:112-125 | the loop only adds spans, and its only exception is the one for index `length` |
| TableCells.DoWhileFaultsAfterScan | gherkin/java/src/main/java/gherkin/GherkinLine.java:111-125 | the written loop always throws for index `length`, with the spans the bounded loop accumulates |
| TableCells.GetTableCells | gherkin/java/src/main/java/gherkin/GherkinLine.java:105-127 | `getTableCells()` as written never returns normally: it throws for index `length` on every line |
| TableCells.PipeFollowsReference | gherkin/java/src/main/java/gherkin/GherkinLine.java:79-89 | an unescaped `\|` turns the reference state before it into the one after it: the first emits nothing, and each later one emits the span of the cell it closes |
| TableCells.EscapeFollowsReference | gherkin/java/src/main/java/gherkin/GherkinLine.java:91-103 | a `\` and the unit after it append the decoded escape: `\n` a newline, `\|` and `\\` the unit alone, anything else the backslash and the unit |
| TableCells.PlainFollowsReference | gherkin/java/src/main/java/gherkin/GherkinLine.java:122-124 | any other unit is appended to the reference cell |
| TableCells.StepFollowsReference | gherkin/java/src/main/java/gherkin/GherkinLine.java:113-124 | one body takes the reference state at a boundary to the reference state at the next boundary |
| TableCells.ScanFollowsReference | gherkin/java/src/main/java/gherkin/GherkinLine.java:112-125 | the bounded loop from any boundary ends in the reference state at the end of the text, or throws in the state before a trailing unescaped `\` |
| TableCells.BarsValid | gherkin/java/src/main/java/gherkin/GherkinLine.java:115 | the delimiters are positions of `\|` that no backslash consumed, in increasing order |
| TableCells.BarsComplete | gherkin/java/src/main/java/gherkin/GherkinLine.java:115 | every `\|` that no backslash consumed is a delimiter |
| TableCells.RowCellsIndex | gherkin/java/src/main/java/gherkin/GherkinLine.java:67-76 | the k-th span is the trimmed decoded text between delimiters k and k+1, at indent + startCol + contentStart + 2, where startCol is 0 for the first cell and delimiter k otherwise |
| TableCells.ScanFromStart | gherkin/java/src/main/java/gherkin/GherkinLine.java:107-125 | from the initial state the bounded loop throws iff the text ends with an unescaped `\`, and accumulates exactly the reference cells |
| TableCells.AccumulatedCells | gherkin/java/src/main/java/gherkin/GherkinLine.java:105-127 | the spans `getTableCells` holds when it throws: one per pair of consecutive delimiters, so text before the first `\|` and the first `\|` itself emit nothing |
| TableCells.GetTableCellsBounded | gherkin/java/src/main/java/gherkin/GherkinLine.java:105-127 | the loop bounded by the length returns the accumulated cells, and throws only on a trailing unescaped `\` |
| TableCellsFacts.TrailingTextNotEmitted | gherkin/java/src/main/java/gherkin/GherkinLine.java:115-126 | text after the last delimiter never reaches a span: appending text without `\|` leaves the cells unchanged |
| TableExamples.SingleCellRowAsWritten | gherkin/java/src/main/java/gherkin/GherkinLine.java:112-125 | `\|a\|` as written throws for index 3 |
| TableExamples.SingleCellRowBounded | gherkin/java/src/main/java/gherkin/GherkinLine.java:112-125 | `\|a\|` with the bounded loop gives the single cell `a` at column 2 |
| TableExamples.TwoCellRow | gherkin/java/src/main/java/gherkin/GherkinLine.java:67-89 | `\|a\|b\|` accumulates `a` at indent+2 and `b` at indent+4 |
| TableExamples.EmptyCellRow | gherkin/java/src/main/java/gherkin/GherkinLine.java:79-89 | `\|\|` accumulates exactly one empty cell at indent+2 |
| GherkinDialectProvider.NewProvider | gherkin/java/src/main/java/gherkin/GherkinDialectProvider.java:32-34 | the constructor keeps the registry and stores the default name as given, without checking it |
| GherkinDialectProvider.DefaultProvider | gherkin/java/src/main/java/gherkin/GherkinDialectProvider.java:36-38 | the no-argument constructor keeps the registry and sets the default name to `en` |
| GherkinDialectProvider.GetDialect | gherkin/java/src/main/java/gherkin/GherkinDialectProvider.java:44-52 | succeeds iff the code has a keyword table, and then returns the code with exactly that table; otherwise the exception carries the code and the location unchanged |
| GherkinDialectProvider.LocationIrrelevant | gherkin/java/src/main/java/gherkin/GherkinDialectProvider.java:44-52 | the location never changes a successful lookup, and a failed lookup reports the same code wherever it was asked |
| GherkinDialectProvider.GetDefaultDialect | gherkin/java/src/main/java/gherkin/GherkinDialectProvider.java:40-42 | succeeds iff the default name has a keyword table; fails with the default name and no location otherwise |
| GherkinDialectProvider.DefaultDialectIsLookup | gherkin/java/src/main/java/gherkin/GherkinDialectProvider.java:40-42 | the default dialect is the lookup of the default name |
| GherkinDialectProvider.DefaultProviderServesEnglish | gherkin/java/src/main/java/gherkin/GherkinDialectProvider.java:36-42 | the no-argument provider serves `en` when the registry has it, and fails with `en` and no location otherwise |
| GherkinDialectProvider.Insert | gherkin/java/src/main/java/gherkin/GherkinDialectProvider.java:57 | inserting a new code into a strictly sorted list keeps it strictly sorted and adds exactly that code |
| GherkinDialectProvider.StrictlySortedUnique | gherkin/java/src/main/java/gherkin/GherkinDialectProvider.java:57 | two strictly sorted lists with the same codes are equal, so the sorted listing has one possible outcome |
| GherkinDialectProvider.GetLanguages | gherkin/java/src/main/java/gherkin/GherkinDialectProvider.java:54-59 | the listing holds every registry code once and nothing else, sorted by `compareTo` |
| GherkinDialectProvider.ListedLanguagesResolve | gherkin/java/src/main/java/gherkin/GherkinDialectProvider.java:44-59 | every code that looks up successfully is listed, and a listed code looks up iff its entry is a keyword table |
| JavaString.LessTotal | gherkin/java/src/main/java/gherkin/GherkinDialectProvider.java:57 | `compareTo` orders any two distinct strings exactly one way round |
| JavaString.LessTransitive | gherkin/java/src/main/java/gherkin/GherkinDialectProvider.java:57 | the `compareTo` order is transitive |
| JavaString.CompareTo | gherkin/java/src/main/java/gherkin/GherkinDialectProvider.java:57 | `compareTo` is 0 exactly for equal strings |

## Left out

- The static initialiser of `GherkinDialectProvider` reads a JSON resource with Gson and may throw `DialectProviderException`. This is I/O and a foreign library. The registry is instead a map given to `NewProvider` and `DefaultProvider`.
- A JSON `null` under a code reads back as `null`, like a missing code. The registry therefore maps codes to `Option`.
- `null` arguments are not modelled: a `null` language, prefix or keyword, and a `null` line text. This also covers the `NullPointerException` catch in `getSpans`, which is unreachable once the text is not `null`.
- `java.util.Scanner` and the regex engine are not modelled. Only the split they perform is: maximal runs of units outside `\s`.
- GherkinLine.GetTags: a tag's column is modelled as its offset into the trimmed string + indent + 1. `Scanner.match().start()` is an index into the scanner's internal buffer, which the JDK compacts as it reads more input; on trimmed text longer than that buffer (1024 units) later columns may differ. The model does not follow the buffer.
- JavaString.IsJavaWhitespace: encodes `Character.isWhitespace` as in Java 9 and later (Unicode 6.3 and later). On Java 7 and 8 (Unicode 6.2), U+180E is also whitespace, which would change `contentStart` for a cell starting with U+180E.
- `detach()` is empty. There is nothing to model.
- The `ProcessState` carrier class is replaced by `TableCells.ScanState` and the pair that `Step` returns.
- `StringUtils.ltrim` is not part of this model. Its whitespace class is the parameter `isLeadingSpace` of `NewLine`, required to contain no surrogate unit.
- `SymbolCounter.countSymbols` is not part of this model. It is taken to be `String.codePointCount`.
- `GherkinLanguageConstants.TITLE_KEYWORD_SEPARATOR` is not part of this model. It is the parameter `separator`, required to be non-empty.
- `GherkinDialect`, `Location`, `GherkinLineSpan` and `ParserException` are not part of this model. They are plain value records, and exception messages are not modelled.
- Java `int` overflow of indices and columns is not modelled: integers are unbounded. A column can only overflow on a line of about 2^31 units.
- `Collections.sort` and `unmodifiableList` are not modelled as algorithms. The listing is built by insertion and described by its result: strictly sorted, with exactly the registry's codes. Any correct sort gives the same list (`StrictlySortedUnique`).
- The registry is an immutable value, so no operation modifies it. Nothing is left to prove about read-only access.
- Text before the first `|` is not shown irrelevant by a separate lemma. `AccumulatedCells` states it instead: every span decodes only the text between two delimiters.
- JavaString.Trim: its own contract only bounds the length; `JavaString.TrimIsTrimOf` states what it removes.
- TableCells.ContentStart: its own contract only bounds the offset; `TableCells.ContentStartIsFirstContent` states where it stops.

## Findings

| source | as written | input that shows it | evidently intended | confidence | as-written member | corrected member |
|---|---|---|---|---|---|---|
| gherkin/java/src/main/java/gherkin/GherkinLine.java:112-125 | the `do … while (col < length)` loop re-enters after consuming the last unit, so `charAt(length)` always throws and the method never returns | the row `\|a\|` (`TableExamples.SingleCellRowAsWritten` gives the exception for index 3) | a loop over the indices `0 .. length-1` that returns the accumulated cells (`TableExamples.SingleCellRowBounded` gives the cell `a` at column 2) | not executed | TableCells.GetTableCells | TableCells.GetTableCellsBounded |
