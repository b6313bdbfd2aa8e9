/** `GherkinLine.getTableCells`: the pipe-table scan over the trimmed text
    of a line, with its backslash escapes.

    The scan is a loop over unit indices whose state is `ScanState`; one
    iteration is `Step`. `DoWhile` runs the loop the way the code writes it, a
    `do ... while (col < length)` that re-enters after the last index and so
    always reads `charAt(length)`; `Scan` runs the same step over the indices
    `0 .. length-1` only. The second half of the module defines, without any
    loop state, which spans the scan accumulates (`RowCells`) and proves that
    both runs accumulate exactly those. */
module TableCells {
  import opened Results
  import opened JavaString
  import opened GherkinLine

  /** The loop state: whether the first `|` is still ahead, the index of the
      delimiter the current cell started after, the decoded cell so far, and
      the spans emitted so far. */
  datatype ScanState = ScanState(beforeFirst: bool, startCol: int, cell: JString, spans: seq<Span>)

  const Start: ScanState := ScanState(true, 0, [], [])

  /** Where a run of the loop stops: past its last iteration, or at an
      exception, carrying the state accumulated before it. */
  datatype ScanEnd = Finished(state: ScanState) | Faulted(state: ScanState, fault: Fault)

  // ---------------------------------------------------------------------
  // One iteration
  // ---------------------------------------------------------------------

  /** Offset of the first non-whitespace unit of a cell buffer, or 0 when the
      buffer is all whitespace. */
  function ContentStart(cell: JString): (n: nat)
    ensures n == 0 || n < |cell|
  {
    var n := LeadingCount(cell, IsJavaWhitespace);
    if n == |cell| then 0 else n
  }

  /** The offset `ContentStart` finds: past whitespace only, at a unit that
      is not whitespace unless the whole buffer is whitespace. */
  lemma ContentStartIsFirstContent(cell: JString)
    ensures var n := ContentStart(cell);
      && (forall k :: 0 <= k < n ==> IsJavaWhitespace(cell[k]))
      && ((n < |cell| && !IsJavaWhitespace(cell[n])) || forall k :: 0 <= k < |cell| ==> IsJavaWhitespace(cell[k]))
  {
    LeadingCountIsRun(cell, IsJavaWhitespace);
  }

  /** The span emitted for a finished cell: its trimmed text, at the column
      of its first non-whitespace unit counted from the delimiter `startCol`. */
  function CellSpan(indent: int, startCol: int, cell: JString): Span {
    Span(indent + startCol + ContentStart(cell) + 2, Trim(cell))
  }

  /** What `\` followed by `c` appends to the cell: a newline for `n`, the
      character alone for `|` and `\`, and both the backslash and the
      character for anything else. */
  function Unescape(c: CodeUnit): (r: JString)
    ensures c == LOWER_N ==> r == [NEWLINE]
    ensures c == PIPE || c == BACKSLASH ==> r == [c]
    ensures c != LOWER_N && c != PIPE && c != BACKSLASH ==> r == [BACKSLASH, c]
  {
    if c == LOWER_N then [NEWLINE]
    else if c == PIPE || c == BACKSLASH then [c]
    else [BACKSLASH, c]
  }

  /** `processVerticalBar`: the first `|` only clears the flag; every later
      one emits the finished cell and becomes the start of the next. */
  function VerticalBar(indent: int, s: ScanState, col: int): ScanState {
    if s.beforeFirst then ScanState(false, s.startCol, [], s.spans)
    else ScanState(false, col, [], s.spans + [CellSpan(indent, s.startCol, s.cell)])
  }

  /** One loop body at index `col`: a `|` delimits, a `\` consumes the next
      unit as an escape (throwing when there is none), anything else is
      appended. The result carries the last index consumed. */
  function Step(t: JString, indent: int, s: ScanState, col: nat): (r: Result<(ScanState, nat), Fault>)
    requires col < |t|
    ensures r.Failure? <==> t[col] == BACKSLASH && col + 1 == |t|
    ensures r.Failure? ==> r.error == StringIndexOutOfBounds(|t|)
    ensures r.Success? ==> r.value.1 == (if t[col] == BACKSLASH then col + 1 else col) && r.value.1 < |t|
    ensures r.Success? && t[col] != PIPE ==>
      && r.value.0.spans == s.spans
      && r.value.0.beforeFirst == s.beforeFirst
      && r.value.0.startCol == s.startCol
      && |r.value.0.cell| > |s.cell|
      && r.value.0.cell[..|s.cell|] == s.cell
    ensures r.Success? && t[col] == PIPE ==>
      && r.value.0.cell == []
      && !r.value.0.beforeFirst
      && |r.value.0.spans| == |s.spans| + (if s.beforeFirst then 0 else 1)
      && r.value.0.spans[..|s.spans|] == s.spans
  {
    var c := t[col];
    if c == PIPE then
      Success((VerticalBar(indent, s, col), col))
    else if c == BACKSLASH then
      if col + 1 == |t| then Failure(StringIndexOutOfBounds(col + 1))
      else Success((s.(cell := s.cell + Unescape(t[col + 1])), col + 1))
    else
      Success((s.(cell := s.cell + [c]), col))
  }

  // ---------------------------------------------------------------------
  // The loop, two ways
  // ---------------------------------------------------------------------

  /** The loop over the indices `col .. |t|-1`, stopping after the last. */
  function Scan(t: JString, indent: int, s: ScanState, col: nat): (r: ScanEnd)
    requires col <= |t|
    ensures r.Faulted? ==> r.fault == StringIndexOutOfBounds(|t|)
    ensures |s.spans| <= |r.state.spans| && r.state.spans[..|s.spans|] == s.spans
    decreases |t| - col
  {
    if col == |t| then Finished(s)
    else match Step(t, indent, s, col)
      case Failure(f) => Faulted(s, f)
      case Success((s', last)) => Scan(t, indent, s', last + 1)
  }

  /** The loop as written: `col` is the loop variable at the top of an
      iteration, which first increments it and reads `charAt(col)`; the loop
      re-enters while the last index consumed is below the length. */
  function DoWhile(t: JString, indent: int, s: ScanState, col: int): ScanEnd
    requires -1 <= col < |t|
    decreases |t| - col
  {
    var next := col + 1;
    if next == |t| then Faulted(s, StringIndexOutOfBounds(next))
    else match Step(t, indent, s, next)
      case Failure(f) => Faulted(s, f)
      case Success((s', last)) => if last < |t| then DoWhile(t, indent, s', last) else Finished(s')
  }

  /** The loop as written never leaves normally: it runs every iteration the
      bounded loop runs, then throws for index `|t|`, with the state the
      bounded loop ends in. */
  lemma {:induction false} DoWhileFaultsAfterScan(t: JString, indent: int, s: ScanState, col: int)
    requires -1 <= col < |t|
    ensures DoWhile(t, indent, s, col) == Faulted(Scan(t, indent, s, col + 1).state, StringIndexOutOfBounds(|t|))
    decreases |t| - col
  {
    var next := col + 1;
    if next < |t| {
      match Step(t, indent, s, next)
      case Failure(f) =>
      case Success((s', last)) =>
        DoWhileFaultsAfterScan(t, indent, s', last);
    }
  }

  /** `getTableCells()` as written: always the out-of-bounds exception for
      index `length`, on every line including the empty one. */
  function GetTableCells(l: Line): (r: Result<seq<Span>, Fault>)
    ensures r == Failure(StringIndexOutOfBounds(|l.trimmed|))
  {
    DoWhileFaultsAfterScan(l.trimmed, Indent(l), Start, -1);
    match DoWhile(l.trimmed, Indent(l), Start, -1)
    case Finished(s) => Success(s.spans)
    case Faulted(_, f) => Failure(f)
  }

  // ---------------------------------------------------------------------
  // Reference: the cells described without loop state
  // ---------------------------------------------------------------------

  /** The unit at `i` is consumed by the backslash before it: it follows a
      backslash that is not itself escaped. `Escaped(t, |t|)` holds when `t`
      ends with a backslash that has nothing left to escape. */
  predicate Escaped(t: JString, i: nat)
    requires i <= |t|
  {
    i > 0 && t[i - 1] == BACKSLASH && !Escaped(t, i - 1)
  }

  /** `bars` are positions of unescaped `|` in `t`, in increasing order. */
  ghost predicate ValidBars(t: JString, bars: seq<nat>) {
    && (forall k :: 0 <= k < |bars| ==> bars[k] < |t| && t[bars[k]] == PIPE && !Escaped(t, bars[k]))
    && (forall k, m :: 0 <= k < m < |bars| ==> bars[k] < bars[m])
  }

  /** The delimiters below `i`: exactly the positions of unescaped `|`. */
  function Bars(t: JString, i: nat): (r: seq<nat>)
    requires i <= |t|
    ensures |r| <= i
  {
    if i == 0 then []
    else Bars(t, i - 1) + (if t[i - 1] == PIPE && !Escaped(t, i - 1) then [i - 1] else [])
  }

  /** The delimiters below `i` are positions of unescaped `|` below `i`, in
      increasing order. */
  lemma {:induction false} BarsValid(t: JString, i: nat)
    requires i <= |t|
    ensures ValidBars(t, Bars(t, i))
    ensures forall k :: 0 <= k < |Bars(t, i)| ==> Bars(t, i)[k] < i
  {
    if i > 0 {
      BarsValid(t, i - 1);
    }
  }

  /** Every unescaped `|` below `i` is one of the delimiters: an escaped `|`
      is the only kind that does not delimit. */
  lemma {:induction false} BarsComplete(t: JString, i: nat, j: nat)
    requires j < i <= |t| && t[j] == PIPE && !Escaped(t, j)
    ensures j in Bars(t, i)
  {
    if j < i - 1 {
      BarsComplete(t, i - 1, j);
    }
  }

  /** The decoded content of `t[a..b]`, with `a` and `b` at unit boundaries:
      every escape pair replaced by what it decodes to, every other unit
      kept. */
  function Decode(t: JString, a: nat, b: nat): JString
    requires a <= b <= |t| && !Escaped(t, a) && !Escaped(t, b)
    decreases b
  {
    if a == b then []
    else if Escaped(t, b - 1) then Decode(t, a, b - 2) + Unescape(t[b - 1])
    else Decode(t, a, b - 1) + [t[b - 1]]
  }

  /** The span for the cell between the delimiters at `a` and `b`: the
      trimmed decoded content between them, at the column of its first
      non-whitespace unit counted from the delimiter at `a`, or from column 0
      for the `first` cell. */
  function BarCell(t: JString, indent: int, first: bool, a: nat, b: nat): Span
    requires a < b <= |t| && t[a] == PIPE && !Escaped(t, a) && !Escaped(t, b)
  {
    CellSpan(indent, if first then 0 else a, Decode(t, a + 1, b))
  }

  /** The span for the `k`-th pair of consecutive delimiters. */
  function PairCell(t: JString, indent: int, bars: seq<nat>, k: nat): Span
    requires ValidBars(t, bars) && k + 1 < |bars|
  {
    BarCell(t, indent, k == 0, bars[k], bars[k + 1])
  }

  /** The spans for the delimiters `bars`: one per pair of consecutive
      delimiters. */
  function RowCells(t: JString, indent: int, bars: seq<nat>): (r: seq<Span>)
    requires ValidBars(t, bars)
    ensures |r| == if |bars| < 2 then 0 else |bars| - 1
    decreases |bars|
  {
    if |bars| < 2 then []
    else
      var n := |bars|;
      assert ValidBars(t, bars[..n - 1]);
      RowCells(t, indent, bars[..n - 1]) + [BarCell(t, indent, n == 2, bars[n - 2], bars[n - 1])]
  }

  /** The span of a pair of delimiters, spelled out. */
  lemma PairCellUnfold(t: JString, indent: int, bars: seq<nat>, k: nat)
    requires ValidBars(t, bars) && k + 1 < |bars|
    ensures t[bars[k]] == PIPE && !Escaped(t, bars[k] + 1) && !Escaped(t, bars[k + 1])
    ensures PairCell(t, indent, bars, k)
      == CellSpan(indent, if k == 0 then 0 else bars[k], Decode(t, bars[k] + 1, bars[k + 1]))
  {
  }

  /** The `k`-th span of a row is the span of its `k`-th pair of delimiters. */
  lemma {:induction false} RowCellsIndex(t: JString, indent: int, bars: seq<nat>, k: nat)
    requires ValidBars(t, bars) && k + 1 < |bars|
    ensures |RowCells(t, indent, bars)| == |bars| - 1
    ensures RowCells(t, indent, bars)[k] == PairCell(t, indent, bars, k)
    decreases |bars|
  {
    var n := |bars|;
    var prefix := bars[..n - 1];
    assert ValidBars(t, prefix);
    var r := RowCells(t, indent, bars);
    assert r == RowCells(t, indent, prefix) + [BarCell(t, indent, n == 2, bars[n - 2], bars[n - 1])];
    if k < n - 2 {
      RowCellsIndex(t, indent, prefix, k);
      assert prefix[k] == bars[k] && prefix[k + 1] == bars[k + 1];
      assert r[k] == RowCells(t, indent, prefix)[k];
    } else {
      assert k + 1 == n - 1 && bars[k + 1] == bars[n - 1];
    }
  }

  /** A row with two delimiters has one span, with three has two. */
  lemma RowCellsShort(t: JString, indent: int, bars: seq<nat>)
    requires ValidBars(t, bars) && 2 <= |bars| <= 3
    ensures |bars| == 2 ==> RowCells(t, indent, bars) == [PairCell(t, indent, bars, 0)]
    ensures |bars| == 3 ==> RowCells(t, indent, bars) == [PairCell(t, indent, bars, 0), PairCell(t, indent, bars, 1)]
  {
    RowCellsIndex(t, indent, bars, 0);
    if |bars| == 3 {
      RowCellsIndex(t, indent, bars, 1);
    }
  }

  /** Every span of a row is the span of its pair of delimiters. */
  lemma RowCellsAll(t: JString, indent: int, bars: seq<nat>)
    requires ValidBars(t, bars)
    ensures var r := RowCells(t, indent, bars);
      && |r| == (if |bars| == 0 then 0 else |bars| - 1)
      && forall k :: 0 <= k < |r| ==> r[k] == PairCell(t, indent, bars, k)
  {
    forall k | 0 <= k < |RowCells(t, indent, bars)|
      ensures RowCells(t, indent, bars)[k] == PairCell(t, indent, bars, k)
    {
      RowCellsIndex(t, indent, bars, k);
    }
  }

  /** A further delimiter `j` keeps the spans so far and adds the one
      between the last delimiter and `j`. */
  lemma RowCellsAppend(t: JString, indent: int, bars: seq<nat>, j: nat)
    requires ValidBars(t, bars + [j]) && |bars| > 0
    ensures ValidBars(t, bars)
    ensures bars[|bars| - 1] < j <= |t| && t[bars[|bars| - 1]] == PIPE
    ensures !Escaped(t, bars[|bars| - 1]) && !Escaped(t, j)
    ensures RowCells(t, indent, bars + [j])
      == RowCells(t, indent, bars) + [BarCell(t, indent, |bars| == 1, bars[|bars| - 1], j)]
  {
    var b := bars + [j];
    assert b[..|b| - 1] == bars;
    assert b[|b| - 2] == bars[|bars| - 1] && b[|b| - 1] == j;
  }

  /** The loop state at the unit boundary `i`, read off the text before it. */
  function RefState(t: JString, indent: int, i: nat): ScanState
    requires i <= |t| && !Escaped(t, i)
  {
    BarsValid(t, i);
    var bars := Bars(t, i);
    var n := |bars|;
    ScanState(
      n == 0,
      if n <= 1 then 0 else bars[n - 1],
      Decode(t, CellStart(t, i), i),
      RowCells(t, indent, bars))
  }

  /** A `|` at boundary `i` adds `i` to the delimiters. */
  lemma BarsAtPipe(t: JString, i: nat)
    requires i < |t| && !Escaped(t, i) && t[i] == PIPE
    ensures Bars(t, i + 1) == Bars(t, i) + [i]
  {
  }

  /** A unit at boundary `i` other than `|` adds no delimiter, and neither
      does the unit a backslash there escapes. */
  lemma BarsAtOther(t: JString, i: nat)
    requires i < |t| && !Escaped(t, i) && t[i] != PIPE
    ensures Bars(t, i + 1) == Bars(t, i)
    ensures t[i] == BACKSLASH && i + 1 < |t| ==> Escaped(t, i + 1) && Bars(t, i + 2) == Bars(t, i)
  {
  }

  /** The first delimiter only clears the flag and empties the cell, as the
      reference has it after one delimiter. */
  lemma FirstPipeFollowsReference(t: JString, indent: int, i: nat)
    requires i < |t| && !Escaped(t, i) && t[i] == PIPE && |Bars(t, i)| == 0
    ensures !Escaped(t, i + 1)
    ensures VerticalBar(indent, RefState(t, indent, i), i) == RefState(t, indent, i + 1)
  {
    BarsAtPipe(t, i);
    assert CellStart(t, i + 1) == i + 1;
  }

  /** The reference state at a boundary `i` past some delimiter: its cell
      starts after the last delimiter, which is also where its column is
      counted from unless it is the first. */
  lemma RefStateAfterBar(t: JString, indent: int, i: nat)
    requires i <= |t| && !Escaped(t, i) && |Bars(t, i)| > 0
    ensures ValidBars(t, Bars(t, i))
    ensures var bars := Bars(t, i); var a := bars[|bars| - 1];
      && a < i && t[a] == PIPE && !Escaped(t, a)
      && !RefState(t, indent, i).beforeFirst
      && RefState(t, indent, i).spans == RowCells(t, indent, bars)
      && CellSpan(indent, RefState(t, indent, i).startCol, RefState(t, indent, i).cell)
         == BarCell(t, indent, |bars| == 1, a, i)
  {
    BarsValid(t, i);
    var bars := Bars(t, i);
    var a := bars[|bars| - 1];
    assert CellStart(t, i) == a + 1;
    assert RefState(t, indent, i) == ScanState(false, if |bars| == 1 then 0 else a, Decode(t, a + 1, i), RowCells(t, indent, bars));
  }

  /** Just after a delimiter `i`, the reference cell is empty and starts at
      `i`, and the spans are those of the delimiters through `i`. */
  lemma RefStateAtBar(t: JString, indent: int, i: nat)
    requires i < |t| && !Escaped(t, i) && t[i] == PIPE
    ensures !Escaped(t, i + 1) && ValidBars(t, Bars(t, i) + [i])
    ensures RefState(t, indent, i + 1)
      == ScanState(false, if |Bars(t, i)| == 0 then 0 else i, [], RowCells(t, indent, Bars(t, i) + [i]))
  {
    BarsAtPipe(t, i);
    BarsValid(t, i + 1);
    assert CellStart(t, i + 1) == i + 1;
  }

  /** Every later delimiter emits the reference cell it closes. */
  lemma LaterPipeFollowsReference(t: JString, indent: int, i: nat)
    requires i < |t| && !Escaped(t, i) && t[i] == PIPE && |Bars(t, i)| > 0
    ensures !Escaped(t, i + 1)
    ensures VerticalBar(indent, RefState(t, indent, i), i) == RefState(t, indent, i + 1)
  {
    var bars := Bars(t, i);
    RefStateAtBar(t, indent, i);
    RefStateAfterBar(t, indent, i);
    RowCellsAppend(t, indent, bars, i);
    var c := BarCell(t, indent, |bars| == 1, bars[|bars| - 1], i);
    assert VerticalBar(indent, RefState(t, indent, i), i) == ScanState(false, i, [], RowCells(t, indent, bars) + [c]);
  }

  /** A delimiter at the boundary `i` emits the reference cell it closes. */
  lemma PipeFollowsReference(t: JString, indent: int, i: nat)
    requires i < |t| && !Escaped(t, i) && t[i] == PIPE
    ensures !Escaped(t, i + 1)
    ensures VerticalBar(indent, RefState(t, indent, i), i) == RefState(t, indent, i + 1)
  {
    if |Bars(t, i)| == 0 {
      FirstPipeFollowsReference(t, indent, i);
    } else {
      LaterPipeFollowsReference(t, indent, i);
    }
  }

  /** The decoded cell the reference keeps at boundary `i`: the content after
      the last delimiter below `i`. */
  function CellStart(t: JString, i: nat): (a: nat)
    requires i <= |t|
    ensures a <= i && !Escaped(t, a)
  {
    BarsValid(t, i);
    var bars := Bars(t, i);
    if |bars| == 0 then 0 else bars[|bars| - 1] + 1
  }

  /** A unit that is neither `|` nor `\` at boundary `i` is appended to the
      reference cell. */
  lemma PlainFollowsReference(t: JString, indent: int, i: nat)
    requires i < |t| && !Escaped(t, i) && t[i] != PIPE && t[i] != BACKSLASH
    ensures !Escaped(t, i + 1)
    ensures RefState(t, indent, i).(cell := RefState(t, indent, i).cell + [t[i]]) == RefState(t, indent, i + 1)
  {
    BarsAtOther(t, i);
    var a := CellStart(t, i);
    assert CellStart(t, i + 1) == a;
    assert Decode(t, a, i + 1) == Decode(t, a, i) + [t[i]];
  }

  /** A backslash at boundary `i` with a unit after it appends the decoded
      escape to the reference cell. */
  lemma EscapeFollowsReference(t: JString, indent: int, i: nat)
    requires i + 1 < |t| && !Escaped(t, i) && t[i] == BACKSLASH
    ensures !Escaped(t, i + 2)
    ensures RefState(t, indent, i).(cell := RefState(t, indent, i).cell + Unescape(t[i + 1])) == RefState(t, indent, i + 2)
  {
    BarsAtOther(t, i);
    var a := CellStart(t, i);
    assert CellStart(t, i + 2) == a;
    assert Decode(t, a, i + 2) == Decode(t, a, i) + Unescape(t[i + 1]);
  }

  /** One iteration at a boundary `i` takes the reference state at `i` to the
      reference state at the next boundary. */
  lemma StepFollowsReference(t: JString, indent: int, i: nat) returns (last: nat)
    requires i < |t| && !Escaped(t, i)
    requires t[i] != BACKSLASH || i + 1 < |t|
    ensures last == (if t[i] == BACKSLASH then i + 1 else i)
    ensures last < |t| && !Escaped(t, last + 1)
    ensures Step(t, indent, RefState(t, indent, i), i) == Success((RefState(t, indent, last + 1), last))
  {
    if t[i] == PIPE {
      PipeFollowsReference(t, indent, i);
    } else if t[i] == BACKSLASH {
      EscapeFollowsReference(t, indent, i);
    } else {
      PlainFollowsReference(t, indent, i);
    }
    last := if t[i] == BACKSLASH then i + 1 else i;
  }

  /** The bounded loop, started at a boundary in the reference state, ends in
      the reference state at the end of the text; with a trailing unescaped
      backslash it throws there instead, in the state before that backslash. */
  lemma {:induction false} ScanFollowsReference(t: JString, indent: int, i: nat)
    requires i <= |t| && !Escaped(t, i)
    ensures Scan(t, indent, RefState(t, indent, i), i) ==
      if Escaped(t, |t|) then Faulted(RefState(t, indent, |t| - 1), StringIndexOutOfBounds(|t|))
      else Finished(RefState(t, indent, |t|))
    decreases |t| - i
  {
    if i == |t| {
    } else if t[i] == BACKSLASH && i + 1 == |t| {
      ScanAtDanglingEscape(t, indent, i);
    } else {
      var next := ScanStepsToNext(t, indent, i);
      ScanFollowsReference(t, indent, next);
    }
  }

  /** A backslash in the last unit makes the loop throw in the state before
      it. */
  lemma ScanAtDanglingEscape(t: JString, indent: int, i: nat)
    requires i + 1 == |t| && !Escaped(t, i) && t[i] == BACKSLASH
    ensures Escaped(t, |t|)
    ensures Scan(t, indent, RefState(t, indent, i), i) == Faulted(RefState(t, indent, |t| - 1), StringIndexOutOfBounds(|t|))
  {
  }

  /** One successful iteration of the loop from the reference state at `i`
      continues from the reference state at the next boundary. */
  lemma ScanStepsToNext(t: JString, indent: int, i: nat) returns (next: nat)
    requires i < |t| && !Escaped(t, i)
    requires t[i] != BACKSLASH || i + 1 < |t|
    ensures i < next <= |t| && !Escaped(t, next)
    ensures Scan(t, indent, RefState(t, indent, i), i) == Scan(t, indent, RefState(t, indent, next), next)
  {
    var last := StepFollowsReference(t, indent, i);
    next := last + 1;
    ScanAfterStep(t, indent, RefState(t, indent, i), i, RefState(t, indent, next), last);
  }

  /** One iteration of the bounded loop, when its step succeeds. */
  lemma ScanAfterStep(t: JString, indent: int, s: ScanState, i: nat, s': ScanState, last: nat)
    requires i < |t| && Step(t, indent, s, i) == Success((s', last))
    ensures last < |t|
    ensures Scan(t, indent, s, i) == Scan(t, indent, s', last + 1)
  {
  }

  /** The cells a row accumulates: the reference cells of all its delimiters. */
  function ExpectedCells(t: JString, indent: int): seq<Span> {
    BarsValid(t, |t|);
    RowCells(t, indent, Bars(t, |t|))
  }

  /** From the start state, the bounded loop accumulates exactly the
      reference cells, and fails only on a trailing unescaped backslash. */
  lemma ScanFromStart(t: JString, indent: int)
    ensures Scan(t, indent, Start, 0).Faulted? <==> Escaped(t, |t|)
    ensures Scan(t, indent, Start, 0).state.spans == ExpectedCells(t, indent)
  {
    assert RefState(t, indent, 0) == Start;
    ScanFollowsReference(t, indent, 0);
    if Escaped(t, |t|) {
      assert Bars(t, |t|) == Bars(t, |t| - 1);
    }
  }

  /** The spans `getTableCells` as written has accumulated when it throws:
      one per pair of consecutive unescaped `|`, holding the trimmed decoded
      content between them. */
  function AccumulatedCells(l: Line): (r: seq<Span>)
    ensures ValidBars(l.trimmed, Bars(l.trimmed, |l.trimmed|))
    ensures var t := l.trimmed; var bars := Bars(t, |t|);
      && |r| == (if |bars| == 0 then 0 else |bars| - 1)
      && forall k :: 0 <= k < |r| ==> r[k] == PairCell(t, Indent(l), bars, k)
    ensures r == ExpectedCells(l.trimmed, Indent(l))
  {
    var t := l.trimmed;
    var indent := Indent(l);
    BarsValid(t, |t|);
    RowCellsAll(t, indent, Bars(t, |t|));
    DoWhileFaultsAfterScan(t, indent, Start, -1);
    ScanFromStart(t, indent);
    assert DoWhile(t, indent, Start, -1).state.spans == ExpectedCells(t, indent);
    DoWhile(t, indent, Start, -1).state.spans
  }

  /** `getTableCells()` with its loop bounded by the length, as a `for` loop
      over `0 .. length-1`: it returns the accumulated cells, and throws only
      when the text ends with an unescaped backslash. */
  function GetTableCellsBounded(l: Line): (r: Result<seq<Span>, Fault>)
    ensures r.Success? <==> !Escaped(l.trimmed, |l.trimmed|)
    ensures r.Success? ==> r.value == AccumulatedCells(l)
    ensures r.Failure? ==> r.error == StringIndexOutOfBounds(|l.trimmed|)
  {
    var t := l.trimmed;
    var indent := Indent(l);
    ScanFromStart(t, indent);
    var e := Scan(t, indent, Start, 0);
    assert e.state.spans == AccumulatedCells(l);
    if e.Finished? then Success(e.state.spans) else Failure(e.fault)
  }
}
