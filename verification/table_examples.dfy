/** Rows worked through the table scan: the loop as written against the
    bounded loop on `|a|`, and the reference cells of `|a|b|` and `||`. */
module TableExamples {
  import opened Results
  import opened JavaString
  import opened GherkinLine
  import opened TableCells

  // ---------------------------------------------------------------------
  // `|a|`
  // ---------------------------------------------------------------------

  /** The text `|a|`. */
  const SingleCellText: JString := [PIPE, 0x61, PIPE]

  /** In `|a|` both `|` delimit. */
  lemma SingleCellBars()
    ensures !Escaped(SingleCellText, 3)
    ensures Bars(SingleCellText, 3) == [0, 2]
    ensures ValidBars(SingleCellText, [0, 2])
  {
    BarsValid(SingleCellText, 3);
    var t := SingleCellText;
    assert !Escaped(t, 0) && !Escaped(t, 1) && !Escaped(t, 2) && !Escaped(t, 3);
    assert Bars(t, 1) == [0];
    assert Bars(t, 2) == [0];
  }

  /** The one cell of `|a|` is `a`, at column 2. */
  lemma SingleCellSpan()
    ensures ValidBars(SingleCellText, [0, 2])
    ensures PairCell(SingleCellText, 0, [0, 2], 0) == Span(2, [0x61])
  {
    var t := SingleCellText;
    SingleCellBars();
    var a: JString := [0x61];
    assert Decode(t, 1, 2) == a;
    PlainUnitCell(0x61);
    assert CellSpan(0, 0, a) == Span(2, a);
    PairCellUnfold(t, 0, [0, 2], 0);
  }

  /** The row `|a|` at indentation 0, as written: the exception for
      index 3. */
  lemma SingleCellRowAsWritten()
    ensures GetTableCells(LineText(SingleCellText, SingleCellText)) == Failure(StringIndexOutOfBounds(3))
  {
  }

  /** The row `|a|` at indentation 0, with the bounded loop: the single cell
      `a` at column 2. */
  lemma SingleCellRowBounded()
    ensures GetTableCellsBounded(LineText(SingleCellText, SingleCellText)) == Success([Span(2, [0x61])])
  {
    SingleCellAccumulated();
    SingleCellBars();
  }

  /** The cells the scan of `|a|` accumulates. */
  lemma SingleCellAccumulated()
    ensures AccumulatedCells(LineText(SingleCellText, SingleCellText)) == [Span(2, [0x61])]
  {
    UnindentedAccumulated(SingleCellText);
    SingleCellExpected();
  }

  /** A line without indentation accumulates the reference cells of its
      text at indentation 0. */
  lemma UnindentedAccumulated(t: JString)
    ensures WellFormed(LineText(t, t))
    ensures AccumulatedCells(LineText(t, t)) == ExpectedCells(t, 0)
  {
    assert t[0..] == t && t[..0] == [];
    var l: Line := LineText(t, t);
    assert Indent(l) == 0;
  }

  /** The reference cells of `|a|`. */
  lemma SingleCellExpected()
    ensures ExpectedCells(SingleCellText, 0) == [Span(2, [0x61])]
  {
    SingleCellBars();
    SingleCellRowCells();
  }

  /** The delimiters `0` and `2` of `|a|` enclose the one cell. */
  lemma SingleCellRowCells()
    ensures ValidBars(SingleCellText, [0, 2])
    ensures RowCells(SingleCellText, 0, [0, 2]) == [Span(2, [0x61])]
  {
    SingleCellSpan();
    RowCellsShort(SingleCellText, 0, [0, 2]);
  }

  // ---------------------------------------------------------------------
  // `|a|b|`
  // ---------------------------------------------------------------------

  /** The text `|a|b|`. */
  const TwoCellText: JString := [PIPE, 0x61, PIPE, 0x62, PIPE]

  /** In `|a|b|` all three `|` delimit. */
  lemma TwoCellBars()
    ensures !Escaped(TwoCellText, 5)
    ensures Bars(TwoCellText, 5) == [0, 2, 4]
    ensures ValidBars(TwoCellText, [0, 2, 4])
  {
    BarsValid(TwoCellText, 5);
    var t := TwoCellText;
    assert !Escaped(t, 0) && !Escaped(t, 1) && !Escaped(t, 2) && !Escaped(t, 3) && !Escaped(t, 4) && !Escaped(t, 5);
    assert Bars(t, 1) == [0];
    assert Bars(t, 2) == [0];
    assert Bars(t, 3) == [0, 2];
    assert Bars(t, 4) == [0, 2];
  }

  /** A one-unit cell that is not whitespace is its own text, at offset 0. */
  lemma PlainUnitCell(u: CodeUnit)
    requires !IsTrimSpace(u) && !IsJavaWhitespace(u)
    ensures Trim([u]) == [u] && ContentStart([u]) == 0
  {
    var a: JString := [u];
    assert LeadingCount(a, IsJavaWhitespace) == 0;
    assert LeadingCount(a, IsTrimSpace) == 0;
    assert TrailingCount(a, IsTrimSpace) == 0;
  }

  /** The first cell of `|a|b|` is `a`, two columns past the indentation. */
  lemma TwoCellFirst(indent: int)
    ensures ValidBars(TwoCellText, [0, 2, 4])
    ensures PairCell(TwoCellText, indent, [0, 2, 4], 0) == Span(indent + 2, [0x61])
  {
    TwoCellBars();
    PlainUnitCell(0x61);
    var a: JString := [0x61];
    assert Decode(TwoCellText, 1, 2) == a;
    assert CellSpan(indent, 0, a) == Span(indent + 2, a);
    PairCellUnfold(TwoCellText, indent, [0, 2, 4], 0);
  }

  /** The second cell of `|a|b|` is `b`, counted from the delimiter at 2. */
  lemma TwoCellSecond(indent: int)
    ensures ValidBars(TwoCellText, [0, 2, 4])
    ensures PairCell(TwoCellText, indent, [0, 2, 4], 1) == Span(indent + 4, [0x62])
  {
    TwoCellBars();
    PlainUnitCell(0x62);
    var b: JString := [0x62];
    assert Decode(TwoCellText, 3, 4) == b;
    assert CellSpan(indent, 2, b) == Span(indent + 4, b);
    PairCellUnfold(TwoCellText, indent, [0, 2, 4], 1);
  }

  /** `|a|b|` accumulates `a` at column `indent + 2` and `b` at column
      `indent + 4`. */
  lemma TwoCellRow(indent: int)
    ensures ExpectedCells(TwoCellText, indent) == [Span(indent + 2, [0x61]), Span(indent + 4, [0x62])]
  {
    TwoCellBars();
    TwoCellRowCells(indent);
  }

  /** The delimiters `0`, `2` and `4` of `|a|b|` enclose its two cells. */
  lemma TwoCellRowCells(indent: int)
    ensures ValidBars(TwoCellText, [0, 2, 4])
    ensures RowCells(TwoCellText, indent, [0, 2, 4]) == [Span(indent + 2, [0x61]), Span(indent + 4, [0x62])]
  {
    TwoCellFirst(indent);
    TwoCellSecond(indent);
    RowCellsShort(TwoCellText, indent, [0, 2, 4]);
  }

  // ---------------------------------------------------------------------
  // `||`
  // ---------------------------------------------------------------------

  /** The text `||`. */
  const EmptyCellText: JString := [PIPE, PIPE]

  /** In `||` both `|` delimit. */
  lemma EmptyCellBars()
    ensures !Escaped(EmptyCellText, 2)
    ensures Bars(EmptyCellText, 2) == [0, 1]
    ensures ValidBars(EmptyCellText, [0, 1])
  {
    BarsValid(EmptyCellText, 2);
    var t := EmptyCellText;
    assert !Escaped(t, 0) && !Escaped(t, 1) && !Escaped(t, 2);
    assert Bars(t, 1) == [0];
  }

  /** The cell between the two `|` of `||` is empty, at column `indent + 2`. */
  lemma EmptyCellSpan(indent: int)
    ensures ValidBars(EmptyCellText, [0, 1])
    ensures PairCell(EmptyCellText, indent, [0, 1], 0) == Span(indent + 2, [])
  {
    EmptyCellBars();
    assert Decode(EmptyCellText, 1, 1) == [];
    assert Trim([]) == [] && ContentStart([]) == 0;
    PairCellUnfold(EmptyCellText, indent, [0, 1], 0);
  }

  /** `||` accumulates exactly one cell, empty, at column `indent + 2`. */
  lemma EmptyCellRow(indent: int)
    ensures ExpectedCells(EmptyCellText, indent) == [Span(indent + 2, [])]
  {
    EmptyCellBars();
    EmptyCellSpan(indent);
    RowCellsShort(EmptyCellText, indent, [0, 1]);
  }
}
