/** Text after the last delimiter of a row never reaches a span. */
module TableCellsFacts {
  import opened JavaString
  import opened TableCells

  predicate NoPipe(s: JString) {
    forall k :: 0 <= k < |s| ==> s[k] != PIPE
  }

  // ---------------------------------------------------------------------
  // Appending text
  // ---------------------------------------------------------------------

  /** Whether a unit is escaped depends only on the text before it. */
  lemma {:induction false} EscapedExtend(t: JString, s: JString, i: nat)
    requires i <= |t|
    ensures Escaped(t + s, i) == Escaped(t, i)
  {
    if i > 0 {
      assert (t + s)[i - 1] == t[i - 1];
      EscapedExtend(t, s, i - 1);
    }
  }

  /** The delimiters below `i` depend only on the text before `i`. */
  lemma {:induction false} BarsExtend(t: JString, s: JString, i: nat)
    requires i <= |t|
    ensures Bars(t + s, i) == Bars(t, i)
  {
    if i > 0 {
      BarsExtend(t, s, i - 1);
      EscapedExtend(t, s, i - 1);
      assert (t + s)[i - 1] == t[i - 1];
    }
  }

  /** Appended text without `|` adds no delimiter. */
  lemma {:induction false} BarsThroughNoPipe(t: JString, s: JString, j: nat)
    requires NoPipe(s) && |t| <= j <= |t| + |s|
    ensures Bars(t + s, j) == Bars(t, |t|)
    decreases j
  {
    if j == |t| {
      BarsExtend(t, s, |t|);
    } else {
      BarsThroughNoPipe(t, s, j - 1);
      assert (t + s)[j - 1] == s[j - 1 - |t|];
    }
  }

  /** Decoding a range depends only on the text up to its end. */
  lemma {:induction false} DecodeExtend(t: JString, s: JString, a: nat, b: nat)
    requires a <= b <= |t| && !Escaped(t, a) && !Escaped(t, b)
    ensures !Escaped(t + s, a) && !Escaped(t + s, b)
    ensures Decode(t + s, a, b) == Decode(t, a, b)
    decreases b
  {
    EscapedExtend(t, s, a);
    EscapedExtend(t, s, b);
    if a < b {
      EscapedExtend(t, s, b - 1);
      assert (t + s)[b - 1] == t[b - 1];
      if Escaped(t, b - 1) {
        DecodeExtend(t, s, a, b - 2);
      } else {
        DecodeExtend(t, s, a, b - 1);
      }
    }
  }

  /** One pair of delimiters of `t` gives the same span once text without
      `|` is appended. */
  lemma TrailingPairUnchanged(t: JString, s: JString, indent: int, k: nat)
    requires NoPipe(s) && k + 1 < |Bars(t, |t|)|
    ensures ValidBars(t, Bars(t, |t|)) && ValidBars(t + s, Bars(t, |t|))
    ensures PairCell(t + s, indent, Bars(t, |t|), k) == PairCell(t, indent, Bars(t, |t|), k)
  {
    var bars := Bars(t, |t|);
    BarsValid(t, |t|);
    assert ValidBars(t + s, bars) by {
      BarsThroughNoPipe(t, s, |t| + |s|);
      BarsValid(t + s, |t| + |s|);
    }
    var a, b := bars[k] + 1, bars[k + 1];
    PairCellUnfold(t, indent, bars, k);
    PairCellUnfold(t + s, indent, bars, k);
    assert Decode(t + s, a, b) == Decode(t, a, b) by {
      DecodeExtend(t, s, a, b);
    }
  }

  /** Text after the last `|` is never emitted: appending text without `|`
      leaves the accumulated cells as they were. */
  lemma TrailingTextNotEmitted(t: JString, s: JString, indent: int)
    requires NoPipe(s)
    ensures ExpectedCells(t + s, indent) == ExpectedCells(t, indent)
  {
    var bars := Bars(t, |t|);
    var n := |t| + |s|;
    assert |t + s| == n;
    BarsThroughNoPipe(t, s, n);
    assert Bars(t + s, |t + s|) == bars;
    var r := ExpectedCells(t + s, indent);
    var q := ExpectedCells(t, indent);
    assert |r| == |q|;
    forall k | 0 <= k < |r|
      ensures r[k] == q[k]
    {
      TrailingPairUnchanged(t, s, indent, k);
      RowCellsIndex(t + s, indent, bars, k);
      RowCellsIndex(t, indent, bars, k);
    }
  }
}
