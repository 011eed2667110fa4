/** Why rendering asks for tables without tags or without spans: a table with both for which the size
    reserved in advance is too small. */
module FortOverflow {
  import opened Sequences
  import opened FortText
  import opened FortModel
  import opened FortGeometry
  import opened FortLayout

  const NO_BORDERS := Borders("", "", "", "", "", "", "", "", "", "", "", "", "", "", "", "", "", "", "")
  const NO_STYLE := Style(NO_BORDERS, NO_BORDERS, SeparatorChars("", "", "", "", "", ""))
  const NO_TAGS := Tags("", "", "", "")

  /** Twenty bytes asked for by a spanning cell of height one. */
  const WIDE := CellProps(20, AlignLeft, 0, 0, 0, 0, 1, NO_TAGS)
  /** The escape sequence of FT_COLOR_RED for a cell's content, and the reset that goes with every one of them. */
  const FG_RED := "\U{1B}[31m"
  const RESET := "\U{1B}[0m"
  /** An empty cell six lines high with a red content: nine bytes of tags. */
  const TAGGED := CellProps(0, AlignLeft, 6, 0, 0, 0, 0, Tags("", "", FG_RED, RESET))

  function PropsAt(r: nat, c: nat): CellProps {
    if r == 0 then WIDE else TAGGED
  }

  const TOP: Row := [Cell(0, "", Master), Cell(1, "", Slave)]
  const BOTTOM: Row := [Cell(2, "", Common), Cell(3, "", Common)]

  function Table(): View {
    View([TOP, BOTTOM], [], PropsAt, (r: nat) => false, NO_STYLE, 0, 0, 0, 0)
  }

  lemma Sizes()
    ensures Cols(Table()) == 2 && TextWidth("") == 0
    ensures GroupSize(TOP, 0) == 2
  {
    var v := Table();
    assert ColsUpTo(v.rows, 0) == 0 && ColsUpTo(v.rows, 1) == 2 && ColsUpTo(v.rows, 2) == 2;
    assert Lines("") == [""];
    assert SlaveRun(TOP, 2) == 0 && SlaveRun(TOP, 1) == 1;
  }

  lemma Widths(geom: Geometry)
    ensures ColWidths(Table(), geom) == [10, 9]
  {
    Sizes();
    var v := Table();
    var base: nat := if geom.Internal? then 9 else 0;
    forall c: nat | c < 2 ensures BaseWidth(v, geom, c) == base {
      assert VisibleBase(v, c, 0) == 0 && VisibleBase(v, c, 1) == 0 && VisibleBase(v, c, 2) == 0;
      assert TagBase(v, c, 0) == 0 && TagBase(v, c, 1) == 0 && TagBase(v, c, 2) == 9;
    }
    var w0 := BaseWidths(v, geom);
    assert w0 == [base, base];
    assert SumRange(w0, 0, 0) == 0 && SumRange(w0, 0, 1) == base && SumRange(w0, 0, 2) == 2 * base;
    assert HintWidth(v, geom, 0, 0) == 20;
    assert AdjustCell(v, geom, w0, 0, 0) == [10, 9];
    OnlyMaster(geom, w0, [10, 9]);
  }

  /** The one spanning cell is all that is adjusted. */
  lemma OnlyMaster(geom: Geometry, w0: seq<nat>, w1: seq<nat>)
    requires Cols(Table()) == 2 == |w0| == |w1| && AdjustCell(Table(), geom, w0, 0, 0) == w1
    ensures AdjustCols(Table(), geom, w0, 2) == w1
  {
    var v := Table();
    assert !MasterAt(v, 1, 0) && !MasterAt(v, 0, 1) && !MasterAt(v, 1, 1);
    hide Cols, HintWidth, GroupSize, MasterAt;
    assert AdjustRows(v, geom, w0, 0, 0) == w0 && AdjustRows(v, geom, w0, 0, 1) == w1;
    assert AdjustRows(v, geom, w0, 0, 2) == w1;
    assert AdjustRows(v, geom, w1, 1, 0) == w1 && AdjustRows(v, geom, w1, 1, 1) == w1;
    assert AdjustRows(v, geom, w1, 1, 2) == w1;
    assert AdjustCols(v, geom, w0, 0) == w0 && AdjustCols(v, geom, w0, 1) == w1;
  }

  lemma Heights()
    ensures RowHeights(Table()) == [1, 6]
  {
    Sizes();
    var v := Table();
    assert HeightUpTo(v, 0, 0) == 0 && HeightUpTo(v, 0, 1) == 1 && HeightUpTo(v, 0, 2) == 1;
    assert HeightUpTo(v, 1, 0) == 0 && HeightUpTo(v, 1, 1) == 6 && HeightUpTo(v, 1, 2) == 6;
  }

  lemma ReservedIsSmall()
    ensures Reserved(Table()) == 231
  {
    var v := Table();
    Sizes();
    Widths(Internal);
    Heights();
    var w: seq<nat>, h: seq<nat> := [10, 9], [1, 6];
    assert SumRange(w, 0, 0) == 0 && SumRange(w, 0, 1) == 10 && SumRange(w, 0, 2) == 19;
    assert SumRange(h, 0, 0) == 0 && SumRange(h, 0, 1) == 1 && SumRange(h, 0, 2) == 7;
    NoBorder();
    hide LongestOf, MaxBorder, ColWidths, RowHeights, SumRange, Cols;
    TimesIsProduct(1, 23);
    TimesIsProduct(23, 10);
    assert ReservedWidth(v) == 23 && ReservedHeight(v) == 10;
  }

  lemma NoBorder()
    ensures MaxBorder(NO_STYLE) == 1
  {
    hide LongestOf;
    AllEmpty(NO_BORDERS.Strings());
    AllEmpty(NO_STYLE.separator.Strings());
  }

  lemma {:induction false} AllEmpty(strings: seq<string>)
    requires forall i :: 0 <= i < |strings| ==> strings[i] == ""
    ensures LongestOf(strings) == 0
  {
    if strings == [] {
    } else {
      AllEmpty(strings[1..]);
    }
  }

  lemma WalkOfTwo(heads: seq<string>, steps: seq<nat>)
    requires |heads| == |steps| == 2 && StepsInside(steps)
    ensures |Walk(heads, steps, "", 0)| == |heads[0]| + if steps[0] == 2 then 0 else |heads[1]|
  {
    assert steps[1] == 1;
    assert Walk(heads, steps, "", 2) == "";
    assert |Walk(heads, steps, "", 1)| == |heads[1]|;
  }

  lemma HeadLengths(line: nat)
    requires line < 6
    ensures var w: seq<nat> := [10, 9];
      && |HeadCell(Table(), 0, 0, w, 0)| == 20
      && |HeadCell(Table(), 1, line, w, 0)| == 19 && |HeadCell(Table(), 1, line, w, 1)| == 18
  {
    var w: seq<nat> := [10, 9];
    Sizes();
    assert SumRange(w, 0, 0) == 0 && SumRange(w, 0, 1) == 10 && SumRange(w, 0, 2) == 19;
    assert SumRange(w, 1, 0) == 0 && SumRange(w, 1, 1) == 9;
  }

  lemma LineLengths(line: nat)
    requires line < 6
    ensures |RowLine(Table(), 0, 0, [10, 9])| == 21 && |RowLine(Table(), 1, line, [10, 9])| == 38
  {
    var v, w: seq<nat> := Table(), [10, 9];
    HeadLengths(line);
    Sizes();
    hide HeadCell, Walk, GroupSize, Lines;
    WalkOfTwo(Heads(v, 0, 0, w), Steps(TOP, 2));
    WalkOfTwo(Heads(v, 1, line, w), Steps(BOTTOM, 2));
    SingleSteps();
  }

  lemma SingleSteps()
    ensures Steps(TOP, 2)[0] == 2 && Steps(BOTTOM, 2)[0] == 1
  {
    Sizes();
  }

  lemma {:induction false} TallRow(n: nat)
    requires n <= 6
    ensures |Flatten(RowLines(Table(), 1, [10, 9], n))| == 38 * n
  {
    if n == 0 {
    } else {
      TallRow(n - 1);
      LineLengths(n - 1);
      FlattenSnoc(RowLines(Table(), 1, [10, 9], n - 1), RowLine(Table(), 1, n - 1, [10, 9]));
    }
  }

  lemma NoSeparators(k: nat)
    ensures SeparatorLines(Table(), k, [10, 9]) == []
  {
  }

  lemma HeightsAt()
    ensures RowHeight(Table(), 0) == 1 && RowHeight(Table(), 1) == 6
  {
    Heights();
    assert RowHeights(Table())[0] == RowHeight(Table(), 0) && RowHeights(Table())[1] == RowHeight(Table(), 1);
  }

  lemma SingleRowLine(v: View, r: nat, w: seq<nat>)
    requires r < |v.rows| && |v.rows[r]| <= |w|
    ensures RowLines(v, r, w, 1) == [RowLine(v, r, 0, w)]
  {
    hide RowLine;
    assert RowLines(v, r, w, 0) == [];
  }

  lemma TwoStrips()
    ensures Cols(Table()) == 2
    ensures Strip(Table(), [10, 9], 0) == [RowLine(Table(), 0, 0, [10, 9])]
    ensures Strip(Table(), [10, 9], 1) == RowLines(Table(), 1, [10, 9], 6)
  {
    Sizes();
    HeightsAt();
    NoSeparators(0);
    NoSeparators(1);
    hide RowLine, RowLines, SeparatorLines, RowHeight, Cols;
    SingleRowLine(Table(), 0, [10, 9]);
  }

  lemma BodyOfTwo(v: View, w: seq<nat>)
    requires |w| == Cols(v) && |v.rows| == 2
    ensures BodyLines(v, w) == Strip(v, w, 0) + Strip(v, w, 1)
  {
    hide Strip;
    assert Strips(v, w, 2) == [Strip(v, w, 0)] + [Strip(v, w, 1)];
    FlattenSnoc([Strip(v, w, 0)], Strip(v, w, 1));
    FlattenSnoc([], Strip(v, w, 0));
    assert [] + [Strip(v, w, 0)] == [Strip(v, w, 0)];
  }

  lemma WithoutMargins(v: View)
    requires v.top == v.bottom == 0 && SeparatorLines(v, |v.rows|, ColWidths(v, Visible)) == []
    ensures Render(v) == Flatten(BodyLines(v, ColWidths(v, Visible)))
  {
    hide ColWidths, SeparatorLines, BodyLines, ReservedWidth;
    assert RenderLines(v) == BodyLines(v, ColWidths(v, Visible));
  }

  lemma FlattenTwo(a: seq<string>, b: string, c: seq<string>)
    requires a == [b]
    ensures |Flatten(a + c)| == |b| + |Flatten(c)|
  {
    FlattenAppend(a, c);
    FlattenSnoc([], b);
    assert [] + [b] == a;
  }

  lemma BodyLength()
    ensures Cols(Table()) == 2 && |Flatten(BodyLines(Table(), [10, 9]))| == 249
  {
    TwoStrips();
    LineLengths(0);
    TallRow(6);
    hide *;
    BodyOfTwo(Table(), [10, 9]);
    FlattenTwo(Strip(Table(), [10, 9], 0), RowLine(Table(), 0, 0, [10, 9]), Strip(Table(), [10, 9], 1));
  }

  lemma RenderLength()
    ensures |Render(Table())| == 249
  {
    BodyLength();
    Widths(Visible);
    NoSeparators(2);
    hide ColWidths, SeparatorLines, BodyLines, Render;
    WithoutMargins(Table());
  }

  /** Spans and tags together: the text is longer than what table_geometry reserves for it. */
  lemma SpansWithTagsOverflow()
    ensures SpansWellFormed(Table()) && |Render(Table())| >= Reserved(Table())
  {
    RenderLength();
    ReservedIsSmall();
    hide Render, Reserved;
  }
}
