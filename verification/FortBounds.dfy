/** The size estimate against the printers, and the rectangular shape of the output. */
module FortBounds {
  import opened Sequences
  import opened FortText
  import opened FortModel
  import opened FortGeometry
  import opened FortLayout

  // ---------------------------------------------------------------- rectangular output

  /** Border strings all one byte long except at the sides, which take `a` and `b` bytes. */
  predicate UniformBorder(s: SepBorder, a: nat, b: nat) {
    |s.l| == a && |s.r| == b && |s.i| == |s.iv| == |s.it| == |s.ib| == |s.ii| == 1
  }

  predicate UniformRow(c: Borders, a: nat, b: nat) {
    |c.ll| == a && |c.iv| == 1 && |c.rr| == b
  }

  /** Every separator of the view is either left out or uniform, and so is every row border. */
  ghost predicate UniformView(v: View, a: nat, b: nat) {
    && (forall k :: 0 <= k <= |v.rows| ==>
        Skipped(SeparatorBorder(v, k)) || UniformBorder(SeparatorBorder(v, k), a, b))
    && UniformRow(v.style.border, a, b) && UniformRow(v.style.header, a, b)
  }

  const BASIC_BORDERS := Borders("+", "-", "+", "+", "|", "|", "|", "", "", "", "", "+", "-", "+", "+", "+", "+",
    "+", "+")
  const BASIC_HEADER := Borders("+", "-", "+", "+", "|", "|", "|", "+", "-", "+", "+", "+", "-", "+", "+", "+", "+",
    "+", "+")
  const BASIC_STYLE := Style(BASIC_BORDERS, BASIC_HEADER, SeparatorChars("+", "-", "+", "+", "+", "+"))

  const PLAIN_BORDERS := Borders("", "", "", "", "", " ", "", "", "", "", "", "", "", "", "", "", "", "", "")
  const PLAIN_HEADER := Borders("", "-", "-", "", "", " ", "", "", "-", "-", "", "", "-", "-", "", " ", "-", " ", "-")
  const PLAIN_STYLE := Style(PLAIN_BORDERS, PLAIN_HEADER, SeparatorChars("", "-", "-", "", "-", "-"))

  lemma BasicIsUniform(v: View)
    requires v.style == BASIC_STYLE
    ensures UniformView(v, 1, 1)
  {
  }

  /** The style the repository prints its tables in: no side borders. */
  lemma PlainIsUniform(v: View)
    requires v.style == PLAIN_STYLE
    ensures UniformView(v, 0, 0)
  {
  }

  /** The bytes of a whole line when the border strings are uniform. */
  function LineWidth(v: View, w: seq<nat>, a: nat, b: nat): nat {
    v.left + a + Total(w) + (if |w| == 0 then 0 else |w| - 1) + b + v.right + 1
  }

  /** The columns from `j` on. */
  function SumFrom(w: seq<nat>, j: nat): nat
    requires j <= |w|
  {
    SumRange(w, j, |w| - j)
  }

  lemma SumSplit(w: seq<nat>, j: nat, g: nat)
    requires j + g <= |w|
    ensures SumFrom(w, j) == SumRange(w, j, g) + SumFrom(w, j + g)
  {
    SumRangeSplit(w, j, g, |w| - j - g);
  }

  lemma SumOne(w: seq<nat>, j: nat)
    requires j < |w|
    ensures SumRange(w, j, 1) == w[j]
  {
    assert SumRange(w, j, 1) == SumRange(w, j, 0) + w[j];
  }

  /** Every piece reached from column `j` on is as long as the columns it stands for. */
  predicate WalkExact(heads: seq<string>, steps: seq<nat>, w: seq<nat>, j: nat)
    requires |heads| == |steps| == |w| && StepsInside(steps) && j <= |heads|
    decreases |heads| - j
  {
    j == |heads| ||
    (|heads[j]| == SumRange(w, j, steps[j]) + steps[j] - 1 && WalkExact(heads, steps, w, j + steps[j]))
  }

  lemma {:induction false} WalkLength(heads: seq<string>, steps: seq<nat>, border: string, w: seq<nat>, j: nat)
    requires |heads| == |steps| == |w| && StepsInside(steps) && j <= |heads|
    requires WalkExact(heads, steps, w, j) && |border| == 1
    ensures |Walk(heads, steps, border, j)| == SumFrom(w, j) + if j < |w| then |w| - j - 1 else 0
    decreases |heads| - j
  {
    if j >= |w| {
    } else {
      hide SumRange;
      SumSplit(w, j, steps[j]);
      WalkLength(heads, steps, border, w, j + steps[j]);
    }
  }

  lemma HeadCellLength(v: View, r: nat, line: nat, w: seq<nat>, j: nat)
    requires r < |v.rows| && |v.rows[r]| <= |w| && j < |w|
    requires NoTags(v) && (j < |v.rows[r]| ==> HeadFits(v, r, w, j))
    ensures var g := StepSize(v.rows[r], j); |HeadCell(v, r, line, w, j)| == SumRange(w, j, g) + g - 1
  {
    SumOne(w, j);
    assert v.props(r, j).tags.Length() == 0;
    if j < |v.rows[r]| {
      CellLineLength(v.rows[r][j], v.props(r, j), line, GroupWidth(w, j, GroupSize(v.rows[r], j)));
    }
  }

  lemma {:induction false} RowIsExact(v: View, r: nat, line: nat, w: seq<nat>, j: nat)
    requires r < |v.rows| && |v.rows[r]| <= |w| && j <= |w|
    requires NoTags(v) && RowFits(v, r, w, j)
    ensures WalkExact(Heads(v, r, line, w), Steps(v.rows[r], |w|), w, j)
    decreases |w| - j
  {
    if j >= |w| {
    } else {
      HeadCellLength(v, r, line, w, j);
      RowIsExact(v, r, line, w, j + StepSize(v.rows[r], j));
    }
  }

  lemma {:induction false} SeparatorCellsLength(v: View, k: nat, s: SepBorder, w: seq<nat>, n: nat, a: nat)
    requires n <= |w| && |s.l| == a && |s.i| == |s.iv| == |s.it| == |s.ib| == |s.ii| == 1
    ensures |SeparatorCells(v, k, s, w, n)| == SumRange(w, 0, n) + if n == 0 then 0 else a + n - 1
  {
    if n == 0 {
    } else {
      SeparatorCellsLength(v, k, s, w, n - 1, a);
      RepeatLength(s.i, w[n-1]);
      TimesIsProduct(1, w[n-1]);
    }
  }

  ghost predicate AllOfLength(lines: seq<string>, width: nat) {
    forall i :: 0 <= i < |lines| ==> |lines[i]| == width
  }

  lemma AllOfLengthAppend(a: seq<string>, b: seq<string>, width: nat)
    requires AllOfLength(a, width) && AllOfLength(b, width)
    ensures AllOfLength(a + b, width)
  {
  }

  lemma RowLineWidth(v: View, r: nat, line: nat, w: seq<nat>, a: nat, b: nat)
    requires r < |v.rows| && |v.rows[r]| <= |w|
    requires NoTags(v) && UniformRow(RowBorders(v, r), a, b) && RowFits(v, r, w, 0)
    ensures |RowLine(v, r, line, w)| == LineWidth(v, w, a, b)
  {
    RowIsExact(v, r, line, w, 0);
    WalkLength(Heads(v, r, line, w), Steps(v.rows[r], |w|), RowBorders(v, r).iv, w, 0);
  }

  lemma {:induction false} RowLinesWidth(v: View, r: nat, w: seq<nat>, n: nat, a: nat, b: nat)
    requires r < |v.rows| && |v.rows[r]| <= |w|
    requires NoTags(v) && UniformRow(RowBorders(v, r), a, b) && RowFits(v, r, w, 0)
    ensures AllOfLength(RowLines(v, r, w, n), LineWidth(v, w, a, b))
  {
    if n == 0 {
    } else {
      RowLinesWidth(v, r, w, n - 1, a, b);
      RowLineWidth(v, r, n - 1, w, a, b);
    }
  }

  lemma SeparatorLinesWidth(v: View, k: nat, w: seq<nat>, a: nat, b: nat)
    requires k <= |v.rows| && |w| > 0 && UniformView(v, a, b)
    ensures AllOfLength(SeparatorLines(v, k, w), LineWidth(v, w, a, b))
  {
    var s := SeparatorBorder(v, k);
    if !Skipped(s) {
      SeparatorCellsLength(v, k, s, w, |w|, a);
    }
  }

  lemma StripWidth(v: View, r: nat, a: nat, b: nat)
    requires r < |v.rows| && Cols(v) > 0
    requires NoTags(v) && SpansWellFormedRow(v.rows[r]) && UniformView(v, a, b)
    ensures AllOfLength(Strip(v, ColWidths(v, Visible), r), LineWidth(v, ColWidths(v, Visible), a, b))
  {
    RowWithinCols(v.rows, |v.rows|, r);
    SeparatorLinesWidth(v, r, ColWidths(v, Visible), a, b);
    RowFitsFrom(v, r, 0);
    RowLinesWidth(v, r, ColWidths(v, Visible), RowHeight(v, r), a, b);
  }

  lemma {:induction false} StripsOfLength(strips: seq<seq<string>>, width: nat)
    requires forall r :: 0 <= r < |strips| ==> AllOfLength(strips[r], width)
    ensures AllOfLength(Flatten(strips), width)
  {
    if strips == [] {
    } else {
      StripsOfLength(strips[1..], width);
      AllOfLengthAppend(strips[0], Flatten(strips[1..]), width);
    }
  }

  /** Every row line and every separator line printed has exactly the same length, spanned cells or not. */
  lemma Rectangular(v: View, a: nat, b: nat)
    requires Cols(v) > 0 && NoTags(v) && SpansWellFormed(v) && UniformView(v, a, b)
    ensures var w := ColWidths(v, Visible);
      AllOfLength(BodyLines(v, w) + SeparatorLines(v, |v.rows|, w), LineWidth(v, w, a, b))
  {
    var w := ColWidths(v, Visible);
    forall r | 0 <= r < |v.rows| ensures AllOfLength(Strips(v, w, |v.rows|)[r], LineWidth(v, w, a, b)) {
      StripWidth(v, r, a, b);
    }
    StripsOfLength(Strips(v, w, |v.rows|), LineWidth(v, w, a, b));
    SeparatorLinesWidth(v, |v.rows|, w, a, b);
  }

  /** With side borders and one-byte strings the margin lines have that length too. */
  lemma MarginsMatch(v: View)
    requires Cols(v) > 0 && NoTags(v) && MaxBorder(v.style) == 1
    ensures ReservedWidth(v) == LineWidth(v, ColWidths(v, Visible), 1, 1)
  {
    NoTagsSameWidths(v);
    TimesIsProduct(1, ReservedColumns(v));
  }

  // ---------------------------------------------------------------- rendering always fits

  /** The columns a cell is printed over leave room for its tags in the internal geometry. */
  ghost predicate RoomForTags(v: View) {
    var w, iw := ColWidths(v, Visible), ColWidths(v, Internal);
    && (forall k :: 0 <= k < |w| ==> w[k] <= iw[k])
    && (forall r, c :: 0 <= r < |v.rows| && 0 <= c < |v.rows[r]| ==> CellHasRoom(v, w, iw, r, c))
  }

  ghost predicate CellHasRoom(v: View, w: seq<nat>, iw: seq<nat>, r: nat, c: nat)
    requires |w| == |iw| == Cols(v) && r < |v.rows| && c < |v.rows[r]|
  {
    RowWithinCols(v.rows, |v.rows|, r);
    var g := GroupSize(v.rows[r], c);
    SumRange(w, c, g) + v.props(r, c).tags.Length() <= SumRange(iw, c, g)
  }

  lemma {:induction false} NoTagsBase(v: View, c: nat, n: nat)
    requires NoTags(v) && n <= |v.rows|
    ensures TagBase(v, c, n) == 0
  {
    if n == 0 {
    } else {
      NoTagsBase(v, c, n - 1);
      assert v.props(n - 1, c).tags.Length() == 0;
    }
  }

  lemma {:induction false} NoTagsRows(v: View, w: seq<nat>, c: nat, n: nat)
    requires NoTags(v) && |w| == Cols(v) && n <= |v.rows|
    ensures AdjustRows(v, Internal, w, c, n) == AdjustRows(v, Visible, w, c, n)
  {
    if n == 0 {
    } else {
      NoTagsRows(v, w, c, n - 1);
      assert v.props(n - 1, c).tags.Length() == 0;
    }
  }

  lemma {:induction false} NoTagsCols(v: View, w: seq<nat>, n: nat)
    requires NoTags(v) && |w| == Cols(v) && n <= Cols(v)
    ensures AdjustCols(v, Internal, w, n) == AdjustCols(v, Visible, w, n)
  {
    if n == 0 {
    } else {
      NoTagsCols(v, w, n - 1);
      NoTagsRows(v, AdjustCols(v, Internal, w, n - 1), n - 1, |v.rows|);
    }
  }

  /** Without tags the two geometries are one. */
  lemma NoTagsSameWidths(v: View)
    requires NoTags(v)
    ensures ColWidths(v, Internal) == ColWidths(v, Visible)
  {
    forall c | 0 <= c < Cols(v) ensures BaseWidths(v, Internal)[c] == BaseWidths(v, Visible)[c] {
      NoTagsBase(v, c, |v.rows|);
    }
    assert BaseWidths(v, Internal) == BaseWidths(v, Visible);
    NoTagsCols(v, BaseWidths(v, Internal), Cols(v));
  }

  lemma NoTagsHaveRoom(v: View)
    requires NoTags(v)
    ensures RoomForTags(v)
  {
    NoTagsSameWidths(v);
    assert forall r: nat, c: nat :: v.props(r, c).tags.Length() == 0;
  }

  /** Without spans every column reserves the widest tags standing in it. */
  lemma NoSpansHaveRoom(v: View)
    requires NoSpans(v)
    ensures RoomForTags(v)
  {
    forall r: nat, c: nat ensures !MasterAt(v, r, c) {
    }
    NoMasterNoChange(v, Visible, BaseWidths(v, Visible), Cols(v));
    NoMasterNoChange(v, Internal, BaseWidths(v, Internal), Cols(v));
    var w, iw := ColWidths(v, Visible), ColWidths(v, Internal);
    forall r, c | 0 <= r < |v.rows| && 0 <= c < |v.rows[r]| ensures CellHasRoom(v, w, iw, r, c) {
      RowWithinCols(v.rows, |v.rows|, r);
      assert v.rows[r][c].kind.Common?;
      TagBaseCovers(v, c, |v.rows|, r);
      SumOne(w, c);
      SumOne(iw, c);
    }
  }

  predicate BorderWithin(s: SepBorder, m: nat) {
    |s.l| <= m && |s.i| <= m && |s.iv| <= m && |s.r| <= m && |s.it| <= m && |s.ib| <= m && |s.ii| <= m
  }

  predicate StringsWithin(c: Borders, m: nat) {
    && |c.tl| <= m && |c.tt| <= m && |c.tv| <= m && |c.tr| <= m && |c.ll| <= m && |c.iv| <= m && |c.rr| <= m
    && |c.lh| <= m && |c.ih| <= m && |c.ii| <= m && |c.rh| <= m && |c.bl| <= m && |c.bb| <= m && |c.bv| <= m
    && |c.br| <= m && |c.ti| <= m && |c.bi| <= m
  }

  lemma BordersBound(c: Borders, m: nat)
    requires LongestOf(c.Strings()) <= m
    ensures StringsWithin(c, m)
  {
    var all := c.Strings();
    LongestIsMaximum(all);
    assert all[0] == c.tl && all[1] == c.tt && all[2] == c.tv && all[3] == c.tr && all[4] == c.ll && all[5] == c.iv;
    assert all[6] == c.rr && all[7] == c.lh && all[8] == c.ih && all[9] == c.ii && all[10] == c.rh && all[11] == c.bl;
    assert all[12] == c.bb && all[13] == c.bv && all[14] == c.br && all[16] == c.ti && all[18] == c.bi;
  }

  lemma SeparatorCharsBound(c: SeparatorChars, m: nat)
    requires LongestOf(c.Strings()) <= m
    ensures |c.lh| <= m && |c.ih| <= m && |c.ii| <= m && |c.rh| <= m && |c.ti| <= m && |c.bi| <= m
  {
    var all := c.Strings();
    LongestIsMaximum(all);
    assert all[0] == c.lh && all[1] == c.ih && all[2] == c.ii && all[3] == c.rh && all[4] == c.ti && all[5] == c.bi;
  }

  lemma BorderStringsBound(v: View, k: nat)
    ensures BorderWithin(SeparatorBorder(v, k), MaxBorder(v.style))
    ensures StringsWithin(RowBorders(v, k), MaxBorder(v.style))
  {
    hide LongestOf;
    BordersBound(v.style.border, MaxBorder(v.style));
    BordersBound(v.style.header, MaxBorder(v.style));
    SeparatorCharsBound(v.style.separator, MaxBorder(v.style));
  }

  lemma HeadCellBound(v: View, r: nat, line: nat, iw: seq<nat>, j: nat)
    requires r < |v.rows| && |v.rows[r]| <= Cols(v) && j < Cols(v)
    requires RoomForTags(v) && iw == ColWidths(v, Internal)
    ensures var g := StepSize(v.rows[r], j);
      |HeadCell(v, r, line, ColWidths(v, Visible), j)| <= SumRange(iw, j, g) + g - 1
  {
    var w := ColWidths(v, Visible);
    SumOne(iw, j);
    if j < |v.rows[r]| {
      assert CellHasRoom(v, w, iw, r, j);
      CellLineLength(v.rows[r][j], v.props(r, j), line, GroupWidth(w, j, GroupSize(v.rows[r], j)));
    }
  }

  /** Every piece is at most as long as the internal columns it stands for. */
  ghost predicate HeadsBounded(heads: seq<string>, steps: seq<nat>, iw: seq<nat>)
    requires |heads| == |steps| == |iw| && StepsInside(steps)
  {
    forall j :: 0 <= j < |heads| ==> |heads[j]| <= SumRange(iw, j, steps[j]) + steps[j] - 1
  }

  lemma {:induction false} WalkBound(heads: seq<string>, steps: seq<nat>, border: string, iw: seq<nat>, j: nat, m: nat)
    requires |heads| == |steps| == |iw| && StepsInside(steps) && j <= |heads|
    requires HeadsBounded(heads, steps, iw) && 1 <= m && |border| <= m
    ensures |Walk(heads, steps, border, j)| <= SumFrom(iw, j) + if j < |iw| then Times(m, |iw| - j - 1) else 0
    decreases |heads| - j
  {
    if j >= |iw| {
    } else {
      var g := steps[j];
      SumSplit(iw, j, g);
      WalkBound(heads, steps, border, iw, j + g, m);
      Distribute(m, g, |iw| - j - g);
    }
  }

  /** g - 1 inner bytes, one border and what follows are within the borders still allowed. */
  lemma Distribute(m: nat, g: nat, rest: nat)
    requires 1 <= m && 1 <= g
    ensures g - 1 + (if rest > 0 then m + Times(m, rest - 1) else 0) <= Times(m, g + rest - 1)
  {
    TimesSum(m, g - 1, rest);
  }

  lemma ScaleUp(m: nat, left: nat, right: nat, s: nat, n: nat)
    requires 1 <= m
    ensures left + m + m * s + m * n + right + 1 <= m * (n + 2 + s + left + right)
    ensures left + m + s + m * n + right + 1 <= m * (n + 2 + s + left + right)
  {
    assert m * (n + 2 + s + left + right) == m * n + 2 * m + m * s + m * left + m * right;
    MultipleAtLeast(m, left);
    MultipleAtLeast(m, right);
    MultipleAtLeast(m, s);
  }

  lemma RoomBoundsHeads(v: View, r: nat, line: nat)
    requires r < |v.rows| && RoomForTags(v) && |v.rows[r]| <= Cols(v)
    ensures HeadsBounded(Heads(v, r, line, ColWidths(v, Visible)), Steps(v.rows[r], Cols(v)), ColWidths(v, Internal))
  {
    forall j | 0 <= j < Cols(v)
      ensures |HeadCell(v, r, line, ColWidths(v, Visible), j)|
              <= SumRange(ColWidths(v, Internal), j, StepSize(v.rows[r], j)) + StepSize(v.rows[r], j) - 1
    {
      HeadCellBound(v, r, line, ColWidths(v, Internal), j);
    }
  }

  lemma RowTotal(m: nat, left: nat, right: nat, s: nat, n: nat, cells: nat)
    requires 1 <= m && 1 <= n && cells <= s + Times(m, n - 1)
    ensures left + m + cells + m + right + 1 <= Times(m, 1 + n + 1 + s + left + right)
  {
    TimesIsProduct(m, n);
    TimesIsProduct(m, 1 + n + 1 + s + left + right);
    ScaleUp(m, left, right, s, n);
  }

  ghost predicate AllWithin(lines: seq<string>, width: nat) {
    forall i :: 0 <= i < |lines| ==> |lines[i]| <= width
  }

  lemma RowLineLength(v: View, r: nat, line: nat, w: seq<nat>)
    requires r < |v.rows| && |v.rows[r]| <= |w|
    ensures |RowLine(v, r, line, w)| == v.left + |RowBorders(v, r).ll| + |RowCells(v, r, line, w)|
                                        + |RowBorders(v, r).rr| + v.right + 1
  {
    hide RowCells, RowBorders;
  }

  lemma RowLineTotal(v: View, r: nat, line: nat, w: seq<nat>, iw: seq<nat>, m: nat)
    requires r < |v.rows| && |v.rows[r]| <= |w| == |iw| && |w| > 0 && 1 <= m
    requires HeadsBounded(Heads(v, r, line, w), Steps(v.rows[r], |w|), iw)
    requires StringsWithin(RowBorders(v, r), m)
    ensures |RowLine(v, r, line, w)| <= Times(m, 1 + AtLeastOne(|w|) + 1 + Total(iw) + v.left + v.right)
  {
    RowLineLength(v, r, line, w);
    WalkBound(Heads(v, r, line, w), Steps(v.rows[r], |w|), RowBorders(v, r).iv, iw, 0, m);
    hide RowLine, RowBorders, Walk, Heads, Steps, Times, HeadsBounded;
    RowTotal(m, v.left, v.right, Total(iw), |w|, |RowCells(v, r, line, w)|);
  }

  lemma {:induction false} RowLinesTotal(v: View, r: nat, n: nat, w: seq<nat>, iw: seq<nat>, m: nat)
    requires r < |v.rows| && |v.rows[r]| <= |w| == |iw| && 1 <= m && (n > 0 ==> |w| > 0)
    requires forall line: nat :: HeadsBounded(Heads(v, r, line, w), Steps(v.rows[r], |w|), iw)
    requires StringsWithin(RowBorders(v, r), m)
    ensures AllWithin(RowLines(v, r, w, n), Times(m, 1 + AtLeastOne(|w|) + 1 + Total(iw) + v.left + v.right))
  {
    if n == 0 {
    } else {
      RowLinesTotal(v, r, n - 1, w, iw, m);
      RowLineTotal(v, r, n - 1, w, iw, m);
    }
  }

  lemma {:induction false} RepeatBound(part: string, n: nat, m: nat)
    requires |part| <= m
    ensures |Repeat(part, n)| <= Times(m, n)
  {
    if n == 0 {
    } else {
      RepeatBound(part, n - 1, m);
    }
  }

  lemma {:induction false} SeparatorCellsBound(v: View, k: nat, b: SepBorder, w: seq<nat>, n: nat, m: nat)
    requires n <= |w| && BorderWithin(b, m) && 1 <= m
    ensures |SeparatorCells(v, k, b, w, n)| <= Times(m, SumRange(w, 0, n) + n)
  {
    if n == 0 {
    } else {
      SeparatorCellsBound(v, k, b, w, n - 1, m);
      RepeatBound(b.i, w[n-1], m);
      SeparatorStep(m, SumRange(w, 0, n - 1) + n - 1, w[n-1]);
      assert |Junction(v, k, b, n - 1)| <= m;
    }
  }

  lemma SeparatorStep(m: nat, before: nat, x: nat)
    requires 1 <= m
    ensures Times(m, before) + m + Times(m, x) == Times(m, before + x + 1)
  {
    TimesSum(m, before, x + 1);
  }

  /** The estimate grows with the column widths. */
  lemma SeparatorTotal(m: nat, left: nat, right: nat, s: nat, t: nat, n: nat, cells: nat)
    requires 1 <= m && s <= t && cells <= Times(m, s + n)
    ensures left + cells + m + right + 1 <= Times(m, 1 + AtLeastOne(n) + 1 + t + left + right)
  {
    TimesSum(m, s + n, t - s + left + right + 2 + AtLeastOne(n) - n);
    TimesSum(m, left + right, t - s + 2 + AtLeastOne(n) - n);
    TimesSum(m, 2, t - s + AtLeastOne(n) - n);
  }

  lemma SeparatorLineTotal(v: View, k: nat, w: seq<nat>, iw: seq<nat>, m: nat)
    requires |w| == |iw| && 1 <= m && BorderWithin(SeparatorBorder(v, k), m) && Total(w) <= Total(iw)
    ensures |SeparatorLine(v, k, w)| <= Times(m, 1 + AtLeastOne(|w|) + 1 + Total(iw) + v.left + v.right)
  {
    var cells := SeparatorCells(v, k, SeparatorBorder(v, k), w, |w|);
    SeparatorCellsBound(v, k, SeparatorBorder(v, k), w, |w|, m);
    SeparatorTotal(m, v.left, v.right, Total(w), Total(iw), |w|, |cells|);
  }

  // ---------------------------------------------------------------- lines and their number

  lemma {:induction false} FlattenBound(lines: seq<string>, width: nat)
    requires AllWithin(lines, width)
    ensures |Flatten(lines)| <= Times(width, |lines|)
  {
    if lines == [] {
    } else {
      FlattenBound(lines[1..], width);
    }
  }

  lemma AllWithinAppend(a: seq<string>, b: seq<string>, width: nat)
    requires AllWithin(a, width) && AllWithin(b, width)
    ensures AllWithin(a + b, width)
  {
  }

  lemma SeparatorLinesBound(v: View, k: nat, w: seq<nat>, iw: seq<nat>, m: nat)
    requires |w| == |iw| && 1 <= m && BorderWithin(SeparatorBorder(v, k), m) && Total(w) <= Total(iw)
    ensures AllWithin(SeparatorLines(v, k, w), Times(m, 1 + AtLeastOne(|w|) + 1 + Total(iw) + v.left + v.right))
  {
    SeparatorLineTotal(v, k, w, iw, m);
  }

  lemma RoomIsMonotone(v: View)
    requires RoomForTags(v)
    ensures Total(ColWidths(v, Visible)) <= Total(ColWidths(v, Internal))
  {
    SumRangeMonotone(ColWidths(v, Visible), ColWidths(v, Internal), 0, Cols(v));
  }

  lemma SeparatorBoundAt(v: View, k: nat)
    requires RoomForTags(v)
    ensures AllWithin(SeparatorLines(v, k, ColWidths(v, Visible)), ReservedWidth(v))
  {
    BorderStringsBound(v, k);
    RoomIsMonotone(v);
    SeparatorLinesBound(v, k, ColWidths(v, Visible), ColWidths(v, Internal), MaxBorder(v.style));
  }

  lemma RoomBoundsAllLines(v: View, r: nat)
    requires RoomForTags(v) && r < |v.rows| && |v.rows[r]| <= Cols(v)
    ensures forall line: nat ::
      HeadsBounded(Heads(v, r, line, ColWidths(v, Visible)), Steps(v.rows[r], Cols(v)), ColWidths(v, Internal))
  {
    forall line: nat
      ensures HeadsBounded(Heads(v, r, line, ColWidths(v, Visible)), Steps(v.rows[r], Cols(v)), ColWidths(v, Internal))
    {
      RoomBoundsHeads(v, r, line);
    }
  }

  lemma WidthReserved(v: View)
    ensures ReservedWidth(v) == Times(MaxBorder(v.style),
                                      1 + AtLeastOne(Cols(v)) + 1 + Total(ColWidths(v, Internal)) + v.left + v.right)
  {
  }

  /** A row of a table without columns has no line. */
  lemma RowNeedsColumn(v: View, r: nat)
    requires r < |v.rows|
    ensures RowHeight(v, r) > 0 ==> Cols(v) > 0
  {
  }

  lemma RowBoundAt(v: View, r: nat)
    requires RoomForTags(v) && r < |v.rows| && |v.rows[r]| <= Cols(v)
    ensures AllWithin(RowLines(v, r, ColWidths(v, Visible), RowHeight(v, r)), ReservedWidth(v))
  {
    hide *;
    BorderStringsBound(v, r);
    RoomBoundsAllLines(v, r);
    WidthReserved(v);
    RowNeedsColumn(v, r);
    RowLinesTotal(v, r, RowHeight(v, r), ColWidths(v, Visible), ColWidths(v, Internal), MaxBorder(v.style));
  }

  lemma StripBound(v: View, r: nat)
    requires RoomForTags(v) && r < |v.rows|
    ensures AllWithin(Strip(v, ColWidths(v, Visible), r), ReservedWidth(v))
    ensures |Strip(v, ColWidths(v, Visible), r)| <= 1 + RowHeight(v, r)
  {
    RowWithinCols(v.rows, |v.rows|, r);
    SeparatorBoundAt(v, r);
    RowBoundAt(v, r);
  }

  /** Strips of at most `1 + heights[r]` lines each. */
  lemma {:induction false} StripsBound(strips: seq<seq<string>>, heights: seq<nat>, width: nat)
    requires |strips| == |heights|
    requires forall r :: 0 <= r < |strips| ==> AllWithin(strips[r], width) && |strips[r]| <= 1 + heights[r]
    ensures AllWithin(Flatten(strips), width)
    ensures |Flatten(strips)| <= |strips| + Total(heights)
  {
    if strips == [] {
    } else {
      StripsBound(strips[1..], heights[1..], width);
      AllWithinAppend(strips[0], Flatten(strips[1..]), width);
      TotalTail(heights);
    }
  }

  lemma TotalTail(h: seq<nat>)
    requires |h| > 0
    ensures Total(h) == h[0] + Total(h[1..])
  {
    SumRangeSplit(h, 0, 1, |h| - 1);
    SumOne(h, 0);
    SumRangeShift(h, 1, |h| - 1);
  }

  lemma {:induction false} SumRangeShift(h: seq<nat>, c: nat, n: nat)
    requires c + n <= |h|
    ensures SumRange(h, c, n) == SumRange(h[c..], 0, n)
  {
    if n == 0 {
    } else {
      SumRangeShift(h, c, n - 1);
    }
  }

  lemma AllWithinFour(a: seq<string>, b: seq<string>, c: seq<string>, d: seq<string>, width: nat)
    requires AllWithin(a, width) && AllWithin(b, width) && AllWithin(c, width) && AllWithin(d, width)
    ensures AllWithin(a + b + c + d, width)
  {
    AllWithinAppend(a, b, width);
    AllWithinAppend(a + b, c, width);
    AllWithinAppend(a + b + c, d, width);
  }

  lemma LinesBound(lines: seq<string>, width: nat, height: nat)
    requires AllWithin(lines, width) && |lines| <= height && 1 <= width
    ensures |Flatten(lines)| <= Times(width, height)
  {
    FlattenBound(lines, width);
    TimesSum(width, |lines|, height - |lines|);
  }

  lemma BodyBound(v: View)
    requires RoomForTags(v)
    ensures AllWithin(BodyLines(v, ColWidths(v, Visible)), ReservedWidth(v))
    ensures |BodyLines(v, ColWidths(v, Visible))| <= |v.rows| + Total(RowHeights(v))
  {
    var strips := Strips(v, ColWidths(v, Visible), |v.rows|);
    forall r | 0 <= r < |v.rows| ensures AllWithin(strips[r], ReservedWidth(v)) && |strips[r]| <= 1 + RowHeights(v)[r] {
      StripBound(v, r);
    }
    StripsBound(strips, RowHeights(v), ReservedWidth(v));
  }

  /** The whole text, terminator included, fits what the size estimate reserves. */
  lemma RenderFits(v: View)
    requires RoomForTags(v)
    ensures |Render(v)| < Reserved(v)
  {
    BodyBound(v);
    SeparatorBoundAt(v, |v.rows|);
    AllWithinFour(MarginLines(ReservedWidth(v), v.top), BodyLines(v, ColWidths(v, Visible)),
                  SeparatorLines(v, |v.rows|, ColWidths(v, Visible)), MarginLines(ReservedWidth(v), v.bottom),
                  ReservedWidth(v));
    LinesBound(RenderLines(v), ReservedWidth(v), ReservedHeight(v));
  }
}
