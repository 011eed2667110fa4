/** Where everything stands in the text of a table: the texts of the cells, the borders and the separators, by line and
    column. */
module FortPicture {
  import opened Sequences
  import opened FortText
  import opened FortModel
  import opened FortGeometry
  import opened FortLayout
  import opened FortBounds

  lemma {:induction false} SpacesAreBlank(n: nat)
    ensures |Spaces(n)| == n && forall i :: 0 <= i < n ==> Spaces(n)[i] == ' '
  {
    if n == 0 {
    } else {
      SpacesAreBlank(n - 1);
    }
  }

  lemma {:induction false} SpacesSum(m: nat, n: nat)
    ensures Spaces(m) + Spaces(n) == Spaces(m + n)
  {
    if m == 0 {
      assert "" + Spaces(n) == Spaces(n);
    } else {
      SpacesSum(m - 1, n);
      assert (" " + Spaces(m - 1)) + Spaces(n) == " " + (Spaces(m - 1) + Spaces(n));
    }
  }

  // ---------------------------------------------------------------- one cell

  /** How far a text is moved to the right in a width that has `slack` bytes more than it needs. */
  function Shift(align: Align, slack: nat): nat {
    match align
    case AlignLeft => 0
    case AlignRight => slack
    case AlignCenter => slack / 2
  }

  /** Line `i` of the text, in a cell `vis` bytes wide: blanks, the line, blanks, the tags around. The whole text is
      moved as a block, by its longest line. */
  function TextPicture(text: string, i: nat, vis: nat, longest: nat, p: CellProps): string
    requires i < |SplitOn(text, '\n')| && |SplitOn(text, '\n')[i]| <= longest && p.padLeft + longest + p.padRight <= vis
  {
    var line := SplitOn(text, '\n')[i];
    var x := p.padLeft + Shift(p.align, vis - p.padLeft - p.padRight - longest);
    p.tags.cell + Spaces(x) + p.tags.content + line + p.tags.resetContent + Spaces(vis - x - |line|) + p.tags.resetCell
  }

  /** A line of a cell that shows no text. */
  function BlankPicture(vis: nat, p: CellProps): string {
    p.tags.cell + p.tags.content + p.tags.resetContent + Spaces(vis) + p.tags.resetCell
  }

  /** `longest` is the length of the longest line of the text. */
  ghost predicate IsLongestLine(text: string, longest: nat) {
    var lines := SplitOn(text, '\n');
    (forall i :: 0 <= i < |lines| ==> |lines[i]| <= longest) && exists i :: 0 <= i < |lines| && |lines[i]| == longest
  }

  lemma LongestLine(text: string)
    ensures IsLongestLine(text, TextWidth(text))
    ensures forall n: nat :: IsLongestLine(text, n) ==> n == TextWidth(text)
  {
    LongestIsMaximum(Lines(text));
    forall n: nat | IsLongestLine(text, n) ensures n == TextWidth(text) {
      var i :| 0 <= i < |Lines(text)| && |Lines(text)[i]| == n;
      var k :| 0 <= k < |Lines(text)| && |Lines(text)[k]| == TextWidth(text);
    }
  }

  /** What a cell prints as line `line` of its row in `vis` bytes: behind the top padding the lines of its text, one
      after the other, and nothing but blanks in front of and behind them. */
  lemma CellPicture(cell: Cell, p: CellProps, line: nat, vis: nat, longest: nat)
    requires IsLongestLine(cell.text, longest) && p.padLeft + longest + p.padRight <= vis && p.minWidth <= vis
    ensures var count := if cell.text == "" then 0 else |SplitOn(cell.text, '\n')|;
      CellLine(cell, p, line, vis)
      == if p.padTop <= line < p.padTop + count then TextPicture(cell.text, line - p.padTop, vis, longest, p)
         else BlankPicture(vis, p)
  {
    LongestLine(cell.text);
    if p.padTop <= line < p.padTop + TextHeight(cell.text) {
      hide TextPicture, TextLine, TextWidth, SplitOn, BlankText;
      TextLineIs(cell.text, line - p.padTop, vis, p);
    } else {
      hide TextLine, TextWidth, SplitOn;
    }
  }

  lemma TextLineIs(text: string, i: nat, vis: nat, p: CellProps)
    requires i < |Lines(text)| && p.padLeft + TextWidth(text) + p.padRight <= vis
    requires |Lines(text)[i]| <= TextWidth(text)
    ensures TextLine(text, i, vis - p.padLeft - p.padRight, p) == TextPicture(text, i, vis, TextWidth(text), p)
  {
    hide *;
    var inner := vis - p.padLeft - p.padRight;
    var left := LeftFill(inner - TextWidth(text), p.align);
    ShiftIs(inner - TextWidth(text), p.align);
    LineUnfolds(text, i, inner, p, left);
    PictureUnfolds(text, i, vis, p, p.padLeft + left, vis - p.padLeft - left - |Lines(text)[i]|);
  }

  lemma ShiftIs(slack: nat, align: Align)
    ensures LeftFill(slack, align) == Shift(align, slack) <= slack
  {
  }

  lemma LineUnfolds(text: string, i: nat, inner: nat, p: CellProps, left: nat)
    requires i < |Lines(text)| && |Lines(text)[i]| <= TextWidth(text) <= inner
    requires left == LeftFill(inner - TextWidth(text), p.align)
    ensures var line, t := Lines(text)[i], p.tags;
      TextLine(text, i, inner, p) == AtOnce(t, line, p.padLeft + left, inner - left - |line| + p.padRight)
  {
    hide Lines, TextWidth, Spaces, LeftFill, AtOnce;
    BlankParts(p.tags, Lines(text)[i], p.padLeft, left, TextWidth(text) - |Lines(text)[i]|,
               inner - TextWidth(text) - left, p.padRight);
  }

  lemma PictureUnfolds(text: string, i: nat, vis: nat, p: CellProps, x: nat, y: nat)
    requires i < |Lines(text)| && |Lines(text)[i]| <= TextWidth(text)
    requires p.padLeft + TextWidth(text) + p.padRight <= vis && x + |Lines(text)[i]| + y == vis
    requires x == p.padLeft + Shift(p.align, vis - p.padLeft - p.padRight - TextWidth(text))
    ensures TextPicture(text, i, vis, TextWidth(text), p)
            == AtOnce(p.tags, Lines(text)[i], x, y)
  {
    hide TextWidth, Spaces, Shift, SplitOn;
  }

  /** A line as it is printed: the paddings, the alignment and what a shorter line lacks one by one. */
  function InSteps(tags: Tags, line: string, a: nat, b: nat, c: nat, d: nat, e: nat): string {
    tags.cell + Spaces(a) + (Spaces(b) + tags.content + line + tags.resetContent + Spaces(c) + Spaces(d))
      + Spaces(e) + tags.resetCell
  }

  function AtOnce(tags: Tags, line: string, x: nat, y: nat): string {
    tags.cell + Spaces(x) + tags.content + line + tags.resetContent + Spaces(y) + tags.resetCell
  }

  lemma BlankParts(tags: Tags, line: string, a: nat, b: nat, c: nat, d: nat, e: nat)
    ensures InSteps(tags, line, a, b, c, d, e) == AtOnce(tags, line, a + b, c + d + e)
  {
    hide Spaces;
    SpacesSum(a, b);
    SpacesSum(c, d);
    SpacesSum(c + d, e);
    Regroup(tags.cell, Spaces(a), Spaces(b), tags.content, line, tags.resetContent, Spaces(c), Spaces(d), Spaces(e),
            tags.resetCell, Spaces(a + b), Spaces(c + d + e));
  }

  lemma Regroup(a: string, b: string, c: string, d: string, e: string, f: string, g: string, h: string, i: string,
                j: string, x: string, y: string)
    requires b + c == x && g + h + i == y
    ensures a + b + (c + d + e + f + g + h) + i + j == a + x + d + e + f + y + j
  {
    assert a + b + (c + d + e + f + g + h) + i + j == a + (b + c) + d + e + f + (g + h + i) + j;
  }

  // ---------------------------------------------------------------- one line of a row

  /** The text stands in the line from byte `x` on. */
  ghost predicate Shows(line: string, x: nat, text: string) {
    x + |text| <= |line| && line[x..x+|text|] == text
  }

  lemma ShowsInside(front: string, s: string, back: string, x: nat, text: string)
    requires Shows(s, x, text)
    ensures Shows(front + s + back, |front| + x, text)
  {
    var line, o := front + s + back, |front| + x;
    forall i | 0 <= i < |text| ensures line[o+i] == text[i] {
      assert s[x..x+|text|][i] == text[i];
    }
  }

  lemma ShowsPart(line: string, x: nat, a: string, b: string)
    requires Shows(line, x, a + b)
    ensures Shows(line, x, a) && Shows(line, x + |a|, b)
  {
    var s := line[x..x+|a + b|];
    assert s[..|a|] == a && s[|a|..] == b;
  }

  /** Column `c` is one of those a walk from column `j` comes to. */
  predicate Reaches(steps: seq<nat>, j: nat, c: nat)
    requires StepsInside(steps)
    decreases c - j
  {
    j == c || (j < c && j < |steps| && Reaches(steps, j + steps[j], c))
  }

  /** Where column `c` begins, counted from column `j` on, a boundary of one byte behind each column. */
  function Off(w: seq<nat>, j: nat, c: nat): nat
    requires j <= c <= |w|
  {
    SumRange(w, j, c - j) + (c - j)
  }

  lemma OffSplit(w: seq<nat>, j: nat, g: nat, c: nat)
    requires j + g <= c <= |w|
    ensures Off(w, j, c) == SumRange(w, j, g) + g + Off(w, j + g, c)
  {
    SumRangeSplit(w, j, g, c - j - g);
  }

  /** The piece a walk puts down for column `c`, with the boundary behind it. */
  function Piece(heads: seq<string>, steps: seq<nat>, border: string, c: nat): string
    requires c < |heads| == |steps|
  {
    heads[c] + if c + steps[c] < |heads| then border else ""
  }

  lemma WalkPiece(heads: seq<string>, steps: seq<nat>, border: string, j: nat)
    requires |heads| == |steps| && StepsInside(steps) && j < |heads|
    ensures Walk(heads, steps, border, j)
            == Piece(heads, steps, border, j) + Walk(heads, steps, border, j + steps[j])
  {
  }

  lemma ShowsFirst(s: string, back: string)
    ensures Shows(s + back, 0, s)
  {
  }

  lemma ShowsBehind(front: string, s: string, x: nat, text: string)
    requires Shows(s, x, text)
    ensures Shows(front + s, |front| + x, text)
  {
    ShowsInside(front, s, "", x, text);
    assert front + s + "" == front + s;
  }

  lemma {:induction false} WalkShows(heads: seq<string>, steps: seq<nat>, border: string, w: seq<nat>, j: nat, c: nat)
    requires |heads| == |steps| == |w| && StepsInside(steps) && j <= c < |heads| && Reaches(steps, j, c)
    requires WalkExact(heads, steps, w, j) && |border| == 1
    ensures Shows(Walk(heads, steps, border, j), Off(w, j, c), Piece(heads, steps, border, c))
    decreases c - j
  {
    hide Walk, WalkExact, SumRange, Shows, Piece, StepsInside;
    StepsHere(steps, j);
    WalkPiece(heads, steps, border, j);
    WalkExactHere(heads, steps, w, j, border);
    if j == c {
      ShowsFirst(Piece(heads, steps, border, j), Walk(heads, steps, border, j + steps[j]));
      OffHere(w, j);
    } else {
      WalkShows(heads, steps, border, w, j + steps[j], c);
      OffSplit(w, j, steps[j], c);
      ShowsBehind(Piece(heads, steps, border, j), Walk(heads, steps, border, j + steps[j]), Off(w, j + steps[j], c),
                  Piece(heads, steps, border, c));
    }
  }

  lemma StepsHere(steps: seq<nat>, j: nat)
    requires StepsInside(steps) && j < |steps|
    ensures 1 <= steps[j] && j + steps[j] <= |steps|
  {
  }

  lemma OffHere(w: seq<nat>, j: nat)
    requires j <= |w|
    ensures Off(w, j, j) == 0
  {
  }

  lemma WalkExactHere(heads: seq<string>, steps: seq<nat>, w: seq<nat>, j: nat, border: string)
    requires |heads| == |steps| == |w| && StepsInside(steps) && j < |heads| && WalkExact(heads, steps, w, j)
    requires |border| == 1
    ensures WalkExact(heads, steps, w, j + steps[j])
    ensures j + steps[j] < |w| ==> |Piece(heads, steps, border, j)| == SumRange(w, j, steps[j]) + steps[j]
  {
  }

  predicate SlaveCell(row: Row, c: nat) {
    c < |row| && row[c].kind.Slave?
  }

  /** A walk comes to every column but those of slave cells. */
  lemma {:induction false} RowReaches(row: Row, n: nat, j: nat, c: nat)
    requires |row| <= n && j <= c < n && !SlaveCell(row, c)
    ensures Reaches(Steps(row, n), j, c)
    decreases c - j
  {
    if j == c {
    } else {
      assert Steps(row, n)[j] == StepSize(row, j);
      RowReaches(row, n, j + StepSize(row, j), c);
    }
  }

  /** What stands in column `c` of a line: the cell's line over its whole group, or blanks where there is no cell. */
  function PlaceText(v: View, r: nat, line: nat, w: seq<nat>, c: nat): string
    requires r < |v.rows| && |v.rows[r]| <= |w| && c < |w|
  {
    if c < |v.rows[r]| then
      CellLine(v.rows[r][c], v.props(r, c), line, GroupWidth(w, c, GroupSize(v.rows[r], c)))
    else Spaces(w[c])
  }

  /** The same with the boundary behind it, unless it is the last. */
  function ColumnText(v: View, r: nat, line: nat, w: seq<nat>, b: Borders, c: nat): string
    requires r < |v.rows| && |v.rows[r]| <= |w| && c < |w|
  {
    PlaceText(v, r, line, w, c) + if c + StepSize(v.rows[r], c) < |w| then b.iv else ""
  }

  /** The border strings of row `r`. */
  ghost predicate BordersOf(v: View, r: nat, b: Borders) {
    b == if v.header(r) then v.style.header else v.style.border
  }

  /** Where column `c` begins in a line with one-byte boundaries between the columns. */
  function ColumnAt(v: View, b: Borders, w: seq<nat>, c: nat): nat
    requires c <= |w|
  {
    v.left + |b.ll| + SumRange(w, 0, c) + c
  }

  /** What stands in front of the first column, and behind the last one. */
  function Front(v: View, b: Borders): string {
    Spaces(v.left) + b.ll
  }

  function Back(v: View, b: Borders): string {
    b.rr + Spaces(v.right) + "\n"
  }

  lemma RowLineParts(v: View, r: nat, line: nat, w: seq<nat>, b: Borders)
    requires r < |v.rows| && |v.rows[r]| <= |w| && BordersOf(v, r, b)
    ensures RowLine(v, r, line, w)
            == Front(v, b) + Walk(Heads(v, r, line, w), Steps(v.rows[r], |w|), b.iv, 0) + Back(v, b)
  {
    hide Walk, Heads, Steps, Spaces;
    var cells := Walk(Heads(v, r, line, w), Steps(v.rows[r], |w|), b.iv, 0);
    assert RowLine(v, r, line, w) == Spaces(v.left) + b.ll + cells + b.rr + Spaces(v.right) + "\n";
  }

  /** A cell, or the blanks of a missing cell, where its column begins, and a boundary behind it. */
  lemma ColumnShown(v: View, r: nat, line: nat, w: seq<nat>, b: Borders, c: nat)
    requires r < |v.rows| && |v.rows[r]| <= |w| && NoTags(v) && RowFits(v, r, w, 0)
    requires BordersOf(v, r, b) && |b.iv| == 1 && c < |w| && !SlaveCell(v.rows[r], c)
    ensures Shows(RowLine(v, r, line, w), ColumnAt(v, b, w, c), ColumnText(v, r, line, w, b, c))
  {
    hide *;
    var heads, steps, piece := Heads(v, r, line, w), Steps(v.rows[r], |w|), ColumnText(v, r, line, w, b, c);
    PieceAt(v, r, line, w, b, c);
    RowIsExact(v, r, line, w, 0);
    RowLineParts(v, r, line, w, b);
    RowReaches(v.rows[r], |w|, 0, c);
    WalkShows(heads, steps, b.iv, w, 0, c);
    ShowsInside(Front(v, b), Walk(heads, steps, b.iv, 0), Back(v, b), Off(w, 0, c), piece);
  }

  lemma PieceAt(v: View, r: nat, line: nat, w: seq<nat>, b: Borders, c: nat)
    requires r < |v.rows| && |v.rows[r]| <= |w| && c < |w|
    ensures var heads, steps := Heads(v, r, line, w), Steps(v.rows[r], |w|);
      ColumnText(v, r, line, w, b, c) == Piece(heads, steps, b.iv, c)
    ensures |Front(v, b)| + Off(w, 0, c) == ColumnAt(v, b, w, c)
  {
  }

  /** Left margin and border, right border and margin. */
  lemma SidesShown(v: View, r: nat, line: nat, w: seq<nat>, b: Borders)
    requires r < |v.rows| && |v.rows[r]| <= |w| && |w| > 0 && NoTags(v) && RowFits(v, r, w, 0)
    requires BordersOf(v, r, b) && |b.iv| == 1
    ensures var text, end := RowLine(v, r, line, w), ColumnAt(v, b, w, |w|) - 1;
      && Shows(text, 0, Spaces(v.left) + b.ll) && Shows(text, end, b.rr + Spaces(v.right) + "\n")
      && |text| == end + |b.rr| + v.right + 1
  {
    var heads, steps := Heads(v, r, line, w), Steps(v.rows[r], |w|);
    RowIsExact(v, r, line, w, 0);
    WalkLength(heads, steps, b.iv, w, 0);
    assert |Front(v, b)| + |Walk(heads, steps, b.iv, 0)| == ColumnAt(v, b, w, |w|) - 1;
    assert |Back(v, b)| == |b.rr| + v.right + 1;
    assert Front(v, b) == Spaces(v.left) + b.ll && Back(v, b) == b.rr + Spaces(v.right) + "\n";
    hide *;
    RowLineParts(v, r, line, w, b);
    ShowsEnds(Front(v, b), Walk(heads, steps, b.iv, 0), Back(v, b));
  }

  /** A line of a row: left margin and border, each cell or missing cell where its column begins and a boundary
      behind it, right border and margin. */
  lemma RowPicture(v: View, r: nat, line: nat, w: seq<nat>, b: Borders)
    requires r < |v.rows| && |v.rows[r]| <= |w| && |w| > 0 && NoTags(v) && RowFits(v, r, w, 0)
    requires BordersOf(v, r, b) && |b.iv| == 1
    ensures var text, row, end := RowLine(v, r, line, w), v.rows[r], ColumnAt(v, b, w, |w|) - 1;
      && Shows(text, 0, Spaces(v.left) + b.ll)
      && (forall c: nat :: c < |w| && !SlaveCell(row, c) ==>
          Shows(text, ColumnAt(v, b, w, c), ColumnText(v, r, line, w, b, c)))
      && Shows(text, end, b.rr + Spaces(v.right) + "\n") && |text| == end + |b.rr| + v.right + 1
  {
    SidesShown(v, r, line, w, b);
    forall c: nat | c < |w| && !SlaveCell(v.rows[r], c)
      ensures Shows(RowLine(v, r, line, w), ColumnAt(v, b, w, c), ColumnText(v, r, line, w, b, c))
    {
      ColumnShown(v, r, line, w, b, c);
    }
    hide *;
  }

  lemma ShowsEnds(front: string, s: string, back: string)
    ensures Shows(front + s + back, 0, front) && Shows(front + s + back, |front| + |s|, back)
  {
    var text := front + s + back;
    assert text[0..|front|] == front;
    assert text[|front|+|s|..|front|+|s|+|back|] == back;
  }

  // ---------------------------------------------------------------- one separator

  /** The strings of separator `k`, which stands above row `k`: those of the header if the row above or below it is
      one. A separator that was asked for takes its own strings but for its ends at the top and at the bottom of the
      table. */
  ghost predicate SeparatorStrings(v: View, k: nat, b: SepBorder) {
    var n, s := |v.rows|, v.style.separator;
    var c := if (0 < k && v.header(k - 1)) || (k < n && v.header(k)) then v.style.header else v.style.border;
    if k < |v.separators| && v.separators[k] then
      && b.i == s.ih && b.iv == s.ii && b.it == s.ti && b.ib == s.bi && b.ii == s.ih
      && (k >= n ==> b.l == c.bl && b.r == c.br)
      && (k == 0 < n ==> b.l == c.tl && b.r == c.tr)
      && (0 < k < n ==> b.l == s.lh && b.r == s.rh)
    else
      && (k == 0 ==> b == SepBorder(c.tl, c.tt, c.tv, c.tr, c.tv, c.tv, c.tt))
      && (0 < k < n ==> b == SepBorder(c.lh, c.ih, c.ii, c.rh, c.ti, c.bi, c.ih))
      && (0 < k && n <= k ==> b == SepBorder(c.bl, c.bb, c.bv, c.br, c.bv, c.bv, c.bb))
  }

  lemma StringsOfSeparator(v: View, k: nat)
    ensures SeparatorStrings(v, k, SeparatorBorder(v, k))
    ensures forall b :: SeparatorStrings(v, k, b) ==> b == SeparatorBorder(v, k)
  {
  }

  /** A separator is printed unless each of its ends, its line and its plain crossing is empty or one byte that
      cannot be printed. */
  ghost predicate Shown(b: SepBorder) {
    exists s :: s in {b.l, b.i, b.iv, b.r} && (|s| > 1 || (|s| == 1 && 0x20 as char <= s[0] <= 0x7e as char))
  }

  lemma ShownUnlessSkipped(b: SepBorder)
    ensures Shown(b) <==> !Skipped(b)
  {
    var strings := {b.l, b.i, b.iv, b.r};
    assert b.l in strings && b.i in strings && b.iv in strings && b.r in strings;
  }

  /** A group goes on over column `c` in the row above separator `k`; above the table nothing ends. */
  predicate GoesOnAbove(v: View, k: nat, c: nat) {
    k == 0 || k - 1 >= |v.rows| || SlaveCell(v.rows[k-1], c)
  }

  predicate GoesOnBelow(v: View, k: nat, c: nat) {
    k >= |v.rows| || SlaveCell(v.rows[k], c)
  }

  /** The crossing in front of column `c`: a boundary ends there above, below, on both sides or on none. */
  function Crossing(v: View, k: nat, b: SepBorder, c: nat): string {
    if !GoesOnAbove(v, k, c) then (if GoesOnBelow(v, k, c) then b.ib else b.iv)
    else if GoesOnBelow(v, k, c) then b.ii
    else b.it
  }

  lemma JunctionIs(v: View, k: nat, b: SepBorder, c: nat)
    ensures Junction(v, k, b, c) == if c == 0 then b.l else Crossing(v, k, b, c)
  {
  }

  /** Where the part of a separator for column `c` begins, its crossing in front. */
  function CrossingAt(b: SepBorder, w: seq<nat>, c: nat): nat
    requires c <= |w|
  {
    if c == 0 then 0 else |b.l| + SumRange(w, 0, c) + c - 1
  }

  function CrossingPiece(v: View, k: nat, b: SepBorder, w: seq<nat>, c: nat): string
    requires c < |w|
  {
    (if c == 0 then b.l else Crossing(v, k, b, c)) + Repeat(b.i, w[c])
  }

  predicate OneByte(b: SepBorder) {
    |b.i| == |b.iv| == |b.it| == |b.ib| == |b.ii| == 1
  }

  lemma CellsSnoc(v: View, k: nat, b: SepBorder, w: seq<nat>, n: nat)
    requires n < |w|
    ensures SeparatorCells(v, k, b, w, n + 1) == SeparatorCells(v, k, b, w, n) + CrossingPiece(v, k, b, w, n)
  {
    JunctionIs(v, k, b, n);
    hide Junction, Crossing;
    var cells, j, run := SeparatorCells(v, k, b, w, n), Junction(v, k, b, n), Repeat(b.i, w[n]);
    assert cells + j + run == cells + (j + run);
  }

  lemma {:induction false} CellsShow(v: View, k: nat, b: SepBorder, w: seq<nat>, n: nat, c: nat)
    requires c < n <= |w| && OneByte(b)
    ensures Shows(SeparatorCells(v, k, b, w, n), CrossingAt(b, w, c), CrossingPiece(v, k, b, w, c))
    decreases n
  {
    hide SeparatorCells, CrossingPiece, Shows;
    CellsSnoc(v, k, b, w, n - 1);
    var before, piece := SeparatorCells(v, k, b, w, n - 1), CrossingPiece(v, k, b, w, n - 1);
    if c == n - 1 {
      SeparatorCellsLength(v, k, b, w, n - 1, |b.l|);
      ShowsFirst(piece, "");
      assert piece + "" == piece;
      ShowsBehind(before, piece, 0, piece);
    } else {
      CellsShow(v, k, b, w, n - 1, c);
      ShowsInside("", before, piece, CrossingAt(b, w, c), CrossingPiece(v, k, b, w, c));
      assert "" + before + piece == before + piece;
    }
  }

  /** A separator: left margin and end, the line over each column behind its crossing, right end and margin. */
  lemma SeparatorPicture(v: View, k: nat, w: seq<nat>, b: SepBorder)
    requires |w| > 0 && SeparatorStrings(v, k, b) && OneByte(b)
    ensures var line, end := SeparatorLine(v, k, w), v.left + CrossingAt(b, w, |w|);
      && Shows(line, 0, Spaces(v.left))
      && (forall c: nat :: c < |w| ==> Shows(line, v.left + CrossingAt(b, w, c), CrossingPiece(v, k, b, w, c)))
      && Shows(line, end, b.r + Spaces(v.right) + "\n") && |line| == end + |b.r| + v.right + 1
  {
    StringsOfSeparator(v, k);
    SeparatorCellsLength(v, k, b, w, |w|, |b.l|);
    var cells, back := SeparatorCells(v, k, b, w, |w|), b.r + Spaces(v.right) + "\n";
    SeparatorParts(v, k, w, b);
    assert |cells| == CrossingAt(b, w, |w|) && |back| == |b.r| + v.right + 1;
    hide SeparatorCells, SeparatorLine, SeparatorBorder, SeparatorStrings, CrossingPiece, Shows, CrossingAt, Spaces;
    ShowsEnds(Spaces(v.left), cells, back);
    forall c: nat | c < |w|
      ensures Shows(SeparatorLine(v, k, w), v.left + CrossingAt(b, w, c), CrossingPiece(v, k, b, w, c))
    {
      CellsShow(v, k, b, w, |w|, c);
      ShowsInside(Spaces(v.left), cells, back, CrossingAt(b, w, c), CrossingPiece(v, k, b, w, c));
    }
  }

  lemma SeparatorParts(v: View, k: nat, w: seq<nat>, b: SepBorder)
    requires b == SeparatorBorder(v, k)
    ensures SeparatorLine(v, k, w)
            == Spaces(v.left) + SeparatorCells(v, k, b, w, |w|) + (b.r + Spaces(v.right) + "\n")
  {
    hide SeparatorCells, SeparatorBorder, Spaces;
    var cells := SeparatorCells(v, k, b, w, |w|);
    assert SeparatorLine(v, k, w) == Spaces(v.left) + cells + b.r + Spaces(v.right) + "\n";
  }
}
