/** Where the lines of a table stand in its text, and with them the texts of all its cells. */
module FortPage {
  import opened Sequences
  import opened FortText
  import opened FortModel
  import opened FortGeometry
  import opened FortLayout
  import opened FortBounds
  import opened FortPicture

  // ---------------------------------------------------------------- which line is which

  /** How many of the first `k` separators are printed. */
  ghost function SeparatorsBefore(v: View, k: nat): nat {
    if k == 0 then 0 else SeparatorsBefore(v, k - 1) + if Shown(SeparatorBorder(v, k - 1)) then 1 else 0
  }

  /** The lines above separator `k`. */
  ghost function SeparatorTop(v: View, k: nat): nat
    requires k <= |v.rows|
  {
    v.top + SeparatorsBefore(v, k) + SumRange(RowHeights(v), 0, k)
  }

  /** The lines above row `r`. */
  ghost function RowTop(v: View, r: nat): nat
    requires r <= |v.rows|
  {
    v.top + SeparatorsBefore(v, r + 1) + SumRange(RowHeights(v), 0, r)
  }

  lemma StripsSnoc(v: View, w: seq<nat>, n: nat)
    requires |w| == Cols(v) && n < |v.rows|
    ensures Flatten(Strips(v, w, n + 1)) == Flatten(Strips(v, w, n)) + Strip(v, w, n)
  {
    hide Strip;
    assert Strips(v, w, n + 1) == Strips(v, w, n) + [Strip(v, w, n)];
    FlattenSnoc(Strips(v, w, n), Strip(v, w, n));
  }

  /** A strip is its separator, if that is printed, and the lines of its row. */
  lemma StripIs(v: View, w: seq<nat>, r: nat)
    requires |w| == Cols(v) && r < |v.rows|
    ensures |v.rows[r]| <= |w|
    ensures var seps := if Shown(SeparatorBorder(v, r)) then [SeparatorLine(v, r, w)] else [];
      Strip(v, w, r) == seps + RowLines(v, r, w, RowHeight(v, r))
  {
    RowWithinCols(v.rows, |v.rows|, r);
    ShownUnlessSkipped(SeparatorBorder(v, r));
  }

  lemma {:induction false} RowLinesAre(v: View, r: nat, w: seq<nat>, n: nat)
    requires r < |v.rows| && |v.rows[r]| <= |w|
    ensures forall i :: 0 <= i < n ==> RowLines(v, r, w, n)[i] == RowLine(v, r, i, w)
  {
    if n == 0 {
    } else {
      RowLinesAre(v, r, w, n - 1);
    }
  }

  lemma OneMoreStrip(v: View, w: seq<nat>, n: nat)
    requires |w| == Cols(v) && n < |v.rows|
    ensures |Strip(v, w, n)| == (if Shown(SeparatorBorder(v, n)) then 1 else 0) + RowHeight(v, n)
    ensures SumRange(RowHeights(v), 0, n + 1) == SumRange(RowHeights(v), 0, n) + RowHeight(v, n)
    ensures SeparatorsBefore(v, n + 1) == SeparatorsBefore(v, n) + if Shown(SeparatorBorder(v, n)) then 1 else 0
  {
    StripIs(v, w, n);
    hide Strip, Shown, SeparatorBorder, SeparatorLine, RowHeight, Strips, RowLines;
  }

  lemma {:induction false} BodySize(v: View, w: seq<nat>, n: nat)
    requires |w| == Cols(v) && n <= |v.rows|
    ensures |Flatten(Strips(v, w, n))| == SeparatorsBefore(v, n) + SumRange(RowHeights(v), 0, n)
  {
    hide *;
    if n == 0 {
      NoStrip(v, w);
    } else {
      BodySize(v, w, n - 1);
      StripsSnoc(v, w, n - 1);
      OneMoreStrip(v, w, n - 1);
    }
  }

  lemma NoStrip(v: View, w: seq<nat>)
    requires |w| == Cols(v)
    ensures Flatten(Strips(v, w, 0)) == [] && SeparatorsBefore(v, 0) == 0 && SumRange(RowHeights(v), 0, 0) == 0
  {
    hide RowHeights;
  }

  /** Where the lines of row `r` and its separator stand in the body. */
  lemma {:induction false} BodyShows(v: View, w: seq<nat>, n: nat, r: nat)
    requires |w| == Cols(v) && r < n <= |v.rows|
    ensures var body, at := Flatten(Strips(v, w, n)), SeparatorsBefore(v, r) + SumRange(RowHeights(v), 0, r);
      at + |Strip(v, w, r)| <= |body| && body[at..at+|Strip(v, w, r)|] == Strip(v, w, r)
    decreases n
  {
    hide Strip, Strips, SumRange, Flatten, SeparatorsBefore, RowHeights;
    StripsSnoc(v, w, n - 1);
    if r == n - 1 {
      BodySize(v, w, r);
    } else {
      BodyShows(v, w, n - 1, r);
    }
  }

  lemma {:induction false} MarginsAre(width: nat, n: nat)
    requires width >= 1
    ensures forall i :: 0 <= i < n ==> MarginLines(width, n)[i] == Spaces(width - 1) + "\n"
  {
    if n == 0 {
    } else {
      MarginsAre(width, n - 1);
    }
  }

  /** The separator below the last row, if it is printed. */
  ghost function LastSeparator(v: View): seq<string> {
    if Shown(SeparatorBorder(v, |v.rows|)) then [SeparatorLine(v, |v.rows|, ColWidths(v, Visible))] else []
  }

  /** The body, the last separator and the margins around. */
  lemma RenderParts(v: View)
    ensures RenderLines(v) == MarginLines(ReservedWidth(v), v.top) + BodyLines(v, ColWidths(v, Visible))
                              + LastSeparator(v) + MarginLines(ReservedWidth(v), v.bottom)
    ensures v.top + |BodyLines(v, ColWidths(v, Visible))| == SeparatorTop(v, |v.rows|)
    ensures SeparatorTop(v, |v.rows|) + |LastSeparator(v)| == RowTop(v, |v.rows|)
  {
    ShownUnlessSkipped(SeparatorBorder(v, |v.rows|));
    BodySize(v, ColWidths(v, Visible), |v.rows|);
    hide ColWidths, ReservedWidth, Shown, SeparatorLine, Skipped, SeparatorBorder, Strips, RowHeights, SumRange;
  }

  /** Element `j` of the second of four parts, of the third, and of the two around them. */
  lemma PartAt<T>(a: seq<T>, b: seq<T>, c: seq<T>, d: seq<T>, j: nat)
    ensures j < |b| ==> (a + b + c + d)[|a| + j] == b[j]
    ensures j < |c| ==> (a + b + c + d)[|a| + |b| + j] == c[j]
    ensures j < |a| ==> (a + b + c + d)[j] == a[j]
    ensures j < |d| ==> (a + b + c + d)[|a| + |b| + |c| + j] == d[j]
  {
  }

  lemma SliceAt<T>(s: seq<T>, at: nat, part: seq<T>, j: nat)
    requires at + |part| <= |s| && s[at..at+|part|] == part && j < |part|
    ensures s[at + j] == part[j]
  {
    assert s[at..at+|part|][j] == s[at+j];
  }

  lemma StripTop(v: View, w: seq<nat>, r: nat)
    requires r <= |v.rows| && |w| == Cols(v)
    ensures SeparatorTop(v, r) == v.top + SeparatorsBefore(v, r) + SumRange(RowHeights(v), 0, r)
    ensures BodyLines(v, w) == Flatten(Strips(v, w, |v.rows|))
  {
    hide RowHeights, Strips, Cols, SumRange, SeparatorsBefore;
  }

  /** Line `j` of the strip of row `r`, in the whole text. */
  lemma StripLineAt(v: View, r: nat, j: nat)
    requires r < |v.rows| && j < |Strip(v, ColWidths(v, Visible), r)|
    ensures SeparatorTop(v, r) + j < |RenderLines(v)|
    ensures RenderLines(v)[SeparatorTop(v, r) + j] == Strip(v, ColWidths(v, Visible), r)[j]
  {
    hide *;
    var w := ColWidths(v, Visible);
    var at := SeparatorsBefore(v, r) + SumRange(RowHeights(v), 0, r);
    StripTop(v, w, r);
    RenderParts(v);
    BodyShows(v, w, |v.rows|, r);
    SliceAt(BodyLines(v, w), at, Strip(v, w, r), j);
    PartAt(MarginLines(ReservedWidth(v), v.top), BodyLines(v, w), LastSeparator(v),
           MarginLines(ReservedWidth(v), v.bottom), at + j);
  }

  /** Row `r` begins behind the top margin, the separators printed up to it and the rows above it. */
  lemma RowLineAt(v: View, r: nat, line: nat)
    requires r < |v.rows| && line < RowHeight(v, r)
    ensures |v.rows[r]| <= Cols(v) && RowTop(v, r) + line < |RenderLines(v)|
    ensures RenderLines(v)[RowTop(v, r) + line] == RowLine(v, r, line, ColWidths(v, Visible))
  {
    hide *;
    var own := OwnLine(v, ColWidths(v, Visible), r, line);
    StripLineAt(v, r, own + line);
  }

  /** In its strip a row's lines stand behind its separator. */
  lemma OwnLine(v: View, w: seq<nat>, r: nat, line: nat) returns (own: nat)
    requires r < |v.rows| && line < RowHeight(v, r) && |w| == Cols(v)
    ensures |v.rows[r]| <= |w| && RowTop(v, r) == SeparatorTop(v, r) + own && own + line < |Strip(v, w, r)|
    ensures Strip(v, w, r)[own + line] == RowLine(v, r, line, w)
  {
    hide *;
    own := if Shown(SeparatorBorder(v, r)) then 1 else 0;
    OneMoreStrip(v, w, r);
    TopOfRow(v, r);
    StripIs(v, w, r);
    RowLinesAre(v, r, w, RowHeight(v, r));
    Behind(if Shown(SeparatorBorder(v, r)) then [SeparatorLine(v, r, w)] else [], RowLines(v, r, w, RowHeight(v, r)),
           line);
  }

  lemma TopOfRow(v: View, r: nat)
    requires r < |v.rows|
    ensures RowTop(v, r) == SeparatorTop(v, r) + SeparatorsBefore(v, r + 1) - SeparatorsBefore(v, r)
  {
    hide SeparatorsBefore, SumRange, RowHeights;
  }

  lemma Behind<T>(a: seq<T>, b: seq<T>, j: nat)
    requires j < |b|
    ensures (a + b)[|a| + j] == b[j]
  {
  }

  /** Separator `k`, if it is printed, stands above row `k`, or below the last one. */
  lemma SeparatorLineAt(v: View, k: nat)
    requires k <= |v.rows| && Shown(SeparatorBorder(v, k))
    ensures SeparatorTop(v, k) < |RenderLines(v)|
    ensures RenderLines(v)[SeparatorTop(v, k)] == SeparatorLine(v, k, ColWidths(v, Visible))
  {
    hide *;
    var w := ColWidths(v, Visible);
    if k < |v.rows| {
      FirstOfStrip(v, w, k);
      StripLineAt(v, k, 0);
    } else {
      LastIs(v);
      RenderParts(v);
      PartAt(MarginLines(ReservedWidth(v), v.top), BodyLines(v, w), LastSeparator(v),
             MarginLines(ReservedWidth(v), v.bottom), 0);
    }
  }

  lemma FirstOfStrip(v: View, w: seq<nat>, k: nat)
    requires k < |v.rows| && |w| == Cols(v) && Shown(SeparatorBorder(v, k))
    ensures Strip(v, w, k) != [] && Strip(v, w, k)[0] == SeparatorLine(v, k, w)
  {
    StripIs(v, w, k);
    hide Strip, Shown, SeparatorBorder, SeparatorLine, RowLines, RowHeight;
  }

  lemma LastIs(v: View)
    requires Shown(SeparatorBorder(v, |v.rows|))
    ensures LastSeparator(v) == [SeparatorLine(v, |v.rows|, ColWidths(v, Visible))]
  {
    hide Shown, SeparatorBorder, SeparatorLine, ColWidths;
  }

  /** All that is around: blank lines above and below, and nothing else. */
  lemma MarginLinesAt(v: View, i: nat)
    ensures |RenderLines(v)| == RowTop(v, |v.rows|) + v.bottom
    ensures i < v.top ==> RenderLines(v)[i] == Spaces(ReservedWidth(v) - 1) + "\n"
    ensures i < v.bottom ==> RenderLines(v)[RowTop(v, |v.rows|) + i] == Spaces(ReservedWidth(v) - 1) + "\n"
  {
    hide *;
    RenderParts(v);
    MarginsAre(ReservedWidth(v), v.top);
    MarginsAre(ReservedWidth(v), v.bottom);
    PartAt(MarginLines(ReservedWidth(v), v.top), BodyLines(v, ColWidths(v, Visible)), LastSeparator(v),
           MarginLines(ReservedWidth(v), v.bottom), i);
  }

  // ---------------------------------------------------------------- every text, in the whole text

  lemma {:induction false} HeightCovers(v: View, r: nat, n: nat, c: nat)
    requires r < |v.rows| && c < n
    ensures CellHeight(v, r, c) <= HeightUpTo(v, r, n)
  {
    if c >= n - 1 {
    } else {
      HeightCovers(v, r, n - 1, c);
    }
  }

  /** A cell that begins a group is given the width it needs. */
  lemma CellIsGiven(v: View, r: nat, c: nat)
    requires r < |v.rows| && c < |v.rows[r]| && !SlaveCell(v.rows[r], c)
    ensures var g := GroupSize(v.rows[r], c);
      && |v.rows[r]| <= Cols(v) && c + g <= Cols(v)
      && CellVisWidth(v.rows[r][c], v.props(r, c)) <= GroupWidth(ColWidths(v, Visible), c, g)
  {
    RowWithinCols(v.rows, |v.rows|, r);
    if v.rows[r][c].kind.Master? {
      MasterCellFits(v, Visible, r, c);
    } else {
      CommonCellFits(v, Visible, r, c);
      SumOne(ColWidths(v, Visible), c);
    }
  }

  /** The bytes in front of line `y` of the text. */
  function LineStart(v: View, y: nat): nat
    requires y <= |RenderLines(v)|
  {
    |Flatten(RenderLines(v)[..y])|
  }

  lemma LineShown(v: View, y: nat)
    requires y < |RenderLines(v)|
    ensures Shows(Render(v), LineStart(v, y), RenderLines(v)[y])
  {
    hide RenderLines;
    var lines := RenderLines(v);
    assert lines == (lines[..y] + [lines[y]]) + lines[y+1..];
    FlattenSnoc(lines[..y], lines[y]);
    FlattenAppend(lines[..y] + [lines[y]], lines[y+1..]);
    ShowsEnds(Flatten(lines[..y]), lines[y], Flatten(lines[y+1..]));
    FlattenShown(Flatten(lines[..y]), lines[y], Flatten(lines[y+1..]));
  }

  lemma FlattenShown(a: string, b: string, c: string)
    ensures Shows(a + b + c, |a|, b)
  {
    assert (a + b + c)[|a|..|a|+|b|] == b;
  }

  lemma ShowsThrough(text: string, x: nat, line: string, z: nat, part: string)
    requires Shows(text, x, line) && Shows(line, z, part)
    ensures Shows(text, x + z, part)
  {
    forall i | 0 <= i < |part| ensures text[x+z+i] == part[i] {
      assert text[x..x+|line|][z+i] == line[z+i] && line[z..z+|part|][i] == part[i];
    }
  }

  /** Where the lines of a cell's text begin: behind the left padding, moved by what the width has to spare. */
  function TextAt(p: CellProps, vis: nat, longest: nat): nat
    requires p.padLeft + longest + p.padRight <= vis
  {
    p.padLeft + Shift(p.align, vis - p.padLeft - p.padRight - longest)
  }

  lemma TextInPicture(text: string, i: nat, vis: nat, longest: nat, p: CellProps)
    requires i < |SplitOn(text, '\n')| && |SplitOn(text, '\n')[i]| <= longest && p.padLeft + longest + p.padRight <= vis
    requires p.tags.Length() == 0
    ensures Shows(TextPicture(text, i, vis, longest, p), TextAt(p, vis, longest), SplitOn(text, '\n')[i])
  {
    hide SplitOn, Spaces;
    var line, x := SplitOn(text, '\n')[i], TextAt(p, vis, longest);
    FlattenShown(Spaces(x), line, Spaces(vis - x - |line|));
    assert TextPicture(text, i, vis, longest, p) == Spaces(x) + line + Spaces(vis - x - |line|);
  }

  /** Line `i` of the text of the cell, the longest line of which has `longest` bytes. */
  ghost predicate TextLineOf(v: View, r: nat, c: nat, i: nat, longest: nat, line: string) {
    && r < |v.rows| && c < |v.rows[r]| && !SlaveCell(v.rows[r], c)
    && var text := v.rows[r][c].text;
      text != "" && i < |SplitOn(text, '\n')| && line == SplitOn(text, '\n')[i] && IsLongestLine(text, longest)
  }

  /** How wide the columns of the cell's group are together. */
  function PlaceWidth(v: View, r: nat, c: nat): nat
    requires r < |v.rows| && c < |v.rows[r]| && |v.rows[r]| <= Cols(v)
  {
    GroupWidth(ColWidths(v, Visible), c, GroupSize(v.rows[r], c))
  }

  /** The cell's text fits in lines and columns. */
  ghost predicate TextFits(v: View, r: nat, c: nat, i: nat, longest: nat) {
    && r < |v.rows| && c < |v.rows[r]| && |v.rows[r]| <= Cols(v)
    && v.props(r, c).padTop + i < RowHeight(v, r)
    && v.props(r, c).padLeft + longest + v.props(r, c).padRight <= PlaceWidth(v, r, c)
  }

  lemma TextIsGiven(v: View, r: nat, c: nat, i: nat, longest: nat, line: string)
    requires TextLineOf(v, r, c, i, longest, line)
    ensures TextFits(v, r, c, i, longest) && |line| <= longest
    ensures v.props(r, c).minWidth <= PlaceWidth(v, r, c)
  {
    CellIsGiven(v, r, c);
    LongestLine(v.rows[r][c].text);
    HeightCovers(v, r, Cols(v), c);
    hide ColWidths, SplitOn, TextWidth, Cols, GroupWidth;
  }

  /** In the line of the row for line `i` of its text, the cell shows that line. */
  lemma CellTextShown(v: View, r: nat, c: nat, i: nat, longest: nat, line: string)
    requires NoTags(v) && TextLineOf(v, r, c, i, longest, line) && TextFits(v, r, c, i, longest)
    ensures var p, w := v.props(r, c), ColWidths(v, Visible);
      Shows(PlaceText(v, r, p.padTop + i, w, c), TextAt(p, PlaceWidth(v, r, c), longest), line)
  {
    TextIsGiven(v, r, c, i, longest, line);
    var cell, p, vis := v.rows[r][c], v.props(r, c), PlaceWidth(v, r, c);
    assert p.tags.Length() == 0;
    PlaceIsCell(v, r, c, p.padTop + i);
    PictureShown(cell, p, i, vis, longest, line);
    hide *;
  }

  lemma PlaceIsCell(v: View, r: nat, c: nat, line: nat)
    requires r < |v.rows| && c < |v.rows[r]| && |v.rows[r]| <= Cols(v)
    ensures PlaceText(v, r, line, ColWidths(v, Visible), c)
            == CellLine(v.rows[r][c], v.props(r, c), line, PlaceWidth(v, r, c))
  {
    hide CellLine, ColWidths, GroupWidth;
  }

  lemma PictureShown(cell: Cell, p: CellProps, i: nat, vis: nat, longest: nat, line: string)
    requires cell.text != "" && i < |SplitOn(cell.text, '\n')| && line == SplitOn(cell.text, '\n')[i]
    requires IsLongestLine(cell.text, longest) && |line| <= longest && p.tags.Length() == 0
    requires p.padLeft + longest + p.padRight <= vis && p.minWidth <= vis
    ensures Shows(CellLine(cell, p, p.padTop + i, vis), TextAt(p, vis, longest), line)
  {
    hide SplitOn, CellLine, TextPicture, BlankPicture, IsLongestLine, Shows, TextAt;
    CellPicture(cell, p, p.padTop + i, vis, longest);
    TextInPicture(cell.text, i, vis, longest, p);
  }

  lemma RowIsGiven(v: View, r: nat)
    requires SpansWellFormed(v) && r < |v.rows|
    ensures |v.rows[r]| <= Cols(v) && RowFits(v, r, ColWidths(v, Visible), 0)
  {
    RowFitsFrom(v, r, 0);
  }

  /** The line stands where its row, its column, the paddings and the alignment put it. */
  ghost predicate StandsAt(v: View, r: nat, c: nat, i: nat, longest: nat, line: string, b: Borders) {
    && TextFits(v, r, c, i, longest)
    && var p, y := v.props(r, c), RowTop(v, r) + v.props(r, c).padTop + i;
      && y < |RenderLines(v)|
      && Shows(Render(v),
               LineStart(v, y) + (ColumnAt(v, b, ColWidths(v, Visible), c) + TextAt(p, PlaceWidth(v, r, c), longest)),
               line)
  }

  /** Every line of the text of every cell stands in the rendered text: in its row, below the top padding and the lines
      before it, and in its column, aligned within the columns of its group. */
  lemma EveryLineShown(v: View, r: nat, c: nat, i: nat, longest: nat, line: string, b: Borders)
    requires NoTags(v) && SpansWellFormed(v) && TextLineOf(v, r, c, i, longest, line)
    requires BordersOf(v, r, b) && |b.iv| == 1
    ensures StandsAt(v, r, c, i, longest, line, b)
  {
    hide *;
    TextIsGiven(v, r, c, i, longest, line);
    FitsMeans(v, r, c, i, longest);
    LineInRow(v, r, c, i, longest, line, b);
    var n := v.props(r, c).padTop + i;
    RowLineAt(v, r, n);
    LineShown(v, RowTop(v, r) + n);
    var x := ColumnAt(v, b, ColWidths(v, Visible), c) + TextAt(v.props(r, c), PlaceWidth(v, r, c), longest);
    ShowsThrough(Render(v), LineStart(v, RowTop(v, r) + n), RowLine(v, r, n, ColWidths(v, Visible)), x, line);
    Concluded(v, r, c, i, longest, line, b);
  }

  lemma FitsMeans(v: View, r: nat, c: nat, i: nat, longest: nat)
    requires TextFits(v, r, c, i, longest)
    ensures r < |v.rows| && c < |v.rows[r]| && |v.rows[r]| <= Cols(v) && v.props(r, c).padTop + i < RowHeight(v, r)
    ensures v.props(r, c).padLeft + longest + v.props(r, c).padRight <= PlaceWidth(v, r, c)
  {
    hide RowHeight, Cols, PlaceWidth;
  }

  lemma Concluded(v: View, r: nat, c: nat, i: nat, longest: nat, line: string, b: Borders)
    requires TextFits(v, r, c, i, longest)
    requires var p, y := v.props(r, c), RowTop(v, r) + v.props(r, c).padTop + i;
      && y < |RenderLines(v)|
      && Shows(Render(v),
               LineStart(v, y) + (ColumnAt(v, b, ColWidths(v, Visible), c) + TextAt(p, PlaceWidth(v, r, c), longest)),
               line)
    ensures StandsAt(v, r, c, i, longest, line, b)
  {
    hide RowHeight, Cols, PlaceWidth, Shows, Render, LineStart, ColumnAt, TextAt, RenderLines, RowTop;
  }

  lemma LineMeans(v: View, r: nat, c: nat, i: nat, longest: nat, line: string)
    requires TextLineOf(v, r, c, i, longest, line)
    ensures r < |v.rows| && c < |v.rows[r]| && !SlaveCell(v.rows[r], c)
  {
    hide SplitOn, SlaveCell;
  }

  lemma LineInRow(v: View, r: nat, c: nat, i: nat, longest: nat, line: string, b: Borders)
    requires NoTags(v) && SpansWellFormed(v) && TextLineOf(v, r, c, i, longest, line) && TextFits(v, r, c, i, longest)
    requires BordersOf(v, r, b) && |b.iv| == 1
    ensures var w, p := ColWidths(v, Visible), v.props(r, c);
      Shows(RowLine(v, r, p.padTop + i, w), ColumnAt(v, b, w, c) + TextAt(p, PlaceWidth(v, r, c), longest), line)
  {
    hide *;
    var w, p := ColWidths(v, Visible), v.props(r, c);
    LineMeans(v, r, c, i, longest, line);
    FitsMeans(v, r, c, i, longest);
    RowIsGiven(v, r);
    CellTextShown(v, r, c, i, longest, line);
    ColumnShown(v, r, p.padTop + i, w, b, c);
    FirstOfColumn(v, r, p.padTop + i, w, b, c);
    ShowsThrough(RowLine(v, r, p.padTop + i, w), ColumnAt(v, b, w, c), PlaceText(v, r, p.padTop + i, w, c),
                 TextAt(p, PlaceWidth(v, r, c), longest), line);
  }

  lemma FirstOfColumn(v: View, r: nat, line: nat, w: seq<nat>, b: Borders, c: nat)
    requires r < |v.rows| && |v.rows[r]| <= |w| && c < |w|
    requires Shows(RowLine(v, r, line, w), ColumnAt(v, b, w, c), ColumnText(v, r, line, w, b, c))
    ensures Shows(RowLine(v, r, line, w), ColumnAt(v, b, w, c), PlaceText(v, r, line, w, c))
  {
    hide Shows, RowLine, PlaceText, ColumnAt;
    ShowsPart(RowLine(v, r, line, w), ColumnAt(v, b, w, c), PlaceText(v, r, line, w, c),
              if c + StepSize(v.rows[r], c) < |w| then b.iv else "");
  }

  /** Where all lines have one length, the lines begin at its multiples. */
  lemma LinesBegin(v: View, a: nat, b: nat, y: nat)
    requires Cols(v) > 0 && NoTags(v) && SpansWellFormed(v) && UniformView(v, a, b)
    requires y <= RowTop(v, |v.rows|) <= |RenderLines(v)|
    requires v.top == 0 || ReservedWidth(v) == LineWidth(v, ColWidths(v, Visible), a, b)
    ensures LineStart(v, y) == y * LineWidth(v, ColWidths(v, Visible), a, b)
  {
    var w, width := ColWidths(v, Visible), LineWidth(v, ColWidths(v, Visible), a, b);
    Rectangular(v, a, b);
    RenderParts(v);
    var top := MarginLines(ReservedWidth(v), v.top);
    assert AllOfLength(top, ReservedWidth(v));
    FirstLines(v, y, top);
    hide *;
    AllTogether(top, BodyLines(v, w) + LastSeparator(v), ReservedWidth(v), width);
    PrefixOfLength((top + (BodyLines(v, w) + LastSeparator(v)))[..y], width);
  }

  lemma FirstLines(v: View, y: nat, top: seq<string>)
    requires top == MarginLines(ReservedWidth(v), v.top) && y <= RowTop(v, |v.rows|) <= |RenderLines(v)|
    ensures y <= |top + (BodyLines(v, ColWidths(v, Visible)) + LastSeparator(v))|
    ensures RenderLines(v)[..y] == (top + (BodyLines(v, ColWidths(v, Visible)) + LastSeparator(v)))[..y]
    ensures BodyLines(v, ColWidths(v, Visible)) + LastSeparator(v)
            == BodyLines(v, ColWidths(v, Visible)) + SeparatorLines(v, |v.rows|, ColWidths(v, Visible))
  {
    LastIsSeparator(v);
    hide *;
    RenderParts(v);
    PrefixOfFour(top, BodyLines(v, ColWidths(v, Visible)), LastSeparator(v), MarginLines(ReservedWidth(v), v.bottom),
                 y);
    assert |top| == v.top;
  }

  lemma LastIsSeparator(v: View)
    ensures LastSeparator(v) == SeparatorLines(v, |v.rows|, ColWidths(v, Visible))
  {
    ShownUnlessSkipped(SeparatorBorder(v, |v.rows|));
    hide ColWidths, SeparatorLine, SeparatorBorder, Skipped, Shown;
  }

  lemma PrefixOfFour<T>(a: seq<T>, b: seq<T>, c: seq<T>, d: seq<T>, y: nat)
    requires y <= |a| + |b| + |c|
    ensures (a + b + c + d)[..y] == (a + (b + c))[..y]
  {
  }

  lemma AllTogether(a: seq<string>, b: seq<string>, m: nat, n: nat)
    requires AllOfLength(a, m) && AllOfLength(b, n) && (a == [] || m == n)
    ensures AllOfLength(a + b, n)
    ensures forall y: nat :: y <= |a + b| ==> AllOfLength((a + b)[..y], n)
  {
  }

  lemma {:induction false} PrefixOfLength(lines: seq<string>, width: nat)
    requires AllOfLength(lines, width)
    ensures |Flatten(lines)| == |lines| * width
  {
    if lines == [] {
    } else {
      PrefixOfLength(lines[1..], width);
      assert |lines| * width == (|lines| - 1) * width + width;
    }
  }
}
