/** The text a table renders to, line by line, and what is true of its lines: how long they are, and
    that the size reserved in advance always suffices. */
module FortLayout {
  import opened Sequences
  import opened FortText
  import opened FortModel
  import opened FortGeometry

  function Spaces(n: nat): (r: string)
    ensures |r| == n
  {
    if n == 0 then "" else " " + Spaces(n - 1)
  }

  // ---------------------------------------------------------------- cells and rows

  function LeftFill(slack: nat, align: Align): (left: nat)
    ensures left <= slack
  {
    match align
    case AlignLeft => 0
    case AlignCenter => slack / 2
    case AlignRight => slack
  }

  function BufferLine(text: string, line: nat, vis: nat, p: CellProps): string
    requires line < |Lines(text)| && TextWidth(text) <= vis
  {
    LongestIsMaximum(Lines(text));
    var slack := vis - TextWidth(text);
    var piece := Lines(text)[line];
    var left := LeftFill(slack, p.align);
    Spaces(left) + p.tags.content + piece + p.tags.resetContent
      + Spaces(TextWidth(text) - |piece|) + Spaces(slack - left)
  }

  /** Whether line `line` of the cell is padding rather than text. */
  predicate BlankLine(cell: Cell, p: CellProps, line: nat) {
    line >= HintHeight(cell, p) || line < p.padTop || line >= p.padTop + TextHeight(cell.text)
  }

  /** A padding line: the three tags in front have nothing between them. */
  function BlankText(vis: nat, tags: Tags): string {
    tags.cell + tags.content + tags.resetContent + Spaces(vis) + tags.resetCell
  }

  /** A line of text; `inner` is the width without the side paddings. */
  function TextLine(text: string, line: nat, inner: nat, p: CellProps): string
    requires line < |Lines(text)| && TextWidth(text) <= inner
  {
    p.tags.cell + Spaces(p.padLeft) + BufferLine(text, line, inner, p) + Spaces(p.padRight) + p.tags.resetCell
  }

  /** What cell_printf writes; nothing when it refuses the width. */
  function CellLine(cell: Cell, p: CellProps, line: nat, vis: nat): string {
    if vis < CellVisWidth(cell, p) then ""
    else if BlankLine(cell, p, line) then BlankText(vis, p.tags)
    else TextLine(cell.text, line - p.padTop, vis - p.padLeft - p.padRight, p)
  }

  /** A printed cell line is exactly as wide as asked, under every alignment. */
  lemma CellLineLength(cell: Cell, p: CellProps, line: nat, vis: nat)
    ensures CellVisWidth(cell, p) <= vis ==> |CellLine(cell, p, line, vis)| == vis + p.tags.Length()
    ensures |CellLine(cell, p, line, vis)| <= vis + p.tags.Length()
  {
  }

  /** The columns one printed cell takes. */
  function StepSize(row: Row, j: nat): (g: nat)
    ensures 1 <= g && (j < |row| ==> j + g <= |row|)
  {
    if j < |row| then GroupSize(row, j) else 1
  }

  /** The cell printed at column `j` of row `r`, or the spaces standing for a missing one. */
  function HeadCell(v: View, r: nat, line: nat, w: seq<nat>, j: nat): string
    requires r < |v.rows| && |v.rows[r]| <= |w| && j < |w|
  {
    if j < |v.rows[r]| then
      CellLine(v.rows[r][j], v.props(r, j), line, GroupWidth(w, j, GroupSize(v.rows[r], j)))
    else Spaces(w[j])
  }

  function Heads(v: View, r: nat, line: nat, w: seq<nat>): (heads: seq<string>)
    requires r < |v.rows| && |v.rows[r]| <= |w|
    ensures |heads| == |w|
  {
    seq(|w|, j requires 0 <= j < |w| => HeadCell(v, r, line, w, j))
  }

  function Steps(row: Row, n: nat): (steps: seq<nat>)
    requires |row| <= n
    ensures |steps| == n && StepsInside(steps)
  {
    seq(n, j requires 0 <= j < n => StepSize(row, j))
  }

  ghost predicate StepsInside(steps: seq<nat>) {
    forall k :: 0 <= k < |steps| ==> 1 <= steps[k] && k + steps[k] <= |steps|
  }

  /** The pieces reached from column `j` on, each step away from the one before, with `border` between them. */
  function Walk(heads: seq<string>, steps: seq<nat>, border: string, j: nat): string
    requires |heads| == |steps| && StepsInside(steps) && j <= |heads|
    decreases |heads| - j
  {
    if j == |heads| then ""
    else
      var next := j + steps[j];
      heads[j] + (if next < |heads| then border else "") + Walk(heads, steps, border, next)
  }

  /** The cells of one text line of row `r`. */
  function RowCells(v: View, r: nat, line: nat, w: seq<nat>): string
    requires r < |v.rows| && |v.rows[r]| <= |w|
  {
    Walk(Heads(v, r, line, w), Steps(v.rows[r], |w|), RowBorders(v, r).iv, 0)
  }

  function RowBorders(v: View, r: nat): Borders {
    if v.header(r) then v.style.header else v.style.border
  }

  function RowLine(v: View, r: nat, line: nat, w: seq<nat>): string
    requires r < |v.rows| && |v.rows[r]| <= |w|
  {
    Spaces(v.left) + RowBorders(v, r).ll + RowCells(v, r, line, w)
      + RowBorders(v, r).rr + Spaces(v.right) + "\n"
  }

  function RowLines(v: View, r: nat, w: seq<nat>, n: nat): (lines: seq<string>)
    requires r < |v.rows| && |v.rows[r]| <= |w|
    ensures |lines| == n
  {
    if n == 0 then [] else RowLines(v, r, w, n - 1) + [RowLine(v, r, n - 1, w)]
  }

  predicate HeadFits(v: View, r: nat, w: seq<nat>, j: nat)
    requires r < |v.rows| && |v.rows[r]| <= |w| && j < |v.rows[r]|
  {
    CellVisWidth(v.rows[r][j], v.props(r, j)) <= GroupWidth(w, j, GroupSize(v.rows[r], j))
  }

  /** Every cell printed from column `j` on is given the width it needs. */
  predicate RowFits(v: View, r: nat, w: seq<nat>, j: nat)
    requires r < |v.rows| && |v.rows[r]| <= |w|
    decreases |v.rows[r]| - j
  {
    j >= |v.rows[r]| ||
    (HeadFits(v, r, w, j) && RowFits(v, r, w, j + GroupSize(v.rows[r], j)))
  }

  // ---------------------------------------------------------------- separators

  datatype SepBorder = SepBorder(l: string, i: string, iv: string, r: string, it: string, ib: string, ii: string)

  /** The strings of the separator above row `k`; `k == |v.rows|` is the bottom one. */
  function SeparatorBorder(v: View, k: nat): SepBorder {
    var n := |v.rows|;
    var chars := if (k > 0 && v.header(k - 1)) || (k < n && v.header(k)) then v.style.header else v.style.border;
    if k < |v.separators| && v.separators[k] then
      var s := v.style.separator;
      var l := if k >= n then chars.bl else if k == 0 then chars.tl else s.lh;
      var r := if k >= n then chars.br else if k == 0 then chars.tr else s.rh;
      SepBorder(l, s.ih, s.ii, r, s.ti, s.bi, s.ih)
    else if k == 0 then SepBorder(chars.tl, chars.tt, chars.tv, chars.tr, chars.tv, chars.tv, chars.tt)
    else if k < n then SepBorder(chars.lh, chars.ih, chars.ii, chars.rh, chars.ti, chars.bi, chars.ih)
    else SepBorder(chars.bl, chars.bb, chars.bv, chars.br, chars.bv, chars.bv, chars.bb)
  }

  predicate IsPrint(c: char) {
    ' ' <= c <= '~'
  }

  predicate Unprintable(s: string) {
    |s| == 0 || (|s| == 1 && !IsPrint(s[0]))
  }

  /** A separator none of whose main strings can be printed is left out altogether. */
  predicate Skipped(b: SepBorder) {
    Unprintable(b.l) && Unprintable(b.i) && Unprintable(b.iv) && Unprintable(b.r)
  }

  /** The kind of the cell at column `c` of row `r` as a separator sees it: outside the table all are slaves. */
  function KindAt(v: View, r: int, c: nat): CellType {
    if r < 0 || r >= |v.rows| then Slave
    else if c < |v.rows[r]| then v.rows[r][c].kind
    else Common
  }

  function JunctionFor(b: SepBorder, c: nat, top: CellType, bottom: CellType): string {
    if c == 0 then b.l
    else if !top.Slave? && !bottom.Slave? then b.iv
    else if top.Slave? && bottom.Slave? then b.ii
    else if top.Slave? then b.it
    else b.ib
  }

  /** The string in front of column `c` of separator `k`. */
  function Junction(v: View, k: nat, b: SepBorder, c: nat): string {
    JunctionFor(b, c, KindAt(v, k - 1, c), KindAt(v, k, c))
  }

  function SeparatorCells(v: View, k: nat, b: SepBorder, w: seq<nat>, n: nat): string
    requires n <= |w|
  {
    if n == 0 then ""
    else SeparatorCells(v, k, b, w, n - 1) + Junction(v, k, b, n - 1) + Repeat(b.i, w[n-1])
  }

  function SeparatorLine(v: View, k: nat, w: seq<nat>): string {
    var b := SeparatorBorder(v, k);
    Spaces(v.left) + SeparatorCells(v, k, b, w, |w|) + b.r + Spaces(v.right) + "\n"
  }

  function SeparatorLines(v: View, k: nat, w: seq<nat>): (lines: seq<string>)
    ensures |lines| <= 1
  {
    if Skipped(SeparatorBorder(v, k)) then [] else [SeparatorLine(v, k, w)]
  }

  // ---------------------------------------------------------------- the whole table

  function MarginLines(width: nat, n: nat): (lines: seq<string>)
    requires width >= 1
    ensures |lines| == n
    ensures forall i :: 0 <= i < n ==> |lines[i]| == width
  {
    if n == 0 then [] else MarginLines(width, n - 1) + [Spaces(width - 1) + "\n"]
  }

  /** One row with the separator above it. */
  function Strip(v: View, w: seq<nat>, r: nat): seq<string>
    requires |w| == Cols(v) && r < |v.rows|
  {
    RowWithinCols(v.rows, |v.rows|, r);
    SeparatorLines(v, r, w) + RowLines(v, r, w, RowHeight(v, r))
  }

  function Strips(v: View, w: seq<nat>, n: nat): (strips: seq<seq<string>>)
    requires |w| == Cols(v) && n <= |v.rows|
    ensures |strips| == n
  {
    seq(n, r requires 0 <= r < n => Strip(v, w, r))
  }

  function BodyLines(v: View, w: seq<nat>): seq<string>
    requires |w| == Cols(v)
  {
    Flatten(Strips(v, w, |v.rows|))
  }

  function MaxBorder(style: Style): (m: nat)
    ensures m >= 1
  {
    Max(1, Max(LongestOf(style.border.Strings()),
      Max(LongestOf(style.header.Strings()), LongestOf(style.separator.Strings()))))
  }

  function Total(w: seq<nat>): nat {
    SumRange(w, 0, |w|)
  }

  function AtLeastOne(n: nat): (m: nat)
    ensures m >= 1
  {
    if n == 0 then 1 else n
  }

  /** The bytes of a line if every border string took one byte, new line included. */
  function ReservedColumns(v: View): (n: nat)
    ensures n >= 3
  {
    1 + AtLeastOne(Cols(v)) + 1 + Total(ColWidths(v, Internal)) + v.left + v.right
  }

  /** table_geometry: the width in bytes reserved for every line. */
  function ReservedWidth(v: View): (w: nat)
    ensures w >= 3
  {
    TimesSum(MaxBorder(v.style), ReservedColumns(v), 0);
    Times(MaxBorder(v.style), ReservedColumns(v))
  }

  /** table_geometry: the number of lines reserved. */
  function ReservedHeight(v: View): nat {
    1 + AtLeastOne(|v.rows|) + Total(RowHeights(v)) + v.top + v.bottom
  }

  function Reserved(v: View): (n: nat)
    ensures n >= 1
  {
    Times(ReservedWidth(v), ReservedHeight(v)) + 1
  }

  function RenderLines(v: View): seq<string> {
    var w := ColWidths(v, Visible);
    MarginLines(ReservedWidth(v), v.top)
      + BodyLines(v, w) + SeparatorLines(v, |v.rows|, w)
      + MarginLines(ReservedWidth(v), v.bottom)
  }

  function Render(v: View): string {
    Flatten(RenderLines(v))
  }

  /** No printed cell is refused: the one way rendering can fail. */
  predicate Printable(v: View) {
    forall r :: 0 <= r < |v.rows| && RowHeight(v, r) > 0 ==> RowPrintable(v, r)
  }

  predicate RowPrintable(v: View, r: nat)
    requires r < |v.rows|
  {
    RowWithinCols(v.rows, |v.rows|, r);
    RowFits(v, r, ColWidths(v, Visible), 0)
  }

  // ---------------------------------------------------------------- well-formed spans are printable

  lemma {:induction false} RowFitsFrom(v: View, r: nat, j: nat)
    requires r < |v.rows| && j <= |v.rows[r]| && SpansWellFormedRow(v.rows[r])
    requires j == 0 || j == |v.rows[r]| || !v.rows[r][j].kind.Slave?
    ensures |v.rows[r]| <= Cols(v) && RowFits(v, r, ColWidths(v, Visible), j)
    decreases |v.rows[r]| - j
  {
    RowWithinCols(v.rows, |v.rows|, r);
    var row := v.rows[r];
    if j >= |row| {
    } else {
      var g := GroupSize(row, j);
      SlaveRunStops(row, j + 1);
      if row[j].kind.Master? {
        MasterCellFits(v, Visible, r, j);
      } else {
        CommonCellFits(v, Visible, r, j);
        assert SumRange(ColWidths(v, Visible), j, 1)
          == SumRange(ColWidths(v, Visible), j, 0) + ColWidths(v, Visible)[j];
      }
      RowFitsFrom(v, r, j + g);
    }
  }

  lemma {:induction false} SlaveRunStops(row: Row, c: nat)
    requires c <= |row|
    ensures c + SlaveRun(row, c) < |row| ==> !row[c + SlaveRun(row, c)].kind.Slave?
    decreases |row| - c
  {
    if c < |row| && row[c].kind.Slave? { SlaveRunStops(row, c + 1); }
  }

  /** The width solver and the row printer agree: with well-formed spans no cell is ever refused. */
  lemma WellFormedIsPrintable(v: View)
    requires SpansWellFormed(v)
    ensures Printable(v)
  {
    forall r | 0 <= r < |v.rows| && RowHeight(v, r) > 0 ensures RowPrintable(v, r) {
      RowFitsFrom(v, r, 0);
    }
  }
}
