/** No column is wider and no row higher than its cells ask for, each request spelt out. */
module FortTight {
  import opened Sequences
  import opened FortText
  import opened FortModel
  import opened FortGeometry
  import opened FortLayout

  /** Line `i` of the text of the cell. */
  ghost predicate HasLine(cell: Cell, i: nat) {
    i < |SplitOn(cell.text, '\n')|
  }

  /** `n` bytes are what the cell asks for: its minimal width, or its longest line between its side paddings if that is
      more. */
  ghost predicate AsksWidth(cell: Cell, p: CellProps, n: nat) {
    && p.minWidth <= n
    && (forall i: nat :: HasLine(cell, i) ==> p.padLeft + |SplitOn(cell.text, '\n')[i]| + p.padRight <= n)
    && (n == p.minWidth
        || exists i: nat :: HasLine(cell, i) && n == p.padLeft + |SplitOn(cell.text, '\n')[i]| + p.padRight)
  }

  lemma WidthAsked(cell: Cell, p: CellProps)
    ensures AsksWidth(cell, p, CellVisWidth(cell, p))
  {
    var lines := Lines(cell.text);
    LongestIsMaximum(lines);
    var k :| 0 <= k < |lines| && |lines[k]| == LongestOf(lines);
    assert HasLine(cell, k);
  }

  /** `n` lines are what the cell asks for: those of its text, or the height of an empty text, between the paddings. */
  ghost predicate AsksHeight(cell: Cell, p: CellProps, n: nat) {
    n == p.padTop + p.padBottom + if cell.text == "" then p.emptyHeight else |SplitOn(cell.text, '\n')|
  }

  lemma HeightAsked(cell: Cell, p: CellProps)
    ensures AsksHeight(cell, p, HintHeight(cell, p))
  {
  }

  ghost predicate CommonAt(v: View, r: nat, c: nat) {
    r < |v.rows| && c < |v.rows[r]| && v.rows[r][c].kind.Common?
  }

  /** `n` is the most that any of the first `m` rows asks of column `c`. */
  ghost predicate MostAsked(v: View, c: nat, m: nat, n: nat) {
    && (forall r: nat :: r < m && CommonAt(v, r, c) ==>
        exists a: nat :: a <= n && AsksWidth(v.rows[r][c], v.props(r, c), a))
    && (n == 0 || exists r: nat :: r < m && CommonAt(v, r, c) && AsksWidth(v.rows[r][c], v.props(r, c), n))
  }

  lemma {:induction false} BaseTight(v: View, c: nat, n: nat)
    requires n <= |v.rows|
    ensures MostAsked(v, c, n, VisibleBase(v, c, n))
  {
    if n == 0 {
    } else {
      BaseTight(v, c, n - 1);
      hide AsksWidth;
      if CommonAt(v, n - 1, c) { WidthAsked(v.rows[n-1][c], v.props(n - 1, c)); }
    }
  }

  /** `n` is the most bytes of tags that any of the first `m` rows has in column `c`. */
  ghost predicate MostTags(v: View, c: nat, m: nat, n: nat) {
    && (forall r: nat :: r < m && r < |v.rows| && c < |v.rows[r]| ==> v.props(r, c).tags.Length() <= n)
    && (n == 0 || exists r: nat :: r < m && r < |v.rows| && c < |v.rows[r]| && n == v.props(r, c).tags.Length())
  }

  lemma {:induction false} TagsTight(v: View, c: nat, n: nat)
    requires n <= |v.rows|
    ensures MostTags(v, c, n, TagBase(v, c, n))
  {
    if n == 0 {
    } else {
      TagsTight(v, c, n - 1);
    }
  }

  /** Without spans a column is as wide as the most that one of its cells asks for, and the estimate adds the most
      bytes of tags that one of them has. */
  lemma ColumnsTight(v: View, c: nat)
    requires NoSpans(v) && c < Cols(v)
    ensures MostAsked(v, c, |v.rows|, ColWidths(v, Visible)[c])
    ensures ColWidths(v, Internal)[c] >= ColWidths(v, Visible)[c]
    ensures MostTags(v, c, |v.rows|, ColWidths(v, Internal)[c] - ColWidths(v, Visible)[c])
  {
    forall r: nat, k: nat ensures !MasterAt(v, r, k) {
    }
    NoMasterNoChange(v, Visible, BaseWidths(v, Visible), Cols(v));
    NoMasterNoChange(v, Internal, BaseWidths(v, Internal), Cols(v));
    BaseTight(v, c, |v.rows|);
    TagsTight(v, c, |v.rows|);
    hide MostAsked, MostTags;
  }

  /** With spans a column starts from what its common cells ask for, and is only ever widened for a spanning cell. */
  lemma BaseWidthsTight(v: View, c: nat)
    requires c < Cols(v)
    ensures MostAsked(v, c, |v.rows|, BaseWidths(v, Visible)[c])
    ensures (forall r: nat, k: nat :: !MasterAt(v, r, k)) ==> ColWidths(v, Visible) == BaseWidths(v, Visible)
  {
    BaseTight(v, c, |v.rows|);
    if forall r: nat, k: nat :: !MasterAt(v, r, k) {
      NoMasterNoChange(v, Visible, BaseWidths(v, Visible), Cols(v));
    }
    hide MostAsked;
  }

  /** What a spanning cell asks of its group is what the cell asks for, in the estimate with its tags. */
  lemma HintIsAsked(v: View, r: nat, c: nat)
    requires r < |v.rows| && c < |v.rows[r]|
    ensures AsksWidth(v.rows[r][c], v.props(r, c), HintWidth(v, Visible, r, c))
    ensures HintWidth(v, Internal, r, c) == HintWidth(v, Visible, r, c) + v.props(r, c).tags.Length()
  {
    WidthAsked(v.rows[r][c], v.props(r, c));
  }

  /** The table has the columns of its longest row. */
  lemma {:induction false} ColumnsOfLongest(rows: seq<Row>, n: nat)
    requires n <= |rows|
    ensures forall r :: 0 <= r < n ==> |rows[r]| <= ColsUpTo(rows, n)
    ensures ColsUpTo(rows, n) == 0 || exists r :: 0 <= r < n && |rows[r]| == ColsUpTo(rows, n)
  {
    if n == 0 {
    } else {
      ColumnsOfLongest(rows, n - 1);
      assert |rows[n-1]| == |rows[n-1]|;
    }
  }

  // ---------------------------------------------------------------- heights

  /** What the place asks for; a place without a cell asks for an empty text if that has a height at all. */
  ghost predicate AsksLines(v: View, r: nat, c: nat, n: nat)
    requires r < |v.rows|
  {
    var p := v.props(r, c);
    if c < |v.rows[r]| then AsksHeight(v.rows[r][c], p, n)
    else n == if p.emptyHeight == 0 then 0 else p.padTop + p.emptyHeight + p.padBottom
  }

  /** The place asks for no more than `n` lines. */
  ghost predicate AsksAtMost(v: View, r: nat, c: nat, n: nat)
    requires r < |v.rows|
  {
    exists a: nat :: a <= n && AsksLines(v, r, c, a)
  }

  lemma LinesAsked(v: View, r: nat, c: nat)
    requires r < |v.rows|
    ensures AsksLines(v, r, c, CellHeight(v, r, c))
  {
    if c < |v.rows[r]| { HeightAsked(v.rows[r][c], v.props(r, c)); }
  }

  lemma {:induction false} HeightTight(v: View, r: nat, n: nat)
    requires r < |v.rows|
    ensures forall c: nat :: c < n ==> AsksAtMost(v, r, c, HeightUpTo(v, r, n))
    ensures HeightUpTo(v, r, n) == 0 || exists c: nat :: c < n && AsksLines(v, r, c, HeightUpTo(v, r, n))
  {
    if n == 0 {
    } else {
      HeightTight(v, r, n - 1);
      LinesAsked(v, r, n - 1);
      hide AsksLines;
      forall c: nat | c < n ensures AsksAtMost(v, r, c, HeightUpTo(v, r, n)) {
        if c == n - 1 {
          assert AsksLines(v, r, c, CellHeight(v, r, c));
        } else {
          assert AsksAtMost(v, r, c, HeightUpTo(v, r, n - 1));
          var a: nat :| a <= HeightUpTo(v, r, n - 1) && AsksLines(v, r, c, a);
        }
      }
    }
  }

  /** A row is as high as the most that one of its places asks for. */
  lemma RowsTight(v: View, r: nat)
    requires r < |v.rows|
    ensures forall c: nat :: c < Cols(v) ==> AsksAtMost(v, r, c, RowHeight(v, r))
    ensures RowHeight(v, r) == 0 || exists c: nat :: c < Cols(v) && AsksLines(v, r, c, RowHeight(v, r))
  {
    HeightTight(v, r, Cols(v));
    hide AsksLines;
  }

  // ---------------------------------------------------------------- the estimate

  /** The estimate spelt out: one line for each row, separator and margin, as wide as all columns and boundaries and the
      side margins would be if every border string were as long as the longest of them. */
  lemma ReservedSpelt(v: View, longest: nat)
    requires IsLongest(v.style, longest)
    ensures var (cols, rows) := (Cols(v), |v.rows|);
      var height := 1 + (if rows == 0 then 1 else rows) + SumRange(RowHeights(v), 0, rows) + v.top + v.bottom;
      var width := longest
        * (1 + (if cols == 0 then 1 else cols) + 1 + SumRange(ColWidths(v, Internal), 0, cols) + v.left + v.right);
      Reserved(v) == width * height + 1
  {
    LongestBorder(v.style, longest);
    hide IsLongest, MaxBorder, ColWidths, RowHeights, SumRange, Cols;
    TimesIsProduct(longest, ReservedColumns(v));
    TimesIsProduct(ReservedWidth(v), ReservedHeight(v));
  }

  /** `m` is the length of the longest border string of the style, or one. */
  ghost predicate IsLongest(style: Style, m: nat) {
    var all := style.border.Strings() + style.header.Strings() + style.separator.Strings();
    && m >= 1 && (forall i :: 0 <= i < |all| ==> |all[i]| <= m)
    && (m == 1 || exists i :: 0 <= i < |all| && |all[i]| == m)
  }

  lemma LongestBorder(style: Style, m: nat)
    requires IsLongest(style, m)
    ensures MaxBorder(style) == m
  {
    var (a, b, c) := (style.border.Strings(), style.header.Strings(), style.separator.Strings());
    LongestIsMaximum(a);
    LongestIsMaximum(b);
    LongestIsMaximum(c);
    LongestJoined(a, b, c, m);
  }

  lemma LongestJoined(a: seq<string>, b: seq<string>, c: seq<string>, m: nat)
    requires a != [] && b != [] && c != []
    requires var all := a + b + c;
      && m >= 1 && (forall i :: 0 <= i < |all| ==> |all[i]| <= m)
      && (m == 1 || exists i :: 0 <= i < |all| && |all[i]| == m)
    ensures Max(1, Max(LongestOf(a), Max(LongestOf(b), LongestOf(c)))) == m
  {
    LongestIsMaximum(a);
    LongestIsMaximum(b);
    LongestIsMaximum(c);
    var all := a + b + c;
    forall i | 0 <= i < |a| ensures a[i] == all[i] {
    }
    forall i | 0 <= i < |b| ensures b[i] == all[|a| + i] {
    }
    forall i | 0 <= i < |c| ensures c[i] == all[|a| + |b| + i] {
    }
  }
}
