/** Column widths and row heights (table.c inside fort.c): the width solver for spanning cells. */
module FortGeometry {
  import opened Sequences
  import opened FortText
  import opened FortModel

  // ---------------------------------------------------------------- specification

  /** What a common cell asks of its own column; nothing is asked by the other kinds or by a missing cell. */
  function CommonWidth(v: View, r: nat, c: nat): nat
    requires r < |v.rows|
  {
    if c < |v.rows[r]| && v.rows[r][c].kind.Common? then CellVisWidth(v.rows[r][c], v.props(r, c)) else 0
  }

  function VisibleBase(v: View, c: nat, n: nat): nat
    requires n <= |v.rows|
  {
    if n == 0 then 0 else Max(VisibleBase(v, c, n - 1), CommonWidth(v, n - 1, c))
  }

  function TagWidth(v: View, r: nat, c: nat): nat
    requires r < |v.rows|
  {
    if c < |v.rows[r]| then v.props(r, c).tags.Length() else 0
  }

  function TagBase(v: View, c: nat, n: nat): nat
    requires n <= |v.rows|
  {
    if n == 0 then 0 else Max(TagBase(v, c, n - 1), TagWidth(v, n - 1, c))
  }

  function BaseWidth(v: View, geom: Geometry, c: nat): nat {
    VisibleBase(v, c, |v.rows|) + if geom.Internal? then TagBase(v, c, |v.rows|) else 0
  }

  function BaseWidths(v: View, geom: Geometry): (w: seq<nat>)
    ensures |w| == Cols(v)
  {
    seq(Cols(v), c requires 0 <= c => BaseWidth(v, geom, c))
  }

  function CellHeight(v: View, r: nat, c: nat): nat
    requires r < |v.rows|
  {
    var p := v.props(r, c);
    if c < |v.rows[r]| then HintHeight(v.rows[r][c], p)
    else if p.emptyHeight > 0 then p.emptyHeight + p.padTop + p.padBottom
    else 0
  }

  function HeightUpTo(v: View, r: nat, n: nat): nat
    requires r < |v.rows|
  {
    if n == 0 then 0 else Max(HeightUpTo(v, r, n - 1), CellHeight(v, r, n - 1))
  }

  function RowHeight(v: View, r: nat): nat
    requires r < |v.rows|
  {
    HeightUpTo(v, r, Cols(v))
  }

  function RowHeights(v: View): (h: seq<nat>)
    ensures |h| == |v.rows|
  {
    seq(|v.rows|, r requires 0 <= r < |v.rows| => RowHeight(v, r))
  }

  /** The width of `g` columns from `c` on, with one byte for each inner boundary. */
  function GroupWidth(w: seq<nat>, c: nat, g: nat): nat
    requires 1 <= g && c + g <= |w|
  {
    SumRange(w, c, g) + g - 1
  }

  /** Column `k` of a group of `g` when `deficit` bytes are dealt out evenly, the remainder to the leftmost. */
  function Share(deficit: nat, g: nat, k: nat): nat
    requires 1 <= g
  {
    deficit / g + if k < deficit % g then 1 else 0
  }

  function WidenedColumn(w: seq<nat>, c: nat, g: nat, deficit: nat, k: nat): (n: nat)
    requires 1 <= g && k < |w|
    ensures w[k] <= n
  {
    if c <= k < c + g then w[k] + Share(deficit, g, k - c) else w[k]
  }

  /** A group widened to `hint`. */
  function Adjusted(w: seq<nat>, c: nat, g: nat, hint: nat): (t: seq<nat>)
    requires 1 <= g && c + g <= |w|
    ensures |t| == |w|
    ensures forall k :: 0 <= k < |w| ==> w[k] <= t[k]
  {
    var gw := GroupWidth(w, c, g);
    if gw >= hint then w
    else seq(|w|, k requires 0 <= k < |w| => WidenedColumn(w, c, g, hint - gw, k))
  }

  function HintWidth(v: View, geom: Geometry, r: nat, c: nat): nat
    requires r < |v.rows| && c < |v.rows[r]|
  {
    CellVisWidth(v.rows[r][c], v.props(r, c)) + if geom.Internal? then v.props(r, c).tags.Length() else 0
  }

  ghost predicate MasterAt(v: View, r: nat, c: nat) {
    r < |v.rows| && c < |v.rows[r]| && v.rows[r][c].kind.Master?
  }

  function AdjustCell(v: View, geom: Geometry, w: seq<nat>, c: nat, r: nat): (t: seq<nat>)
    requires |w| == Cols(v) && r < |v.rows|
    ensures |t| == |w|
    ensures forall k :: 0 <= k < |w| ==> w[k] <= t[k]
  {
    if c < |v.rows[r]| && v.rows[r][c].kind.Master? then
      RowWithinCols(v.rows, |v.rows|, r);
      Adjusted(w, c, GroupSize(v.rows[r], c), HintWidth(v, geom, r, c))
    else w
  }

  /** The masters of column `c` in the first `n` rows, adjusted top to bottom. */
  function AdjustRows(v: View, geom: Geometry, w: seq<nat>, c: nat, n: nat): (t: seq<nat>)
    requires |w| == Cols(v) && n <= |v.rows|
    ensures |t| == |w|
    ensures forall k :: 0 <= k < |w| ==> w[k] <= t[k]
  {
    if n == 0 then w else AdjustCell(v, geom, AdjustRows(v, geom, w, c, n - 1), c, n - 1)
  }

  /** The masters of the first `n` columns, adjusted column by column. */
  function AdjustCols(v: View, geom: Geometry, w: seq<nat>, n: nat): (t: seq<nat>)
    requires |w| == Cols(v) && n <= Cols(v)
    ensures |t| == |w|
    ensures forall k :: 0 <= k < |w| ==> w[k] <= t[k]
  {
    if n == 0 then w else AdjustRows(v, geom, AdjustCols(v, geom, w, n - 1), n - 1, |v.rows|)
  }

  function ColWidths(v: View, geom: Geometry): (w: seq<nat>)
    ensures |w| == Cols(v)
  {
    AdjustCols(v, geom, BaseWidths(v, geom), Cols(v))
  }

  // ---------------------------------------------------------------- what the solver promises

  /** `n` columns that gain `q` each, the first `r` of them one more. */
  lemma {:induction false} SharesSum(w: seq<nat>, t: seq<nat>, c: nat, n: nat, q: nat, r: nat)
    requires |w| == |t| && c + n <= |w|
    requires forall k :: c <= k < c + n ==> t[k] == w[k] + q + if k - c < r then 1 else 0
    ensures SumRange(t, c, n) == SumRange(w, c, n) + n * q + if n < r then n else r
  {
    if n == 0 {
    } else {
      SharesSum(w, t, c, n - 1, q, r);
      assert n * q == (n - 1) * q + q;
    }
  }

  /** An adjusted group is exactly as wide as the wider of what it was and what was asked. */
  lemma AdjustedGroupWidth(w: seq<nat>, c: nat, g: nat, hint: nat)
    requires 1 <= g && c + g <= |w|
    ensures GroupWidth(Adjusted(w, c, g, hint), c, g) == Max(GroupWidth(w, c, g), hint)
  {
    var gw := GroupWidth(w, c, g);
    if gw < hint {
      var q, r := (hint - gw) / g, (hint - gw) % g;
      SharesSum(w, Adjusted(w, c, g, hint), c, g, q, r);
      assert g * q + r == hint - gw;
    }
  }

  /** The columns of one group gain amounts that differ by at most one, never less further left;
      no other column changes. */
  lemma AdjustedEvenly(w: seq<nat>, c: nat, g: nat, hint: nat)
    requires 1 <= g && c + g <= |w|
    ensures var t := Adjusted(w, c, g, hint);
      && (forall i, j :: c <= i <= j < c + g ==> 0 <= (t[i] - w[i]) - (t[j] - w[j]) <= 1)
      && (forall k :: 0 <= k < c || c + g <= k < |w| ==> t[k] == w[k])
  {
    var gw, t := GroupWidth(w, c, g), Adjusted(w, c, g, hint);
    if gw < hint {
      forall i, j | c <= i <= j < c + g ensures 0 <= (t[i] - w[i]) - (t[j] - w[j]) <= 1 {
        assert t[i] - w[i] == Share(hint - gw, g, i - c) && t[j] - w[j] == Share(hint - gw, g, j - c);
      }
    }
  }

  lemma {:induction false} VisibleBaseCovers(v: View, c: nat, n: nat, r: nat)
    requires r < n <= |v.rows|
    ensures CommonWidth(v, r, c) <= VisibleBase(v, c, n)
  {
    if r >= n - 1 {
    } else {
      VisibleBaseCovers(v, c, n - 1, r);
    }
  }

  lemma {:induction false} TagBaseCovers(v: View, c: nat, n: nat, r: nat)
    requires r < n <= |v.rows|
    ensures TagWidth(v, r, c) <= TagBase(v, c, n)
  {
    if r >= n - 1 {
    } else {
      TagBaseCovers(v, c, n - 1, r);
    }
  }

  /** Every common cell fits its own column. */
  lemma CommonCellFits(v: View, geom: Geometry, r: nat, c: nat)
    requires r < |v.rows| && c < |v.rows[r]| && v.rows[r][c].kind.Common?
    ensures c < Cols(v) && CellVisWidth(v.rows[r][c], v.props(r, c)) <= ColWidths(v, geom)[c]
  {
    RowWithinCols(v.rows, |v.rows|, r);
    VisibleBaseCovers(v, c, |v.rows|, r);
    assert BaseWidths(v, geom)[c] == BaseWidth(v, geom, c);
  }

  /** `w` gives the group of the master at (r, c) at least the width the master asks for. */
  ghost predicate Served(v: View, geom: Geometry, w: seq<nat>, r: nat, c: nat)
    requires |w| == Cols(v) && MasterAt(v, r, c)
  {
    RowWithinCols(v.rows, |v.rows|, r);
    HintWidth(v, geom, r, c) <= GroupWidth(w, c, GroupSize(v.rows[r], c))
  }

  lemma ServedMonotone(v: View, geom: Geometry, w: seq<nat>, t: seq<nat>, r: nat, c: nat)
    requires |w| == |t| == Cols(v) && MasterAt(v, r, c) && Served(v, geom, w, r, c)
    requires forall k :: 0 <= k < |w| ==> w[k] <= t[k]
    ensures Served(v, geom, t, r, c)
  {
    RowWithinCols(v.rows, |v.rows|, r);
    SumRangeMonotone(w, t, c, GroupSize(v.rows[r], c));
  }

  /** Later rows never break what an earlier row of the same column was given. */
  lemma {:induction false} AdjustRowsServes(v: View, geom: Geometry, w: seq<nat>, c: nat, n: nat, r: nat)
    requires |w| == Cols(v) && r < n <= |v.rows| && MasterAt(v, r, c)
    ensures Served(v, geom, AdjustRows(v, geom, w, c, n), r, c)
  {
    var before := AdjustRows(v, geom, w, c, n - 1);
    if r == n - 1 {
      RowWithinCols(v.rows, |v.rows|, r);
      AdjustedGroupWidth(before, c, GroupSize(v.rows[r], c), HintWidth(v, geom, r, c));
    } else {
      AdjustRowsServes(v, geom, w, c, n - 1, r);
      ServedMonotone(v, geom, before, AdjustRows(v, geom, w, c, n), r, c);
    }
  }

  /** Later columns never break what an earlier column was given. */
  lemma {:induction false} AdjustColsServes(v: View, geom: Geometry, w: seq<nat>, n: nat, r: nat, c: nat)
    requires |w| == Cols(v) && c < n <= Cols(v) && MasterAt(v, r, c)
    ensures Served(v, geom, AdjustCols(v, geom, w, n), r, c)
  {
    var before := AdjustCols(v, geom, w, n - 1);
    if c == n - 1 {
      AdjustRowsServes(v, geom, before, c, |v.rows|, r);
    } else {
      AdjustColsServes(v, geom, w, n - 1, r, c);
      ServedMonotone(v, geom, before, AdjustCols(v, geom, w, n), r, c);
    }
  }

  /** Every master cell fits its group of columns. */
  lemma MasterCellFits(v: View, geom: Geometry, r: nat, c: nat)
    requires MasterAt(v, r, c)
    ensures var g := GroupSize(v.rows[r], c);
      c + g <= Cols(v) && HintWidth(v, geom, r, c) <= GroupWidth(ColWidths(v, geom), c, g)
  {
    RowWithinCols(v.rows, |v.rows|, r);
    AdjustColsServes(v, geom, BaseWidths(v, geom), Cols(v), r, c);
  }

  lemma {:induction false} NoMasterNoRowChange(v: View, geom: Geometry, w: seq<nat>, c: nat, n: nat)
    requires |w| == Cols(v) && n <= |v.rows|
    requires forall mr: nat, mc: nat :: !MasterAt(v, mr, mc)
    ensures AdjustRows(v, geom, w, c, n) == w
  {
    if n == 0 {
    } else {
      NoMasterNoRowChange(v, geom, w, c, n - 1);
      assert !MasterAt(v, n - 1, c);
    }
  }

  lemma {:induction false} NoMasterNoChange(v: View, geom: Geometry, w: seq<nat>, n: nat)
    requires |w| == Cols(v) && n <= Cols(v)
    requires forall mr: nat, mc: nat :: !MasterAt(v, mr, mc)
    ensures AdjustCols(v, geom, w, n) == w
  {
    if n == 0 {
    } else {
      NoMasterNoChange(v, geom, w, n - 1);
      NoMasterNoRowChange(v, geom, w, n - 1, |v.rows|);
    }
  }

  // ---------------------------------------------------------------- the code

  /** get_table_sizes: the column count. */
  method CountCols(v: View) returns (cols: nat)
    ensures cols == Cols(v)
  {
    cols := 0;
    for r := 0 to |v.rows|
      invariant cols == ColsUpTo(v.rows, r)
    {
      if |v.rows[r]| > cols { cols := |v.rows[r]|; }
    }
  }

  /** group_cell_number; a column without a cell has no group. */
  method GroupCellNumber(row: Row, c: nat) returns (n: nat)
    ensures n == if c < |row| then GroupSize(row, c) else 0
  {
    if c >= |row| { return 0; }
    if !row[c].kind.Master? { return 1; }
    var slaveCol := c + 1;
    while slaveCol < |row| && row[slaveCol].kind.Slave?
      invariant c < slaveCol <= |row|
      invariant slaveCol - c + SlaveRun(row, slaveCol) == GroupSize(row, c)
    {
      slaveCol := slaveCol + 1;
    }
    n := slaveCol - c;
  }

  lemma MultipleAtLeast(k: int, g: nat)
    requires k >= 1
    ensures k * g >= g
  {
    assert k * g == (k - 1) * g + g;
  }

  lemma QuotientUnique(g: nat, q: nat, r: nat, q': nat, r': nat)
    requires r < g && r' < g && q * g + r == q' * g + r'
    ensures q == q' && r == r'
  {
    assert (q' - q) * g == q' * g - q * g;
    assert (q - q') * g == q * g - q' * g;
    if q < q' {
      MultipleAtLeast(q' - q, g);
    } else if q > q' {
      MultipleAtLeast(q - q', g);
    }
  }

  /** The loop that adds up a group's columns and inner boundaries. */
  method MeasureGroup(w: seq<nat>, c: nat, g: nat) returns (groupWidth: nat)
    requires 1 <= g && c + g <= |w|
    ensures groupWidth == GroupWidth(w, c, g)
  {
    groupWidth := w[c];
    assert SumRange(w, c, 1) == SumRange(w, c, 0) + w[c];
    for i := c + 1 to c + g
      invariant groupWidth == SumRange(w, c, i - c) + i - c - 1
    {
      groupWidth := groupWidth + w[i] + 1;
    }
  }

  /** The round-robin loop: one byte at a time, column after column, until the group is `hint` wide. */
  method RoundRobin(a: array<nat>, c: nat, g: nat, start: nat, hint: nat) returns (ghost q: nat, ghost r: nat)
    requires 1 <= g && c + g <= a.Length && start < hint
    modifies a
    ensures r < g && hint - start == q * g + r
    ensures forall k :: 0 <= k < c || c + g <= k < a.Length ==> a[k] == old(a[k])
    ensures forall k :: c <= k < c + g ==> a[k] == old(a[k]) + q + if k - c < r then 1 else 0
  {
    var curAdjCol := c;
    var groupWidth := start;
    q, r := 0, 0;
    while groupWidth < hint
      invariant r < g && curAdjCol == c + r
      invariant groupWidth == start + q * g + r <= hint
      invariant forall k :: 0 <= k < c || c + g <= k < a.Length ==> a[k] == old(a[k])
      invariant forall k :: c <= k < c + g ==> a[k] == old(a[k]) + q + if k - c < r then 1 else 0
      decreases hint - groupWidth
    {
      a[curAdjCol] := a[curAdjCol] + 1;
      groupWidth := groupWidth + 1;
      curAdjCol := curAdjCol + 1;
      r := r + 1;
      if curAdjCol == c + g {
        curAdjCol := c;
        assert (q + 1) * g == q * g + g;
        q, r := q + 1, 0;
      }
    }
  }

  lemma DealtOut(w: seq<nat>, t: seq<nat>, c: nat, g: nat, hint: nat, q: nat, r: nat)
    requires 1 <= g && c + g <= |w| == |t| && GroupWidth(w, c, g) < hint
    requires r < g && hint - GroupWidth(w, c, g) == q * g + r
    requires forall k :: 0 <= k < c || c + g <= k < |w| ==> t[k] == w[k]
    requires forall k :: c <= k < c + g ==> t[k] == w[k] + q + if k - c < r then 1 else 0
    ensures t == Adjusted(w, c, g, hint)
  {
    var d := hint - GroupWidth(w, c, g);
    QuotientUnique(g, q, r, d / g, d % g);
    forall k | 0 <= k < |w| ensures t[k] == WidenedColumn(w, c, g, d, k) {
    }
  }

  /** The body of the adjusting loop for one master cell. */
  method AdjustGroup(a: array<nat>, c: nat, g: nat, hint: nat)
    requires 1 <= g && c + g <= a.Length
    modifies a
    ensures a[..] == Adjusted(old(a[..]), c, g, hint)
  {
    ghost var w := a[..];
    var groupWidth := MeasureGroup(a[..], c, g);
    if groupWidth < hint {
      ghost var q, r := RoundRobin(a, c, g, groupWidth, hint);
      DealtOut(w, a[..], c, g, hint, q, r);
    }
  }

  /** One step of the first double loop: what the cell at (r, c) adds to its column and to its row. */
  method MeasureCell(v: View, r: nat, c: nat, width: nat, height: nat) returns (width': nat, height': nat, master: bool)
    requires r < |v.rows|
    ensures width' == Max(width, CommonWidth(v, r, c))
    ensures height' == Max(height, CellHeight(v, r, c))
    ensures master <==> MasterAt(v, r, c)
  {
    width', height', master := width, height, false;
    var p := v.props(r, c);
    if c < |v.rows[r]| {
      var cell := v.rows[r][c];
      match cell.kind {
        case Common =>
          var textWidth := VisibleWidth(cell.text);
          width' := Max(width, Max(p.padLeft + p.padRight + textWidth, p.minWidth));
        case Master =>
          master := true;
        case Slave =>
      }
      var textHeight := VisibleHeight(cell.text);
      height' := Max(height, p.padTop + p.padBottom + if textHeight == 0 then p.emptyHeight else textHeight);
    } else if p.emptyHeight > 0 {
      height' := Max(height, p.emptyHeight + p.padTop + p.padBottom);
    }
  }

  /** One column of the first double loop: its visible width, and every row's height so far. */
  method MeasureColumn(v: View, c: nat, rowH: array<nat>) returns (width: nat, found: bool)
    requires rowH.Length == |v.rows|
    requires forall r :: 0 <= r < |v.rows| ==> rowH[r] == HeightUpTo(v, r, c)
    modifies rowH
    ensures width == VisibleBase(v, c, |v.rows|)
    ensures found <==> exists r: nat :: MasterAt(v, r, c)
    ensures forall r :: 0 <= r < |v.rows| ==> rowH[r] == HeightUpTo(v, r, c + 1)
  {
    width, found := 0, false;
    for r := 0 to |v.rows|
      invariant width == VisibleBase(v, c, r)
      invariant found <==> exists m: nat :: m < r && MasterAt(v, m, c)
      invariant forall k :: 0 <= k < r ==> rowH[k] == HeightUpTo(v, k, c + 1)
      invariant forall k :: r <= k < |v.rows| ==> rowH[k] == HeightUpTo(v, k, c)
    {
      var height, master;
      width, height, master := MeasureCell(v, r, c, width, rowH[r]);
      rowH[r] := height;
      found := found || master;
    }
  }

  /** The widest set of tags in one column. */
  method MeasureTags(v: View, c: nat) returns (width: nat)
    ensures width == TagBase(v, c, |v.rows|)
  {
    width := 0;
    for r := 0 to |v.rows|
      invariant width == TagBase(v, c, r)
    {
      if c < |v.rows[r]| { width := Max(width, v.props(r, c).tags.Length()); }
    }
  }

  /** The body of the second double loop: widen the group of one master cell. */
  method AdjustMaster(v: View, geom: Geometry, a: array<nat>, c: nat, r: nat)
    requires a.Length == Cols(v) && MasterAt(v, r, c)
    modifies a
    ensures a[..] == AdjustCell(v, geom, old(a[..]), c, r)
  {
    RowWithinCols(v.rows, |v.rows|, r);
    var p := v.props(r, c);
    var textWidth := VisibleWidth(v.rows[r][c].text);
    var hint := Max(p.padLeft + p.padRight + textWidth, p.minWidth);
    if geom.Internal? { hint := hint + p.tags.Length(); }
    var g := GroupCellNumber(v.rows[r], c);
    AdjustGroup(a, c, g, hint);
  }

  method AdjustColumn(v: View, geom: Geometry, a: array<nat>, c: nat)
    requires a.Length == Cols(v)
    modifies a
    ensures a[..] == AdjustRows(v, geom, old(a[..]), c, |v.rows|)
  {
    ghost var w := a[..];
    for r := 0 to |v.rows|
      invariant a[..] == AdjustRows(v, geom, w, c, r)
    {
      if c < |v.rows[r]| && v.rows[r][c].kind.Master? {
        AdjustMaster(v, geom, a, c, r);
      }
    }
  }

  /** The first double loop. */
  method MeasureColumns(v: View, geom: Geometry, colW: array<nat>, rowH: array<nat>) returns (combinedCellsFound: bool)
    requires colW != rowH && colW.Length == Cols(v) && rowH.Length == |v.rows|
    requires forall r :: 0 <= r < |v.rows| ==> rowH[r] == 0
    modifies colW, rowH
    ensures colW[..] == BaseWidths(v, geom)
    ensures forall r :: 0 <= r < |v.rows| ==> rowH[r] == RowHeight(v, r)
    ensures combinedCellsFound <==> exists mr: nat, mc: nat :: mc < Cols(v) && MasterAt(v, mr, mc)
  {
    combinedCellsFound := false;
    for c := 0 to colW.Length
      invariant combinedCellsFound <==> exists mr: nat, mc: nat :: mc < c && MasterAt(v, mr, mc)
      invariant forall k :: 0 <= k < c ==> colW[k] == BaseWidth(v, geom, k)
      invariant forall r :: 0 <= r < |v.rows| ==> rowH[r] == HeightUpTo(v, r, c)
    {
      var width, found := MeasureColumn(v, c, rowH);
      if geom.Internal? {
        var tagWidth := MeasureTags(v, c);
        width := width + tagWidth;
      }
      colW[c] := width;
      combinedCellsFound := combinedCellsFound || found;
    }
  }

  /** table_rows_and_cols_geometry. */
  method RowsAndColsGeometry(v: View, geom: Geometry) returns (colW: array<nat>, rowH: array<nat>)
    ensures fresh(colW) && fresh(rowH)
    ensures colW[..] == ColWidths(v, geom)
    ensures rowH.Length == |v.rows| && forall r :: 0 <= r < |v.rows| ==> rowH[r] == RowHeight(v, r)
  {
    var cols := CountCols(v);
    colW := new nat[cols](_ => 0);
    rowH := new nat[|v.rows|](_ => 0);
    hide BaseWidths, MasterAt, RowHeight, Cols;
    var combinedCellsFound := MeasureColumns(v, geom, colW, rowH);
    if combinedCellsFound {
      AdjustColumns(v, geom, colW);
    } else {
      NoMasterWidths(v, geom);
    }
  }

  /** The second double loop. */
  method AdjustColumns(v: View, geom: Geometry, a: array<nat>)
    requires a.Length == Cols(v)
    modifies a
    ensures a[..] == AdjustCols(v, geom, old(a[..]), Cols(v))
  {
    ghost var w := a[..];
    for c := 0 to a.Length
      invariant a[..] == AdjustCols(v, geom, w, c)
    {
      AdjustColumn(v, geom, a, c);
    }
  }

  lemma NoMasterWidths(v: View, geom: Geometry)
    requires !exists mr: nat, mc: nat :: mc < Cols(v) && MasterAt(v, mr, mc)
    ensures ColWidths(v, geom) == BaseWidths(v, geom)
  {
    forall mr: nat, mc: nat ensures !MasterAt(v, mr, mc) {
      if MasterAt(v, mr, mc) { RowWithinCols(v.rows, |v.rows|, mr); }
    }
    NoMasterNoChange(v, geom, BaseWidths(v, geom), Cols(v));
  }
}
