/** The table as the geometry and the renderer see it: rows of cells, the separator flags, the
    resolved cell properties and the border strings. */
module FortModel {
  import opened Sequences
  import opened FortText

  const FT_SUCCESS := 0
  const FT_EINVAL := -2

  datatype CellType = Common | Master | Slave

  /** `id` stands for the identity of the allocated f_cell; the other two are its fields. */
  datatype Cell = Cell(id: nat, text: string, kind: CellType)

  type Row = seq<Cell>

  datatype Align = AlignLeft | AlignCenter | AlignRight

  /** The escape sequences put around a cell and around its content; all empty without colours and styles. */
  datatype Tags = Tags(cell: string, resetCell: string, content: string, resetContent: string) {
    function Length(): nat {
      |cell| + |resetCell| + |content| + |resetContent|
    }
  }

  datatype CellProps = CellProps(
    minWidth: nat, align: Align,
    padTop: nat, padBottom: nat, padLeft: nat, padRight: nat,
    emptyHeight: nat, tags: Tags)

  /** border_chars and header_border_chars, named by f_border_item_pos. */
  datatype Borders = Borders(
    tl: string, tt: string, tv: string, tr: string,
    ll: string, iv: string, rr: string,
    lh: string, ih: string, ii: string, rh: string,
    bl: string, bb: string, bv: string, br: string,
    li: string, ti: string, ri: string, bi: string)
  {
    function Strings(): seq<string> {
      [tl, tt, tv, tr, ll, iv, rr, lh, ih, ii, rh, bl, bb, bv, br, li, ti, ri, bi]
    }
  }

  /** separator_chars, named by f_separator_item_pos. */
  datatype SeparatorChars = SeparatorChars(lh: string, ih: string, ii: string, rh: string, ti: string, bi: string) {
    function Strings(): seq<string> {
      [lh, ih, ii, rh, ti, bi]
    }
  }

  datatype Style = Style(border: Borders, header: Borders, separator: SeparatorChars)

  /** `props(row, col)` is what the property hierarchy yields for a cell, `header(row)` whether the row is
      of type FT_ROW_HEADER. */
  datatype View = View(
    rows: seq<Row>, separators: seq<bool>,
    props: (nat, nat) -> CellProps, header: nat -> bool, style: Style,
    left: nat, top: nat, right: nat, bottom: nat)

  datatype Geometry = Visible | Internal

  /** group_cell_number without the master: the slaves standing from column `c` on. */
  function SlaveRun(row: Row, c: nat): (n: nat)
    requires c <= |row|
    ensures c + n <= |row|
    ensures forall k :: c <= k < c + n ==> row[k].kind.Slave?
    decreases |row| - c
  {
    if c < |row| && row[c].kind.Slave? then 1 + SlaveRun(row, c + 1) else 0
  }

  function GroupSize(row: Row, c: nat): (n: nat)
    requires c < |row|
    ensures 1 <= n && c + n <= |row|
    ensures forall k :: c < k < c + n ==> row[k].kind.Slave?
  {
    if row[c].kind.Master? then 1 + SlaveRun(row, c + 1) else 1
  }

  function CellVisWidth(cell: Cell, p: CellProps): nat {
    Max(p.padLeft + p.padRight + TextWidth(cell.text), p.minWidth)
  }

  function HintHeight(cell: Cell, p: CellProps): nat {
    p.padTop + p.padBottom + if TextHeight(cell.text) == 0 then p.emptyHeight else TextHeight(cell.text)
  }

  function ColsUpTo(rows: seq<Row>, n: nat): nat
    requires n <= |rows|
  {
    if n == 0 then 0 else Max(ColsUpTo(rows, n - 1), |rows[n-1]|)
  }

  /** The column count of get_table_sizes. */
  function Cols(v: View): nat {
    ColsUpTo(v.rows, |v.rows|)
  }

  lemma {:induction false} RowWithinCols(rows: seq<Row>, n: nat, r: nat)
    requires r < n <= |rows|
    ensures |rows[r]| <= ColsUpTo(rows, n)
  {
    if r >= n - 1 {
    } else {
      RowWithinCols(rows, n - 1, r);
    }
  }

  /** A slave cell always continues a group: the cell before it is a master or a slave. */
  ghost predicate SpansWellFormedRow(row: Row) {
    forall c :: 0 <= c < |row| && row[c].kind.Slave? ==> c > 0 && !row[c-1].kind.Common?
  }

  ghost predicate SpansWellFormed(v: View) {
    forall r :: 0 <= r < |v.rows| ==> SpansWellFormedRow(v.rows[r])
  }

  ghost predicate NoSpans(v: View) {
    forall r, c :: 0 <= r < |v.rows| && 0 <= c < |v.rows[r]| ==> v.rows[r][c].kind.Common?
  }

  ghost predicate NoTags(v: View) {
    forall r: nat, c: nat :: v.props(r, c).tags.Length() == 0
  }
}
