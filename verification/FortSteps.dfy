/** What each editing call does to every place of a table: which cell stands there afterwards. */
module FortSteps {
  import opened Sequences
  import opened FortModel
  import opened FortVector
  import opened FortEditor
  import opened FortErase
  import opened FortTable

  function Item(row: Row, c: nat): Option<Cell> {
    if c < |row| then Some(row[c]) else None
  }

  /** The cell in row `r` and column `c`, if there is one. */
  function CellAt(grid: seq<Row>, r: nat, c: nat): Option<Cell> {
    if r < |grid| then Item(grid[r], c) else None
  }

  /** A row replaced, missing rows before it created empty. */
  lemma RowReplaced(grid: seq<Row>, r: nat, row: Row)
    ensures var g, was := PadRows(grid, r + 1)[r := row], PadRows(grid, r + 1)[r];
      && |g| == Max(|grid|, r + 1)
      && (forall c: nat :: CellAt(g, r, c) == Item(row, c)) && (forall c: nat :: CellAt(grid, r, c) == Item(was, c))
      && (forall q: nat, c: nat :: q != r ==> CellAt(g, q, c) == CellAt(grid, q, c))
  {
  }

  /** ft_write in replace mode: the text goes into the cell at the cursor, a new one if there is none. */
  lemma WriteReplaces(e: Editor, text: string)
    requires CursorInside(e)
    ensures var e' := Step(e, Replace, Op.Write(text));
      && e'.curRow == e.curRow && e'.curCol == e.curCol + 1 && |e'.grid| == Max(|e.grid|, e.curRow + 1)
      && (forall r: nat, c: nat :: r != e.curRow || c != e.curCol ==> CellAt(e'.grid, r, c) == CellAt(e.grid, r, c))
      && CellAt(e'.grid, e.curRow, e.curCol)
         == match CellAt(e.grid, e.curRow, e.curCol) {
              case Some(cell) => Some(cell.(text := text))
              case None => Some(Cell(e.nextId, text, Common))
            }
      && e'.nextId == e.nextId + (if CellAt(e.grid, e.curRow, e.curCol).Some? then 0 else 1)
      && e'.destroyed == e.destroyed
  {
    var row := PadRows(e.grid, e.curRow + 1)[e.curRow];
    RowReplaced(e.grid, e.curRow, WriteRow(row, Replace, e.curCol, text, e.nextId));
    hide PadRows;
  }

  /** The row `r`, empty if there is none. */
  function RowOf(grid: seq<Row>, r: nat): Row {
    if r < |grid| then grid[r] else []
  }

  /** One new cell for each text from column `c` on, over what stood there. */
  ghost predicate Overprinted(row': Row, row: Row, c: nat, texts: seq<string>, id: nat) {
    && (forall k: nat :: k < |texts| ==> Item(row', c + k) == Some(Cell(id + k, texts[k], Common)))
    && (forall k: nat :: k < c || c + |texts| <= k ==> Item(row', k) == Item(row, k))
  }

  /** The same in front of what stood there. */
  ghost predicate Squeezed(row': Row, row: Row, c: nat, texts: seq<string>, id: nat) {
    && (forall k: nat :: k < |texts| ==> Item(row', c + k) == Some(Cell(id + k, texts[k], Common)))
    && (forall k: nat :: k < c ==> Item(row', k) == Item(row, k))
    && (forall k: nat :: c <= k ==> Item(row', k + |texts|) == Item(row, k))
  }

  /** ft_printf: the cursor's row takes the new cells, missing rows before it are created empty, and the cursor stands
      behind them. */
  lemma PrintChanges(e: Editor, mode: Strategy, texts: seq<string>)
    requires CursorInside(e)
    ensures var e', r, row := Step(e, mode, Print(texts)), e.curRow, RowOf(e.grid, e.curRow);
      && e'.curRow == r && e'.curCol == e.curCol + |texts| && e'.nextId == e.nextId + |texts|
      && |e'.grid| == Max(|e.grid|, r + 1)
      && (forall q: nat, c: nat :: q != r ==> CellAt(e'.grid, q, c) == CellAt(e.grid, q, c))
      && (mode.Replace? ==> Overprinted(e'.grid[r], row, e.curCol, texts, e.nextId))
      && (mode.InsertMode? ==> Squeezed(e'.grid[r], row, e.curCol, texts, e.nextId))
  {
    var row, cells := PadRows(e.grid, e.curRow + 1)[e.curRow], NewCells(texts, e.nextId);
    RowReplaced(e.grid, e.curRow, PutCells(mode, row, e.curCol, cells));
    OverItems(row, e.curCol, texts, e.nextId);
    InsertItems(row, e.curCol, texts, e.nextId);
    hide PadRows, NewCells, IdBag, Gone, Item, CellAt, Overwrite, InsertAt, Overprinted, Squeezed;
  }

  lemma OverItems(row: Row, pos: nat, texts: seq<string>, id: nat)
    requires pos <= |row|
    ensures Overprinted(Overwrite(row, pos, NewCells(texts, id)), row, pos, texts, id)
  {
    OverwriteAt(row, pos, NewCells(texts, id));
    hide NewCells, Overwrite;
  }

  lemma InsertItems(row: Row, pos: nat, texts: seq<string>, id: nat)
    requires pos <= |row|
    ensures Squeezed(InsertAt(row, pos, NewCells(texts, id)), row, pos, texts, id)
  {
    InsertedAt(row, pos, NewCells(texts, id));
    hide NewCells, InsertAt;
  }

  lemma OverwriteAt<T>(cur: seq<T>, pos: nat, mv: seq<T>)
    requires pos <= |cur|
    ensures |Overwrite(cur, pos, mv)| == Max(|cur|, pos + |mv|)
    ensures forall k :: 0 <= k < |mv| ==> Overwrite(cur, pos, mv)[pos + k] == mv[k]
    ensures forall k :: 0 <= k < pos ==> Overwrite(cur, pos, mv)[k] == cur[k]
    ensures forall k :: pos + |mv| <= k < |cur| ==> Overwrite(cur, pos, mv)[k] == cur[k]
  {
  }

  lemma InsertedAt<T>(cur: seq<T>, pos: nat, mv: seq<T>)
    requires pos <= |cur|
    ensures |InsertAt(cur, pos, mv)| == |cur| + |mv|
    ensures forall k :: 0 <= k < |mv| ==> InsertAt(cur, pos, mv)[pos + k] == mv[k]
    ensures forall k :: 0 <= k < pos ==> InsertAt(cur, pos, mv)[k] == cur[k]
    ensures forall k :: pos <= k < |cur| ==> InsertAt(cur, pos, mv)[k + |mv|] == cur[k]
  {
  }

  lemma WriteInserts(e: Editor, text: string)
    requires CursorInside(e)
    ensures Step(e, InsertMode, Op.Write(text)) == Step(e, InsertMode, Print([text]))
  {
    hide PadRows;
    assert NewCells([text], e.nextId) == [Cell(e.nextId, text, Common)];
    BagOfNone();
    assert e.destroyed + multiset{} == e.destroyed;
  }

  /** ft_ln: the cursor goes to the start of the next row. In insert mode what stood behind it becomes that row, and the
      rows below move down by one; otherwise no cell moves. */
  lemma LineFeeds(e: Editor, mode: Strategy)
    requires CursorInside(e)
    ensures var e' := Step(e, mode, Op.Ln);
      && e'.curRow == e.curRow + 1 && e'.curCol == 0 && e'.nextId == e.nextId && e'.destroyed == e.destroyed
      && if mode.InsertMode? && CellAt(e.grid, e.curRow, e.curCol).Some? then
           && |e'.grid| == |e.grid| + 1
           && (forall r: nat, c: nat :: r < e.curRow ==> CellAt(e'.grid, r, c) == CellAt(e.grid, r, c))
           && (forall c: nat :: CellAt(e'.grid, e.curRow, c)
                                == if c < e.curCol then CellAt(e.grid, e.curRow, c) else None)
           && (forall c: nat :: e.curCol <= c ==>
               CellAt(e'.grid, e.curRow + 1, c - e.curCol) == CellAt(e.grid, e.curRow, c))
           && (forall r: nat, c: nat :: e.curRow < r ==> CellAt(e'.grid, r + 1, c) == CellAt(e.grid, r, c))
         else
           e'.grid == e.grid
  {
  }

  /** ft_set_cell_span: missing rows and cells are created, empty; the first cell becomes a master and the others
      slaves, whatever they were, and keep their texts; nothing else changes. */
  lemma SpanChanges(e: Editor, r: nat, c: nat, hor: nat)
    requires hor >= 2
    ensures var e', row := SpanAt(e, r, c, hor), if r < |e.grid| then e.grid[r] else [];
      && e'.curRow == e.curRow && e'.curCol == e.curCol && e'.destroyed == e.destroyed
      && |e'.grid| == Max(|e.grid|, r + 1)
      && e'.nextId == e.nextId + (if |row| < c + hor then c + hor - |row| else 0)
      && (forall q: nat, k: nat :: q != r ==> CellAt(e'.grid, q, k) == CellAt(e.grid, q, k))
      && (forall k: nat :: CellAt(e'.grid, r, k)
           == if k >= |row| && k >= c + hor then None
              else
                var cell := if k < |row| then row[k] else Cell(e.nextId + k - |row|, "", Common);
                Some(if k == c then cell.(kind := Master)
                     else if c < k < c + hor then cell.(kind := Slave)
                     else cell))
  {
    var row := PadRows(e.grid, r + 1)[r];
    RowReplaced(e.grid, r, SpanRow(row, c, hor, e.nextId));
    hide PadRows;
  }

  // ---------------------------------------------------------------- erasing and separators

  /** Columns `left` to `right` gone, what stood behind them moved up. */
  lemma ErasedCell(row: Row, left: nat, right: nat, c: nat)
    requires left <= right
    ensures Item(EraseCols(row, left, right), c) == Item(row, if c < left then c else c + right - left + 1)
  {
  }

  /** ft_add_separator: the flag of row `r` is set, those of the rows before it exist, and no other changes. */
  lemma {:induction false} SeparatorSet(seps: seq<bool>, r: nat)
    ensures |WithSeparator(seps, r)| == Max(|seps|, r + 1)
    ensures forall i: nat :: SeparatorAt(WithSeparator(seps, r), i) <==> i == r || SeparatorAt(seps, i)
    decreases r + 1 - |seps|
  {
    if |seps| > r {
    } else {
      SeparatorSet(seps + [false], r);
      forall i: nat ensures SeparatorAt(seps + [false], i) <==> SeparatorAt(seps, i) {
      }
    }
  }
}
