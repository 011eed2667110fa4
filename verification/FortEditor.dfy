/** What the table editor means: rows of cells and a cursor, in replace or insert mode. */
module FortEditor {
  import opened Sequences
  import opened FortModel
  import opened FortVector

  datatype Strategy = Replace | InsertMode

  /** `nextId` is the identity the next allocated cell will get; `destroyed` are those of the cells freed so far, as
      often as they were freed. */
  datatype Editor = Editor(grid: seq<Row>, curRow: nat, curCol: nat, nextId: nat, destroyed: multiset<nat>)

  /** A table as it is created. */
  const NEW_TABLE := Editor([], 0, 0, 0, multiset{})

  datatype Op = Write(text: string) | Print(texts: seq<string>) | Ln | Span(row: nat, col: nat, hor: nat)

  function PadRows(grid: seq<Row>, n: nat): (g: seq<Row>)
    ensures |g| == Max(|grid|, n)
    ensures forall i :: 0 <= i < |grid| ==> g[i] == grid[i]
    ensures forall i :: |grid| <= i < |g| ==> g[i] == []
    decreases n - |grid|
  {
    if |grid| >= n then grid else PadRows(grid + [[]], n)
  }

  /** The identities of cells, in their order. */
  function Ids(cells: seq<Cell>): (ids: seq<nat>)
    ensures |ids| == |cells|
    ensures forall i :: 0 <= i < |cells| ==> ids[i] == cells[i].id
  {
    if cells == [] then [] else [cells[0].id] + Ids(cells[1..])
  }

  function IdBag(cells: seq<Cell>): multiset<nat> {
    multiset(Ids(cells))
  }

  /** The `k` identities from `n` on, once each. */
  function IdRange(n: nat, k: nat): multiset<nat> {
    if k == 0 then multiset{} else IdRange(n, k - 1) + multiset{n + k - 1}
  }

  /** Fresh common cells, one for each text. */
  function NewCells(texts: seq<string>, id: nat): (cells: Row)
    ensures |cells| == |texts|
    ensures forall i :: 0 <= i < |cells| ==> cells[i] == Cell(id + i, texts[i], Common)
  {
    if texts == [] then [] else [Cell(id, texts[0], Common)] + NewCells(texts[1..], id + 1)
  }

  /** get_cell_and_create_if_not_exists: empty common cells until column `n - 1` exists. */
  function PadCells(row: Row, n: nat, id: nat): (padded: Row)
    ensures |padded| == Max(|row|, n)
    ensures forall i :: 0 <= i < |row| ==> padded[i] == row[i]
    ensures forall i :: |row| <= i < |padded| ==> padded[i] == Cell(id + i - |row|, "", Common)
    decreases n - |row|
  {
    if |row| >= n then row else PadCells(row + [Cell(id, "", Common)], n, id + 1)
  }

  function Pads(row: Row, n: nat): nat {
    if |row| >= n then 0 else n - |row|
  }

  function MarkSlaves(row: Row, from: nat, n: nat): (marked: Row)
    requires from + n <= |row|
    ensures |marked| == |row|
    ensures forall i :: 0 <= i < |row| ==> marked[i] == if from <= i < from + n then row[i].(kind := Slave) else row[i]
    decreases n
  {
    if n == 0 then row else MarkSlaves(row[from := row[from].(kind := Slave)], from + 1, n - 1)
  }

  /** row_set_cell_span. */
  function SpanRow(row: Row, col: nat, hor: nat, id: nat): (spanned: Row)
    requires hor >= 2
    ensures |spanned| == Max(|row|, col + hor)
  {
    var padded := PadCells(row, col + hor, id);
    MarkSlaves(padded[col := padded[col].(kind := Master)], col + 1, hor - 1)
  }

  /** The cursor never stands behind the end of its row. */
  ghost predicate CursorInside(e: Editor) {
    if e.curRow < |e.grid| then e.curCol <= |e.grid[e.curRow]| else e.curCol == 0
  }

  /** In replace mode a cell that exists keeps its identity and kind and takes the text; otherwise a new cell
      is put in. */
  function WriteRow(row: Row, mode: Strategy, c: nat, text: string, id: nat): Row
    requires c <= |row|
  {
    if mode.Replace? && c < |row| then row[c := row[c].(text := text)] else InsertAt(row, c, [Cell(id, text, Common)])
  }

  /** ft_write. */
  function WriteStep(e: Editor, mode: Strategy, text: string): Editor
    requires CursorInside(e)
  {
    var g := PadRows(e.grid, e.curRow + 1);
    var row := g[e.curRow];
    var next := if mode.Replace? && e.curCol < |row| then e.nextId else e.nextId + 1;
    e.(grid := g[e.curRow := WriteRow(row, mode, e.curCol, text, e.nextId)], curCol := e.curCol + 1, nextId := next)
  }

  /** `cells` put in at column `c`, over what stands there or in front of it. */
  function PutCells(mode: Strategy, row: Row, c: nat, cells: Row): Row
    requires c <= |row|
  {
    if mode.Replace? then Overwrite(row, c, cells) else InsertAt(row, c, cells)
  }

  /** The cells that PutCells pushes out of the row. */
  function Gone(mode: Strategy, row: Row, c: nat, cells: Row): Row
    requires c <= |row|
  {
    if mode.Replace? then Displaced(row, c, cells) else []
  }

  /** ft_printf: new cells over or in front of those at the cursor; what stood under them is destroyed. */
  function PrintStep(e: Editor, mode: Strategy, texts: seq<string>): Editor
    requires CursorInside(e)
  {
    var g := PadRows(e.grid, e.curRow + 1);
    var cells := NewCells(texts, e.nextId);
    var row := PutCells(mode, g[e.curRow], e.curCol, cells);
    e.(grid := g[e.curRow := row], curCol := e.curCol + |texts|, nextId := e.nextId + |texts|,
       destroyed := e.destroyed + IdBag(Gone(mode, g[e.curRow], e.curCol, cells)))
  }

  /** The tail of row `r` from column `c` on becomes a row of its own. */
  function SplitRowAt(grid: seq<Row>, r: nat, c: nat): seq<Row>
    requires r < |grid| && c <= |grid[r]|
  {
    grid[..r] + [grid[r][..c], grid[r][c..]] + grid[r+1..]
  }

  /** ft_ln: the next row; in insert mode what stands behind the cursor goes there. */
  function LnStep(e: Editor, mode: Strategy): Editor {
    var g := if mode.InsertMode? && e.curRow < |e.grid| && e.curCol < |e.grid[e.curRow]| then
               SplitRowAt(e.grid, e.curRow, e.curCol)
             else e.grid;
    e.(grid := g, curRow := e.curRow + 1, curCol := 0)
  }

  /** FT_CUR_ROW and FT_CUR_COLUMN, which are one number. */
  const CURRENT := 0xFFFF_FFFE

  /** ft_set_cell_span at an explicit row and column; a span below two columns is refused. */
  function SpanAt(e: Editor, r: nat, c: nat, hor: nat): Editor {
    if hor < 2 then e
    else
      var g := PadRows(e.grid, r + 1);
      e.(grid := g[r := SpanRow(g[r], c, hor, e.nextId)], nextId := e.nextId + Pads(g[r], c + hor))
  }

  /** The row ft_set_cell_span goes to. */
  function SpanTargetRow(e: Editor, r: nat): nat {
    if r == CURRENT then e.curRow else r
  }

  /** The column it goes to: the special value is looked for in the row, after that was replaced. */
  function SpanTargetCol(e: Editor, r: nat, c: nat): nat {
    if SpanTargetRow(e, r) == CURRENT then e.curCol else c
  }

  /** ft_set_cell_span. */
  function SpanStep(e: Editor, r: nat, c: nat, hor: nat): Editor {
    SpanAt(e, SpanTargetRow(e, r), SpanTargetCol(e, r, c), hor)
  }

  function Step(e: Editor, mode: Strategy, op: Op): Editor
    requires CursorInside(e)
  {
    match op
    case Write(text) => WriteStep(e, mode, text)
    case Print(texts) => PrintStep(e, mode, texts)
    case Ln => LnStep(e, mode)
    case Span(r, c, hor) => SpanStep(e, r, c, hor)
  }

  function Run(e: Editor, mode: Strategy, ops: seq<Op>): (e': Editor)
    requires CursorInside(e)
    ensures CursorInside(e')
    decreases |ops|
  {
    if ops == [] then e
    else
      StepKeepsCursor(e, mode, ops[0]);
      Run(Step(e, mode, ops[0]), mode, ops[1..])
  }

  lemma StepKeepsCursor(e: Editor, mode: Strategy, op: Op)
    requires CursorInside(e)
    ensures CursorInside(Step(e, mode, op))
  {
  }

  // ---------------------------------------------------------------- every cell is in one place or destroyed

  /** Every cell ever allocated either stands at one place of the table or was destroyed once; there are no others. */
  ghost predicate Accounted(e: Editor) {
    IdBag(Flatten(e.grid)) + e.destroyed == IdRange(0, e.nextId)
  }

  lemma AroundIndex<T>(s: seq<T>, r: nat)
    requires r < |s|
    ensures s == (s[..r] + [s[r]]) + s[r+1..]
  {
  }

  lemma FlattenAt(grid: seq<Row>, r: nat)
    requires r < |grid|
    ensures Flatten(grid) == Flatten(grid[..r]) + grid[r] + Flatten(grid[r+1..])
  {
    hide Flatten;
    AroundIndex(grid, r);
    FlattenSnoc(grid[..r], grid[r]);
    FlattenAppend(grid[..r] + [grid[r]], grid[r+1..]);
  }

  /** Replacing a row replaces its stretch of the flattened table. */
  lemma FlattenUpdate(grid: seq<Row>, r: nat, row: Row)
    requires r < |grid|
    ensures Flatten(grid[r := row]) == Flatten(grid[..r]) + row + Flatten(grid[r+1..])
  {
    FlattenAt(grid[r := row], r);
    assert grid[r := row][..r] == grid[..r] && grid[r := row][r+1..] == grid[r+1..];
  }

  lemma {:induction false} PadRowsFlat(grid: seq<Row>, n: nat)
    ensures Flatten(PadRows(grid, n)) == Flatten(grid)
    decreases n - |grid|
  {
    if |grid| >= n {
    } else {
      PadRowsFlat(grid + [[]], n);
      FlattenSnoc(grid, []);
      assert Flatten(grid) + [] == Flatten(grid);
    }
  }

  lemma IdsAppend(a: seq<Cell>, b: seq<Cell>)
    ensures Ids(a + b) == Ids(a) + Ids(b)
  {
    hide Ids;
  }

  lemma BagAppend(a: seq<Cell>, b: seq<Cell>)
    ensures IdBag(a + b) == IdBag(a) + IdBag(b)
  {
    hide Ids;
    IdsAppend(a, b);
  }

  lemma BagAround(front: seq<Cell>, row: seq<Cell>, back: seq<Cell>)
    ensures IdBag(front + row + back) == IdBag(front) + IdBag(row) + IdBag(back)
  {
    hide IdBag;
    BagAppend(front, row);
    BagAppend(front + row, back);
  }

  lemma RangeOfNone(n: nat)
    ensures IdRange(n, 0) == multiset{}
  {
  }

  lemma RangeSnoc(n: nat, k: nat)
    ensures IdRange(n, k + 1) == IdRange(n, k) + multiset{n + k}
  {
  }

  lemma {:induction false} RangeSplit(m: nat, n: nat, k: nat)
    ensures IdRange(m, n + k) == IdRange(m, n) + IdRange(m + n, k)
  {
    hide IdRange;
    if k == 0 {
      RangeOfNone(m + n);
      assert IdRange(m, n) + multiset{} == IdRange(m, n);
    } else {
      RangeSplit(m, n, k - 1);
      RangeSnoc(m, n + k - 1);
      RangeSnoc(m + n, k - 1);
      BagRegroup(IdRange(m, n), IdRange(m + n, k - 1), multiset{m + n + k - 1});
    }
  }

  lemma BagRegroup(a: multiset<nat>, b: multiset<nat>, c: multiset<nat>)
    ensures (a + b) + c == a + (b + c)
  {
  }

  /** Cells allocated one after the other. */
  lemma {:induction false} BagOfFresh(cells: seq<Cell>, n: nat)
    requires forall i :: 0 <= i < |cells| ==> cells[i].id == n + i
    ensures IdBag(cells) == IdRange(n, |cells|)
  {
    hide IdBag;
    if cells == [] {
      BagOfNone();
    } else {
      var k := |cells| - 1;
      BagOfFresh(cells[..k], n);
      BagAppend(cells[..k], [cells[k]]);
      BagOfOne(cells[k]);
      assert cells == cells[..k] + [cells[k]];
    }
  }

  lemma BagOfOne(cell: Cell)
    ensures IdBag([cell]) == multiset{cell.id}
  {
    assert Ids([cell]) == [cell.id];
  }

  lemma IdsOverwrite(row: Row, c: nat, cells: Row)
    requires c <= |row|
    ensures Ids(Overwrite(row, c, cells)) == Overwrite(Ids(row), c, Ids(cells))
    ensures Ids(Displaced(row, c, cells)) == Displaced(Ids(row), c, Ids(cells))
  {
    hide Ids;
  }

  /** What is put into a row and what it pushes out balance. */
  lemma PutBalances(mode: Strategy, row: Row, c: nat, cells: Row)
    requires c <= |row|
    ensures IdBag(PutCells(mode, row, c, cells)) + IdBag(Gone(mode, row, c, cells)) == IdBag(row) + IdBag(cells)
  {
    hide Ids;
    if mode.Replace? {
      hide Overwrite, Displaced;
      IdsOverwrite(row, c, cells);
      OverwriteConserves(Ids(row), c, Ids(cells));
    } else {
      hide IdBag;
      BagAround(row[..c], cells, row[c..]);
      BagAppend(row[..c], row[c..]);
      assert row == row[..c] + row[c..];
      BagOfNone();
    }
  }

  lemma BagOfNone()
    ensures IdBag([]) == multiset{}
  {
  }

  lemma SpanIds(row: Row, c: nat, hor: nat, n: nat)
    requires hor >= 2
    ensures Ids(SpanRow(row, c, hor, n)) == Ids(PadCells(row, c + hor, n))
  {
    hide Ids, PadCells, MarkSlaves;
  }

  lemma PadBalances(row: Row, cols: nat, n: nat)
    ensures IdBag(PadCells(row, cols, n)) == IdBag(row) + IdRange(n, Pads(row, cols))
  {
    hide IdBag, IdRange, PadCells;
    var padded := PadCells(row, cols, n);
    BagOfFresh(padded[|row|..], n);
    BagAppend(row, padded[|row|..]);
    assert padded == row + padded[|row|..];
  }

  lemma SpanBalances(row: Row, c: nat, hor: nat, n: nat)
    requires hor >= 2
    ensures IdBag(SpanRow(row, c, hor, n)) == IdBag(row) + IdRange(n, Pads(row, c + hor))
  {
    hide Ids, IdRange, SpanRow, PadCells;
    SpanIds(row, c, hor, n);
    PadBalances(row, c + hor, n);
  }

  /** A row split leaves the flattened table as it was. */
  lemma SplitKeepsFlat(grid: seq<Row>, r: nat, c: nat)
    requires r < |grid| && c <= |grid[r]|
    ensures Flatten(SplitRowAt(grid, r, c)) == Flatten(grid)
  {
    var a, b, rest := grid[r][..c], grid[r][c..], grid[r+1..];
    FlattenAt(grid, r);
    FlattenAppend(grid[..r], [a, b] + rest);
    assert SplitRowAt(grid, r, c) == grid[..r] + ([a, b] + rest);
    assert ([a, b] + rest)[1..] == [b] + rest && ([b] + rest)[1..] == rest;
    assert a + b == grid[r];
    assert Flatten([a, b] + rest) == a + (b + Flatten(rest)) == grid[r] + Flatten(rest);
  }

  /** Insert-mode ft_ln leaves the sequence of cells unchanged. */
  lemma LnKeepsCells(e: Editor, mode: Strategy)
    requires CursorInside(e)
    ensures Flatten(Step(e, mode, Ln).grid) == Flatten(e.grid)
  {
    if mode.InsertMode? && e.curRow < |e.grid| && e.curCol < |e.grid[e.curRow]| {
      SplitKeepsFlat(e.grid, e.curRow, e.curCol);
    }
  }

  /** The flattened table around row `r`, once rows are padded that far. */
  lemma AroundRow(grid: seq<Row>, r: nat, row: Row)
    ensures var g := PadRows(grid, r + 1);
      && Flatten(grid) == Flatten(g[..r]) + g[r] + Flatten(g[r+1..])
      && Flatten(g[r := row]) == Flatten(g[..r]) + row + Flatten(g[r+1..])
  {
    hide Flatten;
    PadRowsFlat(grid, r + 1);
    FlattenAt(PadRows(grid, r + 1), r);
    FlattenUpdate(PadRows(grid, r + 1), r, row);
  }

  /** One row changed: the table changes by what the row does. */
  lemma RowBalances(grid: seq<Row>, r: nat, row: Row)
    ensures var g := PadRows(grid, r + 1);
      IdBag(Flatten(g[r := row])) + IdBag(g[r]) == IdBag(Flatten(grid)) + IdBag(row)
  {
    hide Flatten, IdBag;
    var g := PadRows(grid, r + 1);
    AroundRow(grid, r, row);
    BagAround(Flatten(g[..r]), g[r], Flatten(g[r+1..]));
    BagAround(Flatten(g[..r]), row, Flatten(g[r+1..]));
  }

  /** The books of a step: a row changed from `row` to `row'`, allocating `made` and destroying `gone`. */
  lemma Balanced(flat: multiset<nat>, flat': multiset<nat>, row: multiset<nat>, row': multiset<nat>,
                 made: multiset<nat>, gone: multiset<nat>, destroyed: multiset<nat>, all: multiset<nat>)
    requires flat' + row == flat + row' && row' + gone == row + made && flat + destroyed == all
    ensures flat' + (destroyed + gone) == all + made
  {
    forall x: nat ensures (flat' + (destroyed + gone))[x] == (all + made)[x] {
      assert (flat' + row)[x] == (flat + row')[x] && (row' + gone)[x] == (row + made)[x];
      assert (flat + destroyed)[x] == all[x];
    }
  }

  lemma PrintKeepsAccounted(e: Editor, mode: Strategy, texts: seq<string>)
    requires CursorInside(e) && Accounted(e)
    ensures Accounted(PrintStep(e, mode, texts))
  {
    hide IdBag, IdRange, Flatten, PutCells, Gone;
    var g, cells := PadRows(e.grid, e.curRow + 1), NewCells(texts, e.nextId);
    RowBalances(e.grid, e.curRow, PutCells(mode, g[e.curRow], e.curCol, cells));
    PutBalances(mode, g[e.curRow], e.curCol, cells);
    BagOfFresh(cells, e.nextId);
    RangeSplit(0, e.nextId, |texts|);
    var row, e' := g[e.curRow], PrintStep(e, mode, texts);
    Balanced(IdBag(Flatten(e.grid)), IdBag(Flatten(e'.grid)), IdBag(row), IdBag(e'.grid[e.curRow]), IdBag(cells),
             IdBag(Gone(mode, row, e.curCol, cells)), e.destroyed, IdRange(0, e.nextId));
  }

  lemma WriteKeepsAccounted(e: Editor, mode: Strategy, text: string)
    requires CursorInside(e) && Accounted(e)
    ensures Accounted(WriteStep(e, mode, text))
  {
    hide IdBag, IdRange, Flatten, WriteRow;
    var g := PadRows(e.grid, e.curRow + 1);
    var row := g[e.curRow];
    RowBalances(e.grid, e.curRow, WriteRow(row, mode, e.curCol, text, e.nextId));
    WriteBalances(row, mode, e.curCol, text, e.nextId);
    var e' := WriteStep(e, mode, text);
    RangeSplit(0, e.nextId, e'.nextId - e.nextId);
    Balanced(IdBag(Flatten(e.grid)), IdBag(Flatten(e'.grid)), IdBag(row), IdBag(e'.grid[e.curRow]),
             IdRange(e.nextId, e'.nextId - e.nextId), multiset{}, e.destroyed, IdRange(0, e.nextId));
  }

  lemma WriteBalances(row: Row, mode: Strategy, c: nat, text: string, id: nat)
    requires c <= |row|
    ensures IdBag(WriteRow(row, mode, c, text, id))
            == IdBag(row) + IdRange(id, if mode.Replace? && c < |row| then 0 else 1)
  {
    hide Ids;
    if mode.Replace? && c < |row| {
      assert Ids(row[c := row[c].(text := text)]) == Ids(row);
    } else {
      hide IdBag;
      BagOfNone();
      var cells := [Cell(id, text, Common)];
      PutBalances(InsertMode, row, c, cells);
      BagOfFresh(cells, id);
    }
  }

  lemma SpanKeepsAccounted(e: Editor, r: nat, c: nat, hor: nat)
    requires Accounted(e)
    ensures Accounted(SpanAt(e, r, c, hor))
  {
    hide IdBag, IdRange, Flatten, SpanRow;
    if hor >= 2 {
      var g := PadRows(e.grid, r + 1);
      RowBalances(e.grid, r, SpanRow(g[r], c, hor, e.nextId));
      SpanBalances(g[r], c, hor, e.nextId);
      RangeSplit(0, e.nextId, Pads(g[r], c + hor));
      var e' := SpanAt(e, r, c, hor);
      Balanced(IdBag(Flatten(e.grid)), IdBag(Flatten(e'.grid)), IdBag(g[r]), IdBag(e'.grid[r]),
               IdRange(e.nextId, Pads(g[r], c + hor)), multiset{}, e.destroyed, IdRange(0, e.nextId));
    }
  }

  /** No operation, in either mode, loses a cell, lets two places share one, or destroys one twice. */
  lemma StepKeepsAccounted(e: Editor, mode: Strategy, op: Op)
    requires CursorInside(e) && Accounted(e)
    ensures Accounted(Step(e, mode, op))
  {
    match op {
      case Ln => LnKeepsCells(e, mode);
      case Span(r, c, hor) => SpanKeepsAccounted(e, SpanTargetRow(e, r), SpanTargetCol(e, r, c), hor);
      case Write(text) => WriteKeepsAccounted(e, mode, text);
      case Print(texts) => PrintKeepsAccounted(e, mode, texts);
    }
  }

  /** A table starts with no cell allocated. */
  lemma NewAccounted()
    ensures Accounted(NEW_TABLE)
  {
    BagOfNone();
  }

  /** Over any run of operations every allocated cell stands at one place of the table or was destroyed once. */
  lemma {:induction false} RunKeepsAccounted(e: Editor, mode: Strategy, ops: seq<Op>)
    requires CursorInside(e) && Accounted(e)
    ensures Accounted(Run(e, mode, ops))
    decreases |ops|
  {
    hide Accounted;
    if ops == [] {
    } else {
      StepKeepsCursor(e, mode, ops[0]);
      StepKeepsAccounted(e, mode, ops[0]);
      RunKeepsAccounted(Step(e, mode, ops[0]), mode, ops[1..]);
    }
  }

  /** Spelt out: no identity occurs at two places of the table, and one occurs in the table or among the destroyed ones,
      never in both, exactly if it was allocated. */
  lemma AccountedMeans(e: Editor)
    requires Accounted(e)
    ensures var ids := Ids(Flatten(e.grid));
      && (forall i, j :: 0 <= i < j < |ids| ==> ids[i] != ids[j])
      && (forall id: nat :: id in ids <==> id < e.nextId && id !in e.destroyed)
      && (forall id :: id in e.destroyed ==> id < e.nextId && e.destroyed[id] == 1)
  {
    forall id: nat ensures multiset(Ids(Flatten(e.grid)))[id] + e.destroyed[id] == if id < e.nextId then 1 else 0 {
      AccountedCounts(e, id);
    }
    hide *;
    OncePerId(Ids(Flatten(e.grid)), e.destroyed, e.nextId);
  }

  lemma OncePerId(ids: seq<nat>, destroyed: multiset<nat>, n: nat)
    requires forall id: nat :: multiset(ids)[id] + destroyed[id] == if id < n then 1 else 0
    ensures forall i, j :: 0 <= i < j < |ids| ==> ids[i] != ids[j]
    ensures forall id: nat :: id in ids <==> id < n && id !in destroyed
    ensures forall id :: id in destroyed ==> id < n && destroyed[id] == 1
  {
    forall i, j | 0 <= i < j < |ids| ensures ids[i] != ids[j] {
      assert multiset(ids)[ids[i]] + destroyed[ids[i]] <= 1;
      TwoPlaces(ids, i, j);
    }
    forall id: nat ensures id in ids <==> id < n && id !in destroyed {
      assert multiset(ids)[id] + destroyed[id] == if id < n then 1 else 0;
      InBag(ids, id);
    }
  }

  lemma InBag(ids: seq<nat>, id: nat)
    ensures id in ids <==> multiset(ids)[id] > 0
  {
    assert id in ids <==> id in multiset(ids);
  }

  lemma AccountedCounts(e: Editor, id: nat)
    requires Accounted(e)
    ensures multiset(Ids(Flatten(e.grid)))[id] + e.destroyed[id] == if id < e.nextId then 1 else 0
  {
    RangeCounts(0, e.nextId, id);
    hide Flatten, Ids, IdRange;
  }

  lemma {:induction false} RangeCounts(n: nat, k: nat, id: nat)
    ensures IdRange(n, k)[id] == if n <= id < n + k then 1 else 0
  {
    if k == 0 {
    } else {
      RangeCounts(n, k - 1, id);
    }
  }

  lemma TwoPlaces(ids: seq<nat>, i: nat, j: nat)
    requires i < j < |ids|
    ensures ids[i] == ids[j] ==> multiset(ids)[ids[i]] >= 2
  {
    var a, b, c := ids[..i], ids[i+1..j], ids[j+1..];
    assert ids == a + [ids[i]] + b + [ids[j]] + c;
  }

  /** The place of the cursor in the flattened table. */
  function Offset(e: Editor): nat
    requires CursorInside(e)
  {
    |Flatten(e.grid[..if e.curRow < |e.grid| then e.curRow else |e.grid|])| + e.curCol
  }

  /** In insert mode printing splices the new cells into the flattened table at the cursor. */
  lemma InsertSplices(e: Editor, texts: seq<string>)
    requires CursorInside(e)
    ensures var flat := Flatten(e.grid);
      && Offset(e) <= |flat|
      && Flatten(Step(e, InsertMode, Print(texts)).grid) == InsertAt(flat, Offset(e), NewCells(texts, e.nextId))
  {
    hide NewCells;
    hide Flatten;
    var g, r, c, cells := PadRows(e.grid, e.curRow + 1), e.curRow, e.curCol, NewCells(texts, e.nextId);
    AroundRow(e.grid, r, InsertAt(g[r], c, cells));
    PrefixFlat(e.grid, r);
    InsertInside(Flatten(g[..r]), g[r], Flatten(g[r+1..]), c, cells);
  }

  lemma InsertInside(front: seq<Cell>, row: Row, back: seq<Cell>, c: nat, cells: Row)
    requires c <= |row|
    ensures front + InsertAt(row, c, cells) + back == InsertAt(front + row + back, |front| + c, cells)
  {
  }

  /** Padding rows do not move the cursor in the flattened table. */
  lemma PrefixFlat(grid: seq<Row>, r: nat)
    ensures Flatten(PadRows(grid, r + 1)[..r]) == Flatten(grid[..if r < |grid| then r else |grid|])
  {
    if r < |grid| {
      assert PadRows(grid, r + 1)[..r] == grid[..r];
    } else {
      assert PadRows(grid, r + 1)[..r] == PadRows(grid, r);
      PadRowsFlat(grid, r);
      assert grid[..|grid|] == grid;
    }
  }

  // ---------------------------------------------------------------- tables built row by row

  /** Print a row, end the line, and so on: how the repository fills its tables. */
  function BuildOps(rows: seq<seq<string>>): seq<Op> {
    if rows == [] then [] else [Print(rows[0]), Ln] + BuildOps(rows[1..])
  }

  function BuiltRows(rows: seq<seq<string>>, id: nat): (grid: seq<Row>)
    ensures |grid| == |rows|
  {
    if rows == [] then [] else [NewCells(rows[0], id)] + BuiltRows(rows[1..], id + |rows[0]|)
  }

  /** At the end of the table, printing line by line appends exactly those rows, in either mode. */
  lemma {:induction false} BuildAppends(e: Editor, mode: Strategy, rows: seq<seq<string>>)
    requires e.curRow == |e.grid| && e.curCol == 0
    ensures Run(e, mode, BuildOps(rows)).grid == e.grid + BuiltRows(rows, e.nextId)
    decreases |rows|
  {
    if rows == [] {
      assert e.grid + [] == e.grid;
    } else {
      assert CursorInside(e);
      hide *;
      var e2 := e.(grid := e.grid + [NewCells(rows[0], e.nextId)], curRow := |e.grid| + 1,
                    nextId := e.nextId + |rows[0]|);
      BuildOne(e, mode, rows, e2);
      BuildAppends(e2, mode, rows[1..]);
      OneMoreRow(e.grid, rows, e.nextId);
    }
  }

  lemma BuildOne(e: Editor, mode: Strategy, rows: seq<seq<string>>, e2: Editor)
    requires e.curRow == |e.grid| && e.curCol == 0 && rows != []
    requires e2 == e.(grid := e.grid + [NewCells(rows[0], e.nextId)], curRow := |e.grid| + 1,
                         nextId := e.nextId + |rows[0]|)
    ensures Run(e, mode, BuildOps(rows)) == Run(e2, mode, BuildOps(rows[1..]))
  {
    hide Step, Run, NewCells;
    PrintAtEnd(e, mode, rows[0]);
    LnAtEnd(e2, mode, |rows[0]|);
    RunTwo(e, mode, Print(rows[0]), Ln, BuildOps(rows[1..]));
  }

  lemma OneMoreRow(grid: seq<Row>, rows: seq<seq<string>>, id: nat)
    requires rows != []
    ensures grid + BuiltRows(rows, id) == (grid + [NewCells(rows[0], id)]) + BuiltRows(rows[1..], id + |rows[0]|)
  {
  }

  lemma PadRowsByOne(grid: seq<Row>)
    ensures PadRows(grid, |grid| + 1) == grid + [[]]
  {
    assert PadRows(grid, |grid| + 1) == PadRows(grid + [[]], |grid| + 1);
  }

  lemma PutInEmpty(mode: Strategy, cells: Row)
    ensures PutCells(mode, [], 0, cells) == cells && IdBag(Gone(mode, [], 0, cells)) == multiset{}
  {
    BagOfNone();
  }

  lemma PrintAtEnd(e: Editor, mode: Strategy, texts: seq<string>)
    requires e.curRow == |e.grid| && e.curCol == 0
    ensures Step(e, mode, Print(texts))
            == e.(grid := e.grid + [NewCells(texts, e.nextId)], curCol := |texts|, nextId := e.nextId + |texts|)
  {
    hide NewCells, PadRows, PutCells, Gone, IdBag;
    PutInEmpty(mode, NewCells(texts, e.nextId));
    var cells := NewCells(texts, e.nextId);
    PadRowsByOne(e.grid);
    assert (e.grid + [[]])[|e.grid| := cells] == e.grid + [cells];
    assert e.destroyed + multiset{} == e.destroyed;
  }

  lemma LnAtEnd(e: Editor, mode: Strategy, n: nat)
    requires e.curRow == |e.grid| > 0 && e.curCol == 0 && |e.grid[|e.grid|-1]| == n
    ensures Step(e.(curRow := |e.grid| - 1, curCol := n), mode, Ln) == e
  {
  }

  lemma RunTwo(e: Editor, mode: Strategy, a: Op, b: Op, ops: seq<Op>)
    requires CursorInside(e)
    ensures CursorInside(Step(e, mode, a)) && CursorInside(Step(Step(e, mode, a), mode, b))
    ensures Run(e, mode, [a, b] + ops) == Run(Step(Step(e, mode, a), mode, b), mode, ops)
  {
    hide Step, CursorInside;
    StepKeepsCursor(e, mode, a);
    StepKeepsCursor(Step(e, mode, a), mode, b);
    assert ([a, b] + ops)[1..] == [b] + ops && ([b] + ops)[1..] == ops;
    assert Run(e, mode, [a, b] + ops) == Run(Step(e, mode, a), mode, [b] + ops);
  }

  /** A new table filled by ft_printf_ln holds exactly the printed rows. */
  lemma BuildsExactlyTheRows(mode: Strategy, rows: seq<seq<string>>)
    ensures var grid := Run(NEW_TABLE, mode, BuildOps(rows)).grid;
      |grid| == |rows| && forall r :: 0 <= r < |rows| ==> Texts(grid[r]) == rows[r]
  {
    hide Texts, NewCells, Run, BuiltRows;
    BuildAppends(NEW_TABLE, mode, rows);
    BuiltTexts(rows, 0);
    assert [] + BuiltRows(rows, 0) == BuiltRows(rows, 0);
  }

  function Texts(row: Row): seq<string> {
    seq(|row|, c requires 0 <= c < |row| => row[c].text)
  }

  lemma {:induction false} BuiltTexts(rows: seq<seq<string>>, id: nat)
    ensures forall r :: 0 <= r < |rows| ==> Texts(BuiltRows(rows, id)[r]) == rows[r]
  {
    if rows == [] {
    } else {
      BuiltTexts(rows[1..], id + |rows[0]|);
      TextsOfNew(rows[0], id);
      hide NewCells, Texts;
    }
  }

  lemma TextsOfNew(texts: seq<string>, id: nat)
    ensures Texts(NewCells(texts, id)) == texts
  {
    hide NewCells;
  }
}
