/** The table itself: rows, separators and the cursor, changed in place by the ft_ calls. */
module FortTable {
  import opened Sequences
  import opened FortModel
  import opened FortVector
  import opened FortEditor
  import opened FortErase
  import opened FortRow

  /** A live row and everything it owns. */
  ghost predicate RowOk(row: TableRow?, owned: set<object>)
    reads owned
  {
    row != null && row in owned && row.cells in owned && row.cells.data in owned && row.Valid()
  }

  lemma RowOkValid(row: TableRow?, owned: set<object>)
    requires RowOk(row, owned)
    ensures row != null && row.Valid()
  {
  }

  /** Two rows share neither their vector nor its buffer. */
  ghost predicate Apart(a: TableRow, b: TableRow)
    reads a, b, a.cells, b.cells
  {
    a != b && a.cells != b.cells && a.cells.data != b.cells.data
  }

  /** `items` are live rows that share nothing and hold the cells of `grid`. */
  ghost predicate RowsOk(items: seq<TableRow?>, grid: seq<Row>, owned: set<object>)
    reads owned
  {
    && |items| == |grid|
    && (forall i :: 0 <= i < |items| ==> RowOk(items[i], owned))
    && (forall i, j :: 0 <= i < j < |items| ==> Apart(items[i], items[j]))
    && (forall i :: 0 <= i < |items| ==> items[i].Cells() == grid[i])
  }

  lemma RowsOkSnoc(items: seq<TableRow?>, grid: seq<Row>, owned: set<object>, row: TableRow)
    requires RowsOk(items, grid, owned) && row.Valid()
    requires row !in owned && row.cells !in owned && row.cells.data !in owned
    ensures RowsOk(items + [row], grid + [row.Cells()], owned + {row, row.cells, row.cells.data})
  {
  }

  twostate predicate OnlyChanged(owned: set<object>, changed: set<object>)
    reads owned
  {
    forall o :: o in owned && o !in changed ==> unchanged(o)
  }

  /** A live row from elsewhere joins the others in place `at`. */
  lemma RowsOkInsert(items: seq<TableRow?>, grid: seq<Row>, owned: set<object>, at: nat, row: TableRow)
    requires RowsOk(items, grid, owned) && at <= |items| && row.Valid()
    requires row !in owned && row.cells !in owned && row.cells.data !in owned
    ensures RowsOk(InsertAt(items, at, [row]), InsertAt(grid, at, [row.Cells()]),
                   owned + {row, row.cells, row.cells.data})
  {
    var items', grid' := InsertAt(items, at, [row]), InsertAt(grid, at, [row.Cells()]);
    forall i | 0 <= i < |items'|
      ensures items'[i] == (if i < at then items[i] else if i == at then row else items[i-1])
      ensures grid'[i] == (if i < at then grid[i] else if i == at then row.Cells() else grid[i-1])
      ensures i != at ==> RowOk(items'[i], owned) && items'[i].Cells() == grid'[i]
    {
    }
    forall i, j | 0 <= i < j < |items'| ensures Apart(items'[i], items'[j]) {
      if i != at && j != at {
        assert Apart(items[if i < at then i else i - 1], items[if j < at then j else j - 1]);
      }
    }
  }

  lemma SplitAsInsert(grid: seq<Row>, r: nat, c: nat)
    requires r < |grid| && c <= |grid[r]|
    ensures SplitRowAt(grid, r, c) == InsertAt(grid[r := grid[r][..c]], r + 1, [grid[r][c..]])
  {
  }

  /** The separator flags with the one of row `r` set. */
  function WithSeparator(seps: seq<bool>, r: nat): seq<bool>
    decreases r + 1 - |seps|
  {
    if |seps| <= r then WithSeparator(seps + [false], r) else seps[r := true]
  }

  lemma RunPrintLn(e: Editor, mode: Strategy, texts: seq<string>)
    requires CursorInside(e)
    ensures CursorInside(Step(e, mode, Print(texts)))
    ensures Run(e, mode, [Print(texts), Ln]) == Step(Step(e, mode, Print(texts)), mode, Ln)
  {
    hide Step;
    RunTwo(e, mode, Print(texts), Ln, []);
    assert [Print(texts), Ln] + [] == [Print(texts), Ln];
  }

  /** What the first loop has destroyed when it comes to row `i`. */
  function CutSoFar(grid: seq<Row>, i: nat, top: nat, left: nat, bottom: nat, right: nat): multiset<nat> {
    CutBag(grid, if i < |grid| then i else |grid|, top, left, bottom, right)
  }

  lemma {:induction false} CutAbove(grid: seq<Row>, i: nat, left: nat, bottom: nat, right: nat)
    ensures CutSoFar(grid, i, i, left, bottom, right) == multiset{}
  {
    CutOutside(grid, 0, if i < |grid| then i else |grid|, i, left, bottom, right);
  }

  /** Rows outside the rectangle lose nothing. */
  lemma {:induction false} CutOutside(grid: seq<Row>, m: nat, n: nat, top: nat, left: nat, bottom: nat, right: nat)
    requires m <= n <= |grid| && (n <= top || bottom < m)
    ensures CutBag(grid, n, top, left, bottom, right) == CutBag(grid, m, top, left, bottom, right)
  {
    if m == n {
    } else {
      CutOutside(grid, m, n - 1, top, left, bottom, right);
      NothingMore(CutBag(grid, n - 1, top, left, bottom, right));
    }
  }

  lemma NothingMore(bag: multiset<nat>)
    ensures bag + multiset{} == bag
  {
  }

  lemma CutOneMore(grid: seq<Row>, before: multiset<nat>, i: nat, top: nat, left: nat, bottom: nat, right: nat)
    requires top <= i < |grid| && i <= bottom
    ensures before + CutSoFar(grid, i + 1, top, left, bottom, right)
            == before + CutSoFar(grid, i, top, left, bottom, right) + IdBag(CutCols(grid[i], left, right))
  {
    hide IdBag, CutCols;
    BagRegroup(before, CutSoFar(grid, i, top, left, bottom, right), IdBag(CutCols(grid[i], left, right)));
  }

  lemma CutBelow(grid: seq<Row>, i: nat, top: nat, left: nat, bottom: nat, right: nat)
    requires i >= |grid| || i > bottom
    ensures CutSoFar(grid, i, top, left, bottom, right) == CutBag(grid, |grid|, top, left, bottom, right)
  {
    if i < |grid| { CutOutside(grid, i, |grid|, top, left, bottom, right); }
  }

  lemma RowsOkErase(items: seq<TableRow?>, grid: seq<Row>, owned: set<object>, at: nat)
    requires RowsOk(items, grid, owned) && at < |items|
    ensures RowsOk(RemoveAt(items, at), RemoveAt(grid, at), owned)
  {
    var items', grid' := RemoveAt(items, at), RemoveAt(grid, at);
    forall i | 0 <= i < |items'|
      ensures items'[i] == (if i < at then items[i] else items[i+1])
      ensures grid'[i] == (if i < at then grid[i] else grid[i+1])
    {
    }
  }

  class Table {
    var rows: Vector<TableRow?>
    var separators: Vector<bool>
    var curRow: nat
    var curCol: nat
    const mode: Strategy
    var nextId: nat
    ghost var grid: seq<Row>
    ghost var destroyed: multiset<nat>
    ghost var owned: set<object>

    /** The rows are live, share nothing, and hold the cells of `grid`. */
    ghost predicate Sound()
      reads this, rows, rows.data, separators, separators.data, owned
    {
      && rows.Valid() && rows.data.Length > 0 && separators.Valid() && separators.data.Length > 0
      && this !in owned && rows !in owned && rows.data !in owned && separators !in owned && separators.data !in owned
      && RowsOk(rows.Items(), grid, owned)
    }

    /** Besides, the cursor is inside its row. */
    ghost predicate Valid()
      reads this, rows, rows.data, separators, separators.data, owned
    {
      Sound() && CursorInside(State())
    }

    /** What the table means. */
    ghost function State(): Editor
      reads this
    {
      Editor(grid, curRow, curCol, nextId, destroyed)
    }

    /** The separator flags, one for each row that has been given one. */
    ghost function Separators(): seq<bool>
      reads this, separators, separators.data
      requires separators.Valid()
    {
      separators.Items()
    }

    /** ft_create_table. */
    constructor (mode: Strategy)
      ensures Valid() && State() == NEW_TABLE && Separators() == [] && this.mode == mode
      ensures fresh(rows) && fresh(rows.data) && fresh(separators) && fresh(separators.data) && owned == {}
    {
      this.mode := mode;
      rows := new Vector(DEFAULT_VECTOR_CAPACITY);
      separators := new Vector(DEFAULT_VECTOR_CAPACITY);
      curRow, curCol, nextId, grid, destroyed, owned := 0, 0, 0, [], multiset{}, {};
    }

    /** Row `r` was changed in place, nothing else was, and the ghost fields were brought up to date. */
    twostate lemma ChangedRow(r: nat)
      requires unchanged(`rows) && unchanged(rows) && unchanged(rows.data)
      requires unchanged(`separators) && unchanged(separators) && unchanged(separators.data)
      requires old(Sound())
      requires r < rows.size && rows.data[r] != null && rows.data[r].Valid()
      requires rows.data[r].cells == old(rows.data[r].cells) || rows.data[r].cells !in old(owned)
      requires rows.data[r].cells.data == old(rows.data[r].cells.data) || rows.data[r].cells.data !in old(owned)
      requires OnlyChanged(old(owned), {rows.data[r], old(rows.data[r].cells), old(rows.data[r].cells.data)})
      requires grid == old(grid)[r := rows.data[r].Cells()]
      requires owned == old(owned) + {rows.data[r].cells, rows.data[r].cells.data}
      ensures Sound()
    {
      var items, row := rows.Items(), rows.data[r];
      assert old(RowOk(rows.Items()[r], owned));
      forall i | 0 <= i < |items| && i != r
        ensures RowOk(items[i], owned) && Apart(items[i], row) && items[i].Cells() == old(grid[i])
        ensures items[i].cells == old(items[i].cells) && items[i].cells.data == old(items[i].cells.data)
      {
        assert old(RowOk(items[i], owned));
        assert old(Apart(items[i], items[r])) || old(Apart(items[r], items[i]));
      }
      forall i, j | 0 <= i < j < |items| ensures Apart(items[i], items[j]) {
        assert old(Apart(items[i], items[j]));
      }
    }

    lemma Facts()
      requires Sound()
      ensures |grid| == rows.size && separators.Valid()
    {
    }

    lemma RowSize(row: TableRow, cells: Row)
      requires row.Valid() && row.Cells() == cells
      ensures row.cells.size == |cells|
    {
    }

    method PushRow()
      requires Sound()
      modifies this`grid, this`owned, rows, rows.data
      ensures Sound() && fresh(owned - old(owned)) && rows == old(rows)
        && (rows.data == old(rows.data) || fresh(rows.data))
      ensures grid == old(grid) + [[]] && rows.size == old(rows.size) + 1
    {
      hide RowsOk;
      var row := new TableRow();
      RowsOkSnoc(rows.Items(), grid, owned, row);
      rows.Push(row);
      owned := owned + {row, row.cells, row.cells.data};
      grid := grid + [[]];
    }

    /** get_row_and_create_if_not_exists: empty rows until row `r` exists. */
    method EnsureRow(r: nat)
      requires Sound()
      modifies this`grid, this`owned, rows, rows.data
      ensures Sound() && fresh(owned - old(owned)) && rows == old(rows)
        && (rows.data == old(rows.data) || fresh(rows.data))
      ensures grid == PadRows(old(grid), r + 1) && r < rows.size
    {
      while r >= rows.size
        invariant Sound() && fresh(owned - old(owned)) && rows == old(rows)
        invariant rows.data == old(rows.data) || fresh(rows.data)
        invariant |grid| == rows.size && PadRows(grid, r + 1) == PadRows(old(grid), r + 1)
        decreases r + 1 - rows.size
      {
        PushRow();
      }
    }

    method RowAt(r: nat) returns (row: TableRow)
      requires Sound() && r < rows.size
      ensures row == rows.data[r] && row in owned && row.cells in owned && row.cells.data in owned && row.Valid()
      ensures r < |grid| && row.Cells() == grid[r] && r < rows.data.Length
      ensures this !in owned && rows !in owned && rows.data !in owned
      ensures separators !in owned && separators.data !in owned
    {
      assert RowOk(rows.Items()[r], owned);
      row := rows.data[r];
    }

    /** The row of ft_write once it exists. */
    method WriteHere(text: string) returns (next: nat)
      requires Sound() && curRow < rows.size && curCol <= |grid[curRow]|
      modifies this`grid, this`owned, owned
      ensures Sound() && fresh(owned - old(owned))
      ensures grid == old(grid)[curRow := WriteRow(old(grid)[curRow], mode, curCol, text, nextId)]
      ensures next == if mode.Replace? && curCol < |old(grid)[curRow]| then nextId else nextId + 1
    {
      var row := RowAt(curRow);
      hide RowsOk, WriteRow;
      next := row.WriteAt(mode, curCol, text, nextId);
      owned := owned + {row.cells, row.cells.data};
      grid := grid[curRow := row.Cells()];
      ChangedRow(curRow);
    }

    /** ft_write with the text of one cell. */
    method Write(text: string) returns (status: int)
      requires Valid()
      modifies this`grid, this`destroyed, this`owned, this`curCol, this`nextId, rows, rows.data, owned
      ensures Valid() && fresh(owned - old(owned)) && rows == old(rows)
      ensures rows.data == old(rows.data) || fresh(rows.data)
      ensures status == FT_SUCCESS && State() == Step(old(State()), mode, Op.Write(text))
      ensures Separators() == old(Separators())
    {
      hide RowsOk, PadRows, WriteRow;
      EnsureRow(curRow);
      var next := WriteHere(text);
      Advance(1, next, multiset{});
      NothingMore(old(destroyed));
      StepKeepsCursor(old(State()), mode, Op.Write(text));
      status := FT_SUCCESS;
    }

    /** The row of ft_printf once it exists, before the ghost fields are brought up to date. */
    method PutInto(row: TableRow, newRow: TableRow) returns (ghost freed: multiset<nat>)
      requires row in owned && row.cells in owned && row.cells.data in owned && row.Valid() && curCol <= |row.Cells()|
      requires newRow.Valid() && newRow !in owned && newRow.cells !in owned && newRow.cells.data !in owned
      modifies row, row.cells, row.cells.data, newRow, newRow.cells, newRow.cells.data
      ensures row.Valid() && row.Cells() == PutCells(mode, old(row.Cells()), curCol, old(newRow.Cells()))
      ensures row.cells in {old(row.cells), old(newRow.cells)}
      ensures row.cells.data in {old(row.cells.data), old(newRow.cells.data)} || fresh(row.cells.data)
      ensures freed == IdBag(Gone(mode, old(row.Cells()), curCol, old(newRow.Cells())))
    {
      hide PutCells, Gone, IdBag;
      freed := row.Put(mode, newRow, curCol);
    }

    /** The cells of `newRow` go over or in front of those at the cursor. */
    method PrintHere(newRow: TableRow) returns (ghost freed: multiset<nat>)
      requires Sound() && curRow < rows.size && curCol <= |grid[curRow]|
      requires newRow.Valid() && newRow !in owned && newRow.cells !in owned && newRow.cells.data !in owned
      modifies this`grid, this`owned, owned, newRow, newRow.cells, newRow.cells.data
      ensures Sound() && fresh(owned - old(owned) - {old(newRow.cells), old(newRow.cells.data)})
      ensures grid == old(grid)[curRow := PutCells(mode, old(grid)[curRow], curCol, old(newRow.Cells()))]
      ensures freed == IdBag(Gone(mode, old(grid)[curRow], curCol, old(newRow.Cells())))
    {
      var row := RowAt(curRow);
      hide Sound, PutCells, Gone, IdBag;
      freed := PutInto(row, newRow);
      owned := owned + {row.cells, row.cells.data};
      grid := grid[curRow := row.Cells()];
      ChangedRow(curRow);
    }

    /** The row of ft_printf, created if it is missing, takes the cells of `newRow`. */
    method PlaceRow(newRow: TableRow) returns (ghost freed: multiset<nat>)
      requires Valid() && newRow.Valid() && newRow !in owned && newRow.cells !in owned && newRow.cells.data !in owned
      modifies this`grid, this`owned, rows, rows.data, owned, newRow, newRow.cells, newRow.cells.data
      ensures Sound() && fresh(owned - old(owned) - {old(newRow.cells), old(newRow.cells.data)})
      ensures rows == old(rows) && (rows.data == old(rows.data) || fresh(rows.data))
      ensures Separators() == old(Separators())
      ensures var g := PadRows(old(grid), curRow + 1);
        && curCol <= |g[curRow]|
        && grid == g[curRow := PutCells(mode, g[curRow], curCol, old(newRow.Cells()))]
        && freed == IdBag(Gone(mode, g[curRow], curCol, old(newRow.Cells())))
    {
      hide RowsOk, PadRows, PutCells, Gone, IdBag;
      EnsureRow(curRow);
      freed := PrintHere(newRow);
    }

    /** ft_row_printf_impl_ once the new row is made. */
    method PrintRow(newRow: TableRow, ghost texts: seq<string>) returns (newCols: nat)
      requires Valid() && newRow.Valid() && newRow !in owned && newRow.cells !in owned && newRow.cells.data !in owned
      requires newRow.Cells() == NewCells(texts, nextId)
      modifies this`grid, this`destroyed, this`owned, this`curCol, this`nextId
      modifies rows, rows.data, owned, newRow, newRow.cells, newRow.cells.data
      ensures Valid() && fresh(owned - old(owned) - {old(newRow.cells), old(newRow.cells.data)})
      ensures rows == old(rows) && (rows.data == old(rows.data) || fresh(rows.data))
      ensures Separators() == old(Separators())
      ensures newCols == |texts| && State() == PrintStep(old(State()), mode, texts)
    {
      hide RowsOk, PadRows, NewCells, PutCells, Gone, IdBag;
      newCols := newRow.cells.size;
      var next := nextId + newCols;
      ghost var freed := PlaceRow(newRow);
      Advance(newCols, next, freed);
      StepKeepsCursor(old(State()), mode, Print(texts));
    }

    /** Behind the new cells, `next` being the next identity and `freed` the cells that went. */
    method Advance(newCols: nat, next: nat, ghost freed: multiset<nat>)
      requires Sound()
      modifies this`destroyed, this`curCol, this`nextId
      ensures Sound() && Separators() == old(Separators())
      ensures State() == old(State()).(curCol := old(curCol) + newCols, nextId := next,
                                       destroyed := old(destroyed) + freed)
    {
      hide RowsOk;
      destroyed := destroyed + freed;
      curCol := curCol + newCols;
      nextId := next;
    }

    /** ft_printf: the number of new cells, or -1 when the text does not have the columns of its format. */
    method Printf(fmt: string, text: string) returns (newCols: int)
      requires Valid()
      modifies this`grid, this`destroyed, this`owned, this`curCol, this`nextId, rows, rows.data, owned
      ensures Valid() && fresh(owned - old(owned)) && rows == old(rows)
      ensures rows.data == old(rows.data) || fresh(rows.data)
      ensures Separators() == old(Separators())
      ensures match CellTexts(|SplitOn(fmt, COL_SEPARATOR)|, text)
              case None => newCols == -1 && State() == old(State())
              case Some(texts) => newCols == |texts| && State() == Step(old(State()), mode, Print(texts))
    {
      hide RowsOk, PadRows, NewCells, SplitOn, PutCells, CellTexts;
      var newRow := CreateRowFromFmt(fmt, text, nextId);
      if newRow.None? { return -1; }
      newCols := PrintRow(newRow.value, CellTexts(|SplitOn(fmt, COL_SEPARATOR)|, text).value);
    }

    /** split_cur_row: the cells behind the cursor leave for a row of their own. */
    method SplitOff() returns (tail: TableRow)
      requires Sound() && curRow < rows.size && curCol < |grid[curRow]|
      modifies this`grid, owned
      ensures Sound() && fresh(tail) && fresh(tail.cells) && fresh(tail.cells.data) && tail.Valid()
      ensures grid == old(grid)[curRow := old(grid)[curRow][..curCol]] && tail.Cells() == old(grid)[curRow][curCol..]
    {
      var row := RowAt(curRow);
      hide RowsOk;
      tail := row.SplitRow(curCol);
      grid := grid[curRow := row.Cells()];
      assert owned == old(owned) + {row.cells, row.cells.data};
      ChangedRow(curRow);
    }

    /** vector_insert of a row that shares nothing with the others. */
    method InsertRowAt(row: TableRow, at: nat)
      requires Sound() && row.Valid() && at <= rows.size
      requires row !in owned && row.cells !in owned && row.cells.data !in owned
      modifies this`grid, this`owned, rows, rows.data
      ensures Sound() && owned == old(owned) + {row, row.cells, row.cells.data}
      ensures rows == old(rows) && (rows.data == old(rows.data) || fresh(rows.data))
      ensures grid == InsertAt(old(grid), at, [row.Cells()])
    {
      hide RowsOk;
      Facts();
      RowsOkInsert(rows.Items(), grid, owned, at, row);
      rows.Insert(row, at);
      owned := owned + {row, row.cells, row.cells.data};
      grid := InsertAt(grid, at, [row.Cells()]);
    }

    /** The insert-mode half of ft_ln: what stands behind the cursor becomes a row of its own. */
    method SplitCurRow()
      requires Sound()
      modifies this`grid, this`owned, rows, rows.data, owned
      ensures Sound() && fresh(owned - old(owned)) && rows == old(rows)
      ensures rows.data == old(rows.data) || fresh(rows.data)
      ensures Separators() == old(Separators())
      ensures grid == if curRow < |old(grid)| && curCol < |old(grid)[curRow]|
                      then SplitRowAt(old(grid), curRow, curCol) else old(grid)
    {
      hide RowsOk;
      Facts();
      if curRow >= rows.size { return; }
      var row := RowAt(curRow);
      if curCol >= row.cells.size { return; }
      var tail := SplitOff();
      InsertRowAt(tail, curRow + 1);
      SplitAsInsert(old(grid), curRow, curCol);
    }

    /** ft_ln: wherever the cursor stood, it stands inside a row again. */
    method Ln() returns (status: int)
      requires Sound()
      modifies this`grid, this`owned, this`curCol, this`curRow, rows, rows.data, owned
      ensures Valid() && fresh(owned - old(owned)) && rows == old(rows)
      ensures rows.data == old(rows.data) || fresh(rows.data)
      ensures Separators() == old(Separators())
      ensures status == FT_SUCCESS && State() == LnStep(old(State()), mode)
    {
      hide RowsOk;
      if mode.InsertMode? {
        SplitCurRow();
      }
      curCol := 0;
      curRow := curRow + 1;
      status := FT_SUCCESS;
    }

    /** The row of ft_set_cell_span once it exists. */
    method SpanHere(r: nat, col: nat, hor: nat) returns (next: nat)
      requires Sound() && r < rows.size && hor >= 2
      modifies this`grid, this`owned, owned
      ensures Sound() && fresh(owned - old(owned))
      ensures grid == old(grid)[r := SpanRow(old(grid)[r], col, hor, nextId)]
      ensures next == nextId + Pads(old(grid)[r], col + hor)
    {
      var row := RowAt(r);
      hide RowsOk, SpanRow, Pads;
      var _, n := row.SetCellSpan(col, hor, nextId);
      next := n;
      owned := owned + {row.cells, row.cells.data};
      grid := grid[r := row.Cells()];
      ChangedRow(r);
    }

    /** ft_set_cell_span. */
    method SetCellSpan(row: nat, col: nat, hor: nat) returns (status: int)
      requires Sound()
      modifies this`grid, this`owned, this`nextId, rows, rows.data, owned
      ensures Sound() && fresh(owned - old(owned)) && rows == old(rows)
      ensures rows.data == old(rows.data) || fresh(rows.data)
      ensures Separators() == old(Separators())
      ensures status == (if hor < 2 then FT_EINVAL else FT_SUCCESS)
      ensures State() == SpanStep(old(State()), row, col, hor)
    {
      hide RowsOk, PadRows, SpanRow;
      if hor < 2 { return FT_EINVAL; }
      var r, c := row, col;
      if r == CURRENT { r := curRow; }
      if r == CURRENT { c := curCol; }
      EnsureRow(r);
      nextId := SpanHere(r, c, hor);
      status := FT_SUCCESS;
    }

    /** ft_printf_ln. */
    method PrintfLn(fmt: string, text: string) returns (newCols: int)
      requires Valid()
      modifies this`grid, this`destroyed, this`owned, this`curCol, this`curRow, this`nextId, rows, rows.data, owned
      ensures Valid() && fresh(owned - old(owned)) && rows == old(rows)
      ensures rows.data == old(rows.data) || fresh(rows.data)
      ensures Separators() == old(Separators())
      ensures match CellTexts(|SplitOn(fmt, COL_SEPARATOR)|, text)
              case None => newCols == -1 && State() == old(State())
              case Some(texts) => newCols == |texts| && State() == Run(old(State()), mode, [Print(texts), Op.Ln])
    {
      assert CursorInside(State());
      hide Valid, Step, CellTexts, SplitOn, CursorInside;
      newCols := Printf(fmt, text);
      if newCols >= 0 {
        var _ := Ln();
        RunPrintLn(old(State()), mode, CellTexts(|SplitOn(fmt, COL_SEPARATOR)|, text).value);
      }
    }

    /** ft_add_separator: the row at the cursor gets a separator above it. */
    method AddSeparator() returns (status: int)
      requires Sound()
      modifies separators, separators.data
      ensures Sound() && State() == old(State()) && status == FT_SUCCESS
      ensures separators.data == old(separators.data) || fresh(separators.data)
      ensures Separators() == WithSeparator(old(Separators()), curRow)
    {
      hide RowsOk;
      while separators.size <= curRow
        invariant Sound() && (separators.data == old(separators.data) || fresh(separators.data))
        invariant WithSeparator(Separators(), curRow) == WithSeparator(old(Separators()), curRow)
        decreases curRow + 1 - separators.size
      {
        separators.Push(false);
      }
      separators.data[curRow] := true;
      status := FT_SUCCESS;
    }

    /** ft_row_erase_range on row `r`. */
    method EraseRowCols(r: nat, left: nat, right: nat)
      requires Sound() && r < rows.size && left <= right && (grid[r] != [] ==> left <= |grid[r]|)
      modifies this`grid, this`destroyed, owned
      ensures Sound() && grid == old(grid)[r := EraseCols(old(grid)[r], left, right)]
      ensures destroyed == old(destroyed) + IdBag(CutCols(old(grid)[r], left, right))
    {
      var row := RowAt(r);
      hide RowsOk, EraseCols, CutCols, IdBag;
      ghost var freed := row.EraseRange(left, right);
      destroyed := destroyed + IdBag(freed);
      grid := grid[r := row.Cells()];
      assert owned == old(owned) + {row.cells, row.cells.data};
      ChangedRow(r);
    }

    /** The first loop of ft_erase_range. */
    method EraseColumns(top: nat, left: nat, bottom: nat, right: nat)
      requires Sound() && left <= right
      requires forall i :: top <= i <= bottom && i < |grid| && grid[i] != [] ==> left <= |grid[i]|
      modifies this`grid, this`destroyed, owned
      ensures Sound() && grid == EraseGrid(old(grid), top, left, bottom, right)
      ensures destroyed == old(destroyed) + CutBag(old(grid), |old(grid)|, top, left, bottom, right)
    {
      hide RowsOk, EraseCols, CutCols, IdBag, CutBag;
      var i := top;
      Facts();
      CutAbove(grid, top, left, bottom, right);
      while i < rows.size && i <= bottom
        invariant Sound() && top <= i && |grid| == |old(grid)| && (if top <= bottom then i <= bottom + 1 else i == top)
        invariant forall k :: 0 <= k < |grid| ==>
          grid[k] == if top <= k < i then EraseCols(old(grid)[k], left, right) else old(grid)[k]
        invariant destroyed == old(destroyed) + CutSoFar(old(grid), i, top, left, bottom, right)
      {
        Facts();
        CutOneMore(old(grid), old(destroyed), i, top, left, bottom, right);
        EraseRowCols(i, left, right);
        i := i + 1;
      }
      Facts();
      CutBelow(old(grid), i, top, left, bottom, right);
      assert forall k :: 0 <= k < |grid| ==> grid[k] == EraseGrid(old(grid), top, left, bottom, right)[k];
    }

    /** destroy_row on row `i`. */
    method DestroyRow(i: nat)
      requires Sound() && i < rows.size
      modifies this`destroyed
      ensures Sound() && i < |grid| && destroyed == old(destroyed) + IdBag(grid[i])
    {
      var row := RowAt(i);
      hide RowsOk, IdBag;
      ghost var freed := row.DestroyEachCell();
      destroyed := destroyed + freed;
    }

    /** Row `i` and its separator are taken out. */
    method DropRow(i: nat)
      requires Sound() && i < rows.size
      modifies this`grid, rows`size, rows.data, separators`size, separators.data
      ensures Sound() && grid == RemoveAt(old(grid), i)
      ensures Separators() == if i < |old(Separators())| then RemoveAt(old(Separators()), i) else old(Separators())
    {
      hide RowsOk;
      Facts();
      RowsOkErase(rows.Items(), grid, owned, i);
      var _ := rows.Erase(i);
      if i < separators.size {
        var _ := separators.Erase(i);
      }
      grid := RemoveAt(grid, i);
    }

    /** The second loop of ft_erase_range: the chosen rows that are empty go, with their separators. */
    method CompactRows(top: nat, bottom: nat)
      requires Sound() && |grid| > 0 && top <= |grid| && top <= bottom
      modifies this`grid, this`destroyed, rows`size, rows.data, separators`size, separators.data
      ensures Sound() && destroyed == old(destroyed)
      ensures grid == Compact(old(grid), DropEmpty(old(grid), top, bottom))
      ensures Separators() == Compact(old(Separators()), DropEmpty(old(grid), top, bottom))
    {
      hide *;
      ghost var drop := DropEmpty(grid, top, bottom);
      Facts();
      var nIterations := (if rows.size - 1 < bottom then rows.size - 1 else bottom) + 1 - top;
      var i, j := top, 0;
      HalfwayStart(grid, drop, top);
      HalfwayStart(Separators(), drop, top);
      while j < nIterations
        invariant destroyed == old(destroyed)
        invariant 0 <= j <= nIterations && Sound() && rows.data == old(rows.data)
          && separators.data == old(separators.data)
        invariant top + j <= |old(grid)| && i == |Compact(old(grid)[..top+j], drop)|
        invariant separators.Valid() && grid == Halfway(old(grid), drop, top + j)
        invariant Separators() == Halfway(old(Separators()), drop, top + j)
      {
        HalfwayStep(old(grid), drop, top + j);
        HalfwayStepShort(old(grid), old(Separators()), drop, top + j);
        Facts();
        var row := RowAt(i);
        RowOkValid(row, owned);
        RowSize(row, grid[i]);
        if row.cells.size > 0 {
          i := i + 1;
        } else {
          BagOfNone();
          NothingMore(destroyed);
          DestroyRow(i);
          DropRow(i);
        }
        j := j + 1;
        Facts();
      }
      HalfwayEnd(old(grid), drop, top + j);
      HalfwayEnd(old(Separators()), drop, top + j);
    }

    /** ft_erase_range. The cursor stays where it is. */
    method EraseRange(topLeftRow: nat, topLeftCol: nat, bottomRightRow: nat, bottomRightCol: nat) returns (status: int)
      requires Sound() && Erasable(State(), topLeftRow, topLeftCol, bottomRightRow, bottomRightCol)
      modifies this`grid, this`destroyed, rows`size, rows.data, separators`size, separators.data, owned
      ensures var (top, left) := (EraseTarget(old(State()), topLeftRow), EraseTarget(old(State()), topLeftCol));
        var (bottom, right) := (EraseTarget(old(State()), bottomRightRow), EraseTarget(old(State()), bottomRightCol));
        && Sound() && status == (if top > bottom || left > right then FT_EINVAL else FT_SUCCESS)
        && State() == EraseStep(old(State()), topLeftRow, topLeftCol, bottomRightRow, bottomRightCol)
        && Separators() ==
           if status == FT_EINVAL then old(Separators())
           else Compact(old(Separators()), DropEmpty(EraseGrid(old(grid), top, left, bottom, right), top, bottom))
    {
      hide RowsOk, Compact, EraseGrid, DropEmpty, CutBag;
      var top, left, bottom, right := topLeftRow, topLeftCol, bottomRightRow, bottomRightCol;
      if top == CURRENT { top := curRow; }
      if bottom == CURRENT { bottom := curRow; }
      if left == CURRENT { left := curRow; }
      if right == CURRENT { right := curRow; }
      if top > bottom || left > right { return FT_EINVAL; }
      EraseColumns(top, left, bottom, right);
      CompactRows(top, bottom);
      status := FT_SUCCESS;
    }
  }
}
