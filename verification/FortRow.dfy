/** A table row owning a vector of cells (row.c inside fort.c). */
module FortRow {
  import opened Sequences
  import opened FortText
  import opened FortModel
  import opened FortVector
  import opened FortEditor
  import opened FortErase

  const DEFAULT_VECTOR_CAPACITY: nat := 10
  const COL_SEPARATOR := '|'

  class TableRow {
    var cells: Vector<Cell>

    ghost predicate Valid()
      reads this, cells
    {
      cells.Valid() && cells.data.Length > 0
    }

    ghost function Cells(): Row
      reads this, cells, cells.data
      requires Valid()
    {
      cells.Items()
    }

    /** create_row. */
    constructor ()
      ensures Valid() && Cells() == [] && fresh(cells) && fresh(cells.data)
    {
      cells := new Vector(DEFAULT_VECTOR_CAPACITY);
    }

    /** create_row_impl with the cells of another row. */
    constructor FromCells(cells: Vector<Cell>)
      requires cells.Valid() && cells.data.Length > 0
      ensures Valid() && this.cells == cells
    {
      this.cells := cells;
    }

    /** get_cell_and_create_if_not_exists for the last of `n` columns. */
    method CreateUpTo(n: nat, id: nat)
      requires Valid()
      modifies cells, cells.data
      ensures Valid() && cells == old(cells) && (cells.data == old(cells.data) || fresh(cells.data))
      ensures Cells() == PadCells(old(Cells()), n, id)
    {
      ghost var before := Cells();
      var next := id;
      while cells.size < n
        invariant Valid() && (cells.data == old(cells.data) || fresh(cells.data))
        invariant PadCells(Cells(), n, next) == PadCells(before, n, id)
        decreases n - cells.size
      {
        cells.Push(Cell(next, "", Common));
        next := next + 1;
      }
    }

    /** fill_cell_from_string: the text of an existing cell. */
    method Fill(col: nat, text: string)
      requires Valid() && col < cells.size
      modifies cells.data
      ensures Valid() && Cells() == old(Cells())[col := old(Cells())[col].(text := text)]
    {
      cells.data[col] := cells.data[col].(text := text);
    }

    /** create_cell_in_position and the text written into it. */
    method CreateAt(col: nat, cell: Cell)
      requires Valid() && col <= cells.size
      modifies cells, cells.data
      ensures Valid() && cells == old(cells) && (cells.data == old(cells.data) || fresh(cells.data))
      ensures Cells() == InsertAt(old(Cells()), col, [cell])
    {
      cells.Insert(cell, col);
    }

    /** The cell ft_write puts its text in: in replace mode the one at `col`, created if it is missing, and in
        insert mode a new one. Returns the next free identity. */
    method WriteAt(mode: Strategy, col: nat, text: string, id: nat) returns (next: nat)
      requires Valid() && col <= cells.size
      modifies cells, cells.data
      ensures Valid() && cells == old(cells) && (cells.data == old(cells.data) || fresh(cells.data))
      ensures Cells() == WriteRow(old(Cells()), mode, col, text, id)
      ensures next == if mode.Replace? && col < old(cells.size) then id else id + 1
    {
      next := if mode.Replace? && col < cells.size then id else id + 1;
      if mode.Replace? {
        CreateUpTo(col + 1, id);
        Fill(col, text);
      } else {
        CreateAt(col, Cell(id, text, Common));
      }
    }

    /** swap_row: what stood under the new cells ends up in `ins`, to be destroyed with it. */
    method SwapRow(ins: TableRow, pos: nat)
      requires Valid() && ins.Valid() && pos <= cells.size
      requires ins != this && ins.cells != cells && ins.cells.data != cells.data
      modifies this, cells, cells.data, ins, ins.cells, ins.cells.data
      ensures Valid() && ins.Valid()
      ensures cells in {old(cells), old(ins.cells)}
      ensures cells.data in {old(cells.data), old(ins.cells.data)} || fresh(cells.data)
      ensures Cells() == Overwrite(old(Cells()), pos, old(ins.Cells()))
      ensures ins.Cells() == Displaced(old(Cells()), pos, old(ins.Cells()))
    {
      if cells.size == 0 && pos == 0 {
        cells, ins.cells := ins.cells, cells;
      } else {
        cells.Swap(ins.cells, pos);
      }
    }

    /** insert_row: the cells of `ins` pass to this row one by one; `ins` is left without any. */
    method InsertRow(ins: TableRow, pos: nat)
      requires Valid() && ins.Valid() && pos <= cells.size
      requires ins != this && ins.cells != cells && ins.cells.data != cells.data
      modifies cells, cells.data, ins.cells`size
      ensures Valid() && ins.Valid() && cells == old(cells) && (cells.data == old(cells.data) || fresh(cells.data))
      ensures Cells() == InsertAt(old(Cells()), pos, old(ins.Cells()))
      ensures ins.Cells() == []
    {
      ghost var row, moved := Cells(), ins.Cells();
      var sz := ins.cells.size;
      for i := 0 to sz
        invariant Valid() && (cells.data == old(cells.data) || fresh(cells.data))
        invariant ins.Valid() && ins.cells.size == sz && ins.cells.data == old(ins.cells.data) && ins.Cells() == moved
        invariant Cells() == InsertAt(row, pos, moved[..i])
      {
        InsertOneMore(row, pos, moved, i);
        cells.Insert(ins.cells.data[i], pos + i);
      }
      assert moved[..sz] == moved;
      ins.cells.Clear();
    }

    /** destroy_each_cell: `freed` counts the cells destroyed. */
    method DestroyEachCell() returns (ghost freed: multiset<nat>)
      requires Valid()
      ensures freed == IdBag(Cells())
    {
      hide IdBag;
      freed := multiset{};
      BagOfNone();
      for i := 0 to cells.size
        invariant freed == IdBag(Cells()[..i])
      {
        BagAppend(Cells()[..i], [Cells()[i]]);
        BagOfOne(Cells()[i]);
        assert Cells()[..i+1] == Cells()[..i] + [Cells()[i]];
        freed := freed + multiset{cells.data[i].id};
      }
      assert Cells()[..cells.size] == Cells();
    }

    /** The two ways ft_printf brings new cells in; what `ins` holds then is destroyed with it. */
    method Put(mode: Strategy, ins: TableRow, pos: nat) returns (ghost freed: multiset<nat>)
      requires Valid() && ins.Valid() && pos <= cells.size
      requires ins != this && ins.cells != cells && ins.cells.data != cells.data
      modifies this, cells, cells.data, ins, ins.cells, ins.cells.data
      ensures Valid()
      ensures cells in {old(cells), old(ins.cells)}
      ensures cells.data in {old(cells.data), old(ins.cells.data)} || fresh(cells.data)
      ensures Cells() == PutCells(mode, old(Cells()), pos, old(ins.Cells()))
      ensures freed == IdBag(Gone(mode, old(Cells()), pos, old(ins.Cells())))
    {
      hide IdBag, Overwrite, Displaced, InsertAt;
      match mode {
        case InsertMode => InsertRow(ins, pos);
        case Replace => SwapRow(ins, pos);
      }
      freed := ins.DestroyEachCell();
    }

    /** split_row. */
    method SplitRow(pos: nat) returns (tail: TableRow)
      requires Valid() && pos < cells.size
      modifies cells
      ensures Valid() && cells == old(cells) && cells.data == old(cells.data) && Cells() == old(Cells())[..pos]
      ensures fresh(tail) && fresh(tail.cells) && fresh(tail.cells.data)
      ensures tail.Valid() && tail.Cells() == old(Cells())[pos..]
    {
      var rest := cells.Split(pos);
      tail := new TableRow.FromCells(rest);
    }

    /** The next `left` cells from `from` on become slaves. */
    method MarkAsSlaves(from: nat, n: nat)
      requires Valid() && from + n <= cells.size
      modifies cells.data
      ensures Valid() && Cells() == MarkSlaves(old(Cells()), from, n)
    {
      hide MarkSlaves;
      var left, at := n, from;
      while left > 0
        invariant 0 <= left && at + left == from + n
        invariant MarkSlaves(Cells(), at, left) == MarkSlaves(old(Cells()), from, n)
      {
        ghost var now := Cells();
        MarkOne(now, at, left);
        cells.data[at] := cells.data[at].(kind := Slave);
        assert Cells() == now[at := now[at].(kind := Slave)];
        left := left - 1;
        at := at + 1;
      }
      MarkNone(Cells(), at);
    }

    /** row_set_cell_span; `id` is the identity of the first cell it may have to create, `next` the one after. */
    method SetCellSpan(col: nat, hor: nat, id: nat) returns (status: int, next: nat)
      requires Valid()
      modifies cells, cells.data
      ensures Valid() && cells == old(cells) && (cells.data == old(cells.data) || fresh(cells.data))
      ensures status == if hor < 2 then FT_EINVAL else FT_SUCCESS
      ensures hor < 2 ==> Cells() == old(Cells()) && next == id
      ensures hor >= 2 ==> Cells() == SpanRow(old(Cells()), col, hor, id) && next == id + Pads(old(Cells()), col + hor)
    {
      hide MarkSlaves, PadCells;
      if hor < 2 { return FT_EINVAL, id; }
      next := id + if cells.size < col + hor then col + hor - cells.size else 0;
      CreateUpTo(col + hor, id);
      ghost var padded := Cells();
      cells.data[col] := cells.data[col].(kind := Master);
      assert Cells() == padded[col := padded[col].(kind := Master)];
      MarkAsSlaves(col + 1, hor - 1);
      status := FT_SUCCESS;
    }

    /** The first loop of ft_row_erase_range: which cells destroy_cell is called for. */
    method DestroyRange(left: nat, right: nat) returns (ghost freed: Row)
      requires Valid()
      ensures freed == CutCols(Cells(), left, right)
    {
      var i := left;
      freed := [];
      while i < cells.size && i <= right
        invariant left <= i && (left <= cells.size ==> i <= cells.size) && (left <= right ==> i <= right + 1)
        invariant right < left ==> i == left
        invariant freed == if left <= cells.size then Cells()[left..i] else []
      {
        freed := freed + [cells.data[i]];
        i := i + 1;
      }
    }

    /** The second loop of ft_row_erase_range: `n` times the element at `left` is erased. */
    method EraseAt(left: nat, n: nat)
      requires Valid() && left + n <= cells.size
      modifies cells, cells.data
      ensures Valid() && cells == old(cells) && cells.data == old(cells.data)
      ensures Cells() == Without(old(Cells()), left, n)
    {
      hide RemoveAt, Without;
      WithoutNone(Cells(), left);
      ghost var row := Cells();
      var nDestroy := n;
      while nDestroy > 0
        invariant 0 <= nDestroy <= n
        invariant Valid() && cells.data == old(cells.data)
        invariant Cells() == Without(row, left, n - nDestroy)
      {
        EraseOneMore(row, left, n - nDestroy);
        var _ := cells.Erase(left);
        nDestroy := nDestroy - 1;
      }
    }

    /** ft_row_erase_range: the columns `left` to `right` that exist; `freed` are the cells destroyed. */
    method EraseRange(left: nat, right: nat) returns (ghost freed: Row)
      requires Valid() && (left <= right && cells.size > 0 ==> left <= cells.size)
      modifies cells, cells.data
      ensures Valid() && cells == old(cells) && cells.data == old(cells.data)
      ensures Cells() == EraseCols(old(Cells()), left, right) && freed == CutCols(old(Cells()), left, right)
    {
      if cells.size == 0 || right < left { return []; }
      hide CutCols;
      freed := DestroyRange(left, right);
      var nDestroy := (if cells.size - 1 < right then cells.size - 1 else right) + 1 - left;
      EraseAt(left, nDestroy);
    }
  }

  lemma MarkOne(row: Row, at: nat, n: nat)
    requires n > 0 && at + n <= |row|
    ensures MarkSlaves(row, at, n) == MarkSlaves(row[at := row[at].(kind := Slave)], at + 1, n - 1)
  {
  }

  lemma MarkNone(row: Row, at: nat)
    requires at <= |row|
    ensures MarkSlaves(row, at, 0) == row
  {
  }

  lemma InsertOneMore(row: Row, pos: nat, moved: Row, i: nat)
    requires pos <= |row| && i < |moved|
    ensures InsertAt(InsertAt(row, pos, moved[..i]), pos + i, [moved[i]]) == InsertAt(row, pos, moved[..i+1])
  {
    var t := InsertAt(row, pos, moved[..i]);
    assert t[..pos+i] == row[..pos] + moved[..i] && t[pos+i..] == row[pos..];
    assert moved[..i+1] == moved[..i] + [moved[i]];
  }

  /** `n` cells from column `left` on taken out. */
  function Without(row: Row, left: nat, n: nat): (rest: Row)
    requires left + n <= |row|
    ensures |rest| == |row| - n
  {
    row[..left] + row[left+n..]
  }

  lemma EraseOneMore(row: Row, left: nat, gone: nat)
    requires left + gone < |row|
    ensures left < |Without(row, left, gone)|
    ensures RemoveAt(Without(row, left, gone), left) == Without(row, left, gone + 1)
  {
  }

  lemma WithoutNone(row: Row, left: nat)
    requires left <= |row|
    ensures Without(row, left, 0) == row
  {
  }

  /** The loop of create_row_from_string: a cell for each piece, except an empty last one. */
  method PushPieces(row: TableRow, str: string, id: nat) returns (numberOfSeparators: nat)
    requires row.Valid() && row.Cells() == []
    modifies row.cells, row.cells.data
    ensures row.Valid() && row.cells == old(row.cells)
      && (row.cells.data == old(row.cells.data) || fresh(row.cells.data))
    ensures var pieces := SplitOn(str, COL_SEPARATOR);
      && |pieces| == numberOfSeparators + 1
      && row.cells.size <= |pieces| && row.Cells() == NewCells(pieces[..row.cells.size], id)
      && (row.cells.size < |pieces| ==> row.cells.size + 1 == |pieces| && pieces[row.cells.size] == "")
  {
    hide SplitOn, NewCells;
    ghost var pieces := SplitOn(str, COL_SEPARATOR);
    var pos: nat := 0;
    numberOfSeparators := 0;
    assert str[0..] == str;
    NewCellsNone(pieces, id);
    while pos < |str|
      invariant pos <= |str| && numberOfSeparators < |pieces|
      invariant SplitOn(str[pos..], COL_SEPARATOR) == pieces[numberOfSeparators..]
      invariant row.Valid() && row.cells == old(row.cells)
      invariant row.cells.data == old(row.cells.data) || fresh(row.cells.data)
      invariant row.cells.size == numberOfSeparators
      invariant row.Cells() == NewCells(pieces[..numberOfSeparators], id)
      decreases |str| - pos
    {
      var p := NextPiece(str, pos, COL_SEPARATOR);
      NewCellsSnoc(pieces, numberOfSeparators, id);
      var end := if p.Some? then p.value else |str|;
      assert str[pos..end] == pieces[numberOfSeparators] by {
        assert pieces[numberOfSeparators] == pieces[numberOfSeparators..][0];
        assert p.None? ==> str[pos..] == str[pos..end];
      }
      row.cells.Push(Cell(id + row.cells.size, str[pos..end], Common));
      if p.None? { return; }
      numberOfSeparators := numberOfSeparators + 1;
      pos := p.value + 1;
    }
    SplitNone<char>("", COL_SEPARATOR);
    assert str[pos..] == "";
    assert pieces[numberOfSeparators..] == [""];
  }

  /** create_row_from_string: one cell for each piece between separators. */
  method CreateRowFromString(str: string, id: nat) returns (row: TableRow)
    ensures fresh(row) && row.Valid() && fresh(row.cells) && fresh(row.cells.data)
    ensures row.Cells() == NewCells(SplitOn(str, COL_SEPARATOR), id)
  {
    hide SplitOn, NewCells;
    row := new TableRow();
    var numberOfSeparators := PushPieces(row, str, id);
    PushEmpty(row, SplitOn(str, COL_SEPARATOR), numberOfSeparators + 1, id);
  }

  /** The special case of create_row_from_string: the last cell may be an empty one. */
  method PushEmpty(row: TableRow, ghost pieces: seq<string>, n: nat, id: nat)
    requires row.Valid() && |pieces| == n && row.cells.size <= n <= row.cells.size + 1
    requires row.Cells() == NewCells(pieces[..row.cells.size], id)
    requires row.cells.size < n ==> pieces[row.cells.size] == ""
    modifies row.cells, row.cells.data
    ensures row.Valid() && row.cells == old(row.cells)
      && (row.cells.data == old(row.cells.data) || fresh(row.cells.data))
    ensures row.Cells() == NewCells(pieces, id)
  {
    hide NewCells;
    while row.cells.size < n
      invariant row.Valid() && row.cells == old(row.cells)
      invariant row.cells.data == old(row.cells.data) || fresh(row.cells.data)
      invariant row.cells.size <= n <= row.cells.size + 1
      invariant row.Cells() == NewCells(pieces[..row.cells.size], id)
      invariant row.cells.size < n ==> pieces[row.cells.size] == ""
      decreases n - row.cells.size
    {
      NewCellsSnoc(pieces, row.cells.size, id);
      row.cells.Push(Cell(id + row.cells.size, "", Common));
    }
    assert pieces[..n] == pieces;
  }

  lemma NewCellsNone(texts: seq<string>, id: nat)
    ensures NewCells(texts[..0], id) == []
  {
  }

  lemma NewCellsSnoc(texts: seq<string>, k: nat, id: nat)
    requires k < |texts|
    ensures NewCells(texts[..k+1], id) == NewCells(texts[..k], id) + [Cell(id + k, texts[k], Common)]
  {
  }

  /** The cells a formatted text makes: one for each piece if the format had as many columns, a single cell if
      the format had one, and otherwise nothing. */
  function CellTexts(colsOrigin: nat, text: string): Option<seq<string>> {
    var pieces := SplitOn(text, COL_SEPARATOR);
    if |pieces| == colsOrigin then Some(pieces) else if colsOrigin == 1 then Some([text]) else None
  }

  /** Nothing of a printed text is lost: joined by the separator, the cells are the text. There is a cell for each
      column of the format, and no row only if the text has another number of columns and the format more than one. */
  lemma CellsJoin(colsOrigin: nat, text: string)
    requires colsOrigin >= 1
    ensures match CellTexts(colsOrigin, text)
            case None => colsOrigin != 1 && |SplitOn(text, COL_SEPARATOR)| != colsOrigin
            case Some(texts) => |texts| == colsOrigin && JoinWith(texts, COL_SEPARATOR) == text
  {
    hide SplitOn;
    JoinSplit(text, COL_SEPARATOR);
  }

  /** create_row_from_fmt_string, the formatting itself being given. */
  method CreateRowFromFmt(fmt: string, text: string, id: nat) returns (row: Option<TableRow>)
    ensures row.None? <==> CellTexts(|SplitOn(fmt, COL_SEPARATOR)|, text).None?
    ensures row.Some? ==> fresh(row.value) && row.value.Valid() && fresh(row.value.cells) && fresh(row.value.cells.data)
    ensures row.Some? ==> row.value.Cells() == NewCells(CellTexts(|SplitOn(fmt, COL_SEPARATOR)|, text).value, id)
  {
    hide SplitOn;
    var colsOrigin := StrChrCount(fmt, COL_SEPARATOR);
    colsOrigin := colsOrigin + 1;
    var cols := StrChrCount(text, COL_SEPARATOR);
    cols := cols + 1;
    if cols == colsOrigin {
      var made := CreateRowFromString(text, id);
      return Some(made);
    }
    if colsOrigin == 1 {
      var made := new TableRow();
      made.CreateUpTo(1, id);
      made.Fill(0, text);
      return Some(made);
    }
    row := None;
  }
}
