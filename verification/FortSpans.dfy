/** Cell spans: what a span call makes, which operations leave a slave without its master, and which runs never do. */
module FortSpans {
  import opened Sequences
  import opened FortModel
  import opened FortVector
  import opened FortEditor
  import opened FortErase

  /** A span call never orphans a slave cell. */
  lemma SpanKeepsWellFormed(row: Row, col: nat, hor: nat, id: nat)
    requires hor >= 2 && SpansWellFormedRow(row)
    ensures SpansWellFormedRow(SpanRow(row, col, hor, id))
  {
  }

  /** A span call makes one group of at least `hor` columns, longer only if slaves stood behind it, and leaves every
      text and identity where it was. */
  lemma SpanMakesGroup(row: Row, col: nat, hor: nat, id: nat)
    requires hor >= 2
    ensures var spanned := SpanRow(row, col, hor, id);
      && GroupSize(spanned, col) == hor + SlaveRun(spanned, col + hor)
      && (forall c :: 0 <= c < |row| ==> spanned[c].text == row[c].text && spanned[c].id == row[c].id)
      && (forall c :: col + hor <= c < |row| ==> spanned[c] == row[c])
  {
    var spanned := SpanRow(row, col, hor, id);
    SlavesAhead(spanned, col + 1, hor - 1);
  }

  lemma {:induction false} SlavesAhead(row: Row, c: nat, n: nat)
    requires c + n <= |row| && forall i :: c <= i < c + n ==> row[i].kind.Slave?
    ensures SlaveRun(row, c) == n + SlaveRun(row, c + n)
    decreases n
  {
    if n == 0 {
    } else {
      SlavesAhead(row, c + 1, n - 1);
    }
  }

  /** Overwriting cells keeps the spans well formed exactly when no slave follows the last one written. */
  lemma OverwriteKeepsWellFormed(row: Row, pos: nat, texts: seq<string>, id: nat)
    requires pos <= |row| && |texts| >= 1 && SpansWellFormedRow(row)
    ensures SpansWellFormedRow(Overwrite(row, pos, NewCells(texts, id)))
            <==> !(pos + |texts| < |row| && row[pos + |texts|].kind.Slave?)
  {
    var cells := NewCells(texts, id);
    var row' := Overwrite(row, pos, cells);
    var next := pos + |texts|;
    assert row'[next-1] == cells[|texts|-1];
    if next < |row| {
      assert row'[next] == row[next];
    }
    forall c | 0 <= c < |row'| && row'[c].kind.Slave? && c != next ensures c > 0 && !row'[c-1].kind.Common? {
      if c < pos { assert row'[c] == row[c]; } else { assert row'[c] == row[c] && row'[c-1] == row[c-1]; }
    }
  }

  /** Inserting cells keeps the spans well formed exactly when they do not land in front of a slave. */
  lemma InsertKeepsWellFormed(row: Row, pos: nat, texts: seq<string>, id: nat)
    requires pos <= |row| && |texts| >= 1 && SpansWellFormedRow(row)
    ensures SpansWellFormedRow(InsertAt(row, pos, NewCells(texts, id))) <==> !(pos < |row| && row[pos].kind.Slave?)
  {
    var cells := NewCells(texts, id);
    var row' := InsertAt(row, pos, cells);
    var next := pos + |texts|;
    assert row'[next-1] == cells[|texts|-1];
    if pos < |row| {
      assert row'[next] == row[pos];
    }
    forall c | 0 <= c < |row'| && row'[c].kind.Slave? && c != next ensures c > 0 && !row'[c-1].kind.Common? {
      if c < pos {
        assert row'[c] == row[c] && row'[c-1] == row[c-1];
      } else {
        assert c > next && row'[c] == row[c-|texts|] && row'[c-1] == row[c-|texts|-1];
      }
    }
  }

  /** Splitting a row keeps the spans of both parts well formed exactly when it does not happen in front of a slave. */
  lemma SplitKeepsWellFormed(row: Row, c: nat)
    requires c < |row| && SpansWellFormedRow(row)
    ensures SpansWellFormedRow(row[..c]) && (SpansWellFormedRow(row[c..]) <==> !row[c].kind.Slave?)
  {
    var head, tail := row[..c], row[c..];
    assert tail[0] == row[c];
    forall i | 0 <= i < |head| && head[i].kind.Slave? ensures i > 0 && !head[i-1].kind.Common? {
      assert head[i] == row[i];
    }
    forall i | 0 < i < |tail| && tail[i].kind.Slave? ensures !tail[i-1].kind.Common? {
      assert tail[i] == row[c+i] && tail[i-1] == row[c+i-1];
    }
  }

  /** Erasing columns keeps them well formed exactly when no slave is left behind the gap without a group before it. */
  lemma EraseKeepsWellFormed(row: Row, left: nat, right: nat)
    requires left <= right && SpansWellFormedRow(row)
    ensures SpansWellFormedRow(EraseCols(row, left, right))
            <==> (right + 1 < |row| && row[right+1].kind.Slave? ==> left > 0 && !row[left-1].kind.Common?)
  {
    var row' := EraseCols(row, left, right);
    forall c | 0 <= c < |row'| && c < left && row'[c].kind.Slave? ensures c > 0 && !row'[c-1].kind.Common? {
      assert row'[c] == row[c];
    }
    if right + 1 < |row| {
      assert left > 0 ==> row'[left-1] == row[left-1];
      assert row'[left] == row[right+1];
      forall c | left < c < |row'| && row'[c].kind.Slave? ensures !row'[c-1].kind.Common? {
        assert row'[c] == row[c+right+1-left] && row'[c-1] == row[c+right-left];
      }
    }
  }

  ghost predicate GridWellFormed(grid: seq<Row>) {
    forall r :: 0 <= r < |grid| ==> SpansWellFormedRow(grid[r])
  }

  predicate SlaveAt(grid: seq<Row>, r: nat, c: nat) {
    r < |grid| && c < |grid[r]| && grid[r][c].kind.Slave?
  }

  /** The operation does not cut a group in two: no slave stands where the new cells end, or where the row is split. */
  predicate Safe(e: Editor, mode: Strategy, op: Op) {
    match op
    case Write(_) => mode.InsertMode? ==> !SlaveAt(e.grid, e.curRow, e.curCol)
    case Print(texts) =>
      texts == [] || !SlaveAt(e.grid, e.curRow, e.curCol + if mode.Replace? then |texts| else 0)
    case Ln => mode.InsertMode? ==> !SlaveAt(e.grid, e.curRow, e.curCol)
    case Span(_, _, _) => true
  }

  /** With one row replaced, the grid is as good as that row. */
  lemma PutRow(grid: seq<Row>, r: nat, row: Row)
    requires GridWellFormed(grid)
    ensures var g := PadRows(grid, r + 1);
      GridWellFormed(g) && (GridWellFormed(g[r := row]) <==> SpansWellFormedRow(row))
  {
    var g := PadRows(grid, r + 1);
    assert GridWellFormed(g);
    assert g[r := row][r] == row;
  }

  lemma WriteWellFormed(e: Editor, mode: Strategy, text: string)
    requires CursorInside(e) && GridWellFormed(e.grid)
    ensures GridWellFormed(WriteStep(e, mode, text).grid) <==> Safe(e, mode, Write(text))
  {
    hide GridWellFormed, PadRows, NewCells;
    var g := PadRows(e.grid, e.curRow + 1);
    var row := g[e.curRow];
    PutRow(e.grid, e.curRow, row);
    PutRow(e.grid, e.curRow, WriteRow(row, mode, e.curCol, text, e.nextId));
    assert g[e.curRow := row] == g;
    if mode.Replace? && e.curCol < |row| {
      assert SpansWellFormedRow(row[e.curCol := row[e.curCol].(text := text)]);
    } else {
      InsertKeepsWellFormed(row, e.curCol, [text], e.nextId);
      assert NewCells([text], e.nextId) == [Cell(e.nextId, text, Common)];
    }
  }

  lemma PutNothing(mode: Strategy, row: Row, c: nat)
    requires c <= |row|
    ensures PutCells(mode, row, c, []) == row
  {
  }

  lemma PrintWellFormed(e: Editor, mode: Strategy, texts: seq<string>)
    requires CursorInside(e) && GridWellFormed(e.grid)
    ensures GridWellFormed(PrintStep(e, mode, texts).grid) <==> Safe(e, mode, Print(texts))
  {
    hide GridWellFormed, SpansWellFormedRow, PadRows, NewCells, IdBag, Gone, Overwrite, InsertAt;
    var g, cells := PadRows(e.grid, e.curRow + 1), NewCells(texts, e.nextId);
    var row := g[e.curRow];
    PutRow(e.grid, e.curRow, row);
    PutRow(e.grid, e.curRow, PutCells(mode, row, e.curCol, cells));
    assert g[e.curRow := row] == g;
    if texts == [] {
      PutNothing(mode, row, e.curCol);
    } else if mode.Replace? {
      OverwriteKeepsWellFormed(row, e.curCol, texts, e.nextId);
    } else {
      InsertKeepsWellFormed(row, e.curCol, texts, e.nextId);
    }
  }

  lemma LnWellFormed(e: Editor, mode: Strategy)
    requires CursorInside(e) && GridWellFormed(e.grid)
    ensures GridWellFormed(LnStep(e, mode).grid) <==> Safe(e, mode, Ln)
  {
    if mode.InsertMode? && e.curRow < |e.grid| && e.curCol < |e.grid[e.curRow]| {
      hide SpansWellFormedRow;
      var r, c := e.curRow, e.curCol;
      SplitKeepsWellFormed(e.grid[r], c);
      var g := SplitRowAt(e.grid, r, c);
      assert g[r+1] == e.grid[r][c..];
      forall i | 0 <= i < |g| && i != r + 1 ensures SpansWellFormedRow(g[i]) {
        assert g[i] == if i < r then e.grid[i] else if i == r then e.grid[r][..c] else e.grid[i-1];
      }
    }
  }

  /** A step keeps the spans well formed if and only if it cuts no group in two. */
  lemma StepWellFormed(e: Editor, mode: Strategy, op: Op)
    requires CursorInside(e) && GridWellFormed(e.grid)
    ensures GridWellFormed(Step(e, mode, op).grid) <==> Safe(e, mode, op)
  {
    hide GridWellFormed;
    match op {
      case Write(text) => WriteWellFormed(e, mode, text);
      case Print(texts) => PrintWellFormed(e, mode, texts);
      case Ln => LnWellFormed(e, mode);
      case Span(r, c, hor) =>
        if hor >= 2 {
          var r', c' := SpanTargetRow(e, r), SpanTargetCol(e, r, c);
          var row := PadRows(e.grid, r' + 1)[r'];
          PutRow(e.grid, r', row);
          assert PadRows(e.grid, r' + 1)[r' := row] == PadRows(e.grid, r' + 1);
          SpanKeepsWellFormed(row, c', hor, e.nextId);
          PutRow(e.grid, r', SpanRow(row, c', hor, e.nextId));
        }
    }
  }

  /** Asked for a span at the cursor, ft_set_cell_span takes FT_CUR_COLUMN for a column number. In a row within
      FT_MAX_COL_INDEX it makes the span meant exactly if the cursor stands in the row or column of that number. */
  lemma SpanAtCursor(e: Editor, hor: nat)
    requires CursorInside(e) && hor >= 2
    requires e.curRow < |e.grid| ==> |e.grid[e.curRow]| <= 0xFFFF_FFFE
    ensures SpanStep(e, 0xFFFF_FFFE, 0xFFFF_FFFE, hor) == SpanAt(e, e.curRow, e.curCol, hor)
            <==> e.curRow == 0xFFFF_FFFE || e.curCol == 0xFFFF_FFFE
    ensures e.curRow != 0xFFFF_FFFE ==> |SpanStep(e, 0xFFFF_FFFE, 0xFFFF_FFFE, hor).grid[e.curRow]| == 0xFFFF_FFFE + hor
  {
    hide SpanRow, PadRows;
    var g := PadRows(e.grid, e.curRow + 1);
    assert |SpanAt(e, e.curRow, e.curCol, hor).grid[e.curRow]| == Max(|g[e.curRow]|, e.curCol + hor);
  }

  /** Every operation of the run is safe in the state it meets. */
  predicate SafeRun(e: Editor, mode: Strategy, ops: seq<Op>)
    requires CursorInside(e)
    decreases |ops|
  {
    if ops == [] then true
    else
      StepKeepsCursor(e, mode, ops[0]);
      Safe(e, mode, ops[0]) && SafeRun(Step(e, mode, ops[0]), mode, ops[1..])
  }

  ghost predicate AlwaysWellFormed(e: Editor, mode: Strategy, ops: seq<Op>)
    requires CursorInside(e)
  {
    forall n :: 0 <= n <= |ops| ==> GridWellFormed(Run(e, mode, ops[..n]).grid)
  }

  lemma RunPrefix(e: Editor, mode: Strategy, ops: seq<Op>, n: nat)
    requires CursorInside(e) && n < |ops|
    ensures CursorInside(Step(e, mode, ops[0]))
    ensures Run(e, mode, ops[..n+1]) == Run(Step(e, mode, ops[0]), mode, ops[1..][..n])
  {
    hide Step, CursorInside;
    StepKeepsCursor(e, mode, ops[0]);
    assert ops[..n+1][0] == ops[0] && ops[..n+1][1..] == ops[1..][..n];
  }

  /** A run is always well formed if it starts so and what follows its first step is. */
  lemma AlwaysFirst(e: Editor, mode: Strategy, ops: seq<Op>)
    requires CursorInside(e) && GridWellFormed(e.grid) && ops != []
    ensures CursorInside(Step(e, mode, ops[0]))
    ensures AlwaysWellFormed(e, mode, ops) <==> AlwaysWellFormed(Step(e, mode, ops[0]), mode, ops[1..])
  {
    hide GridWellFormed, Step, CursorInside, Run;
    StepKeepsCursor(e, mode, ops[0]);
    var e', rest := Step(e, mode, ops[0]), ops[1..];
    forall n | 0 <= n < |ops| ensures Run(e, mode, ops[..n+1]) == Run(e', mode, rest[..n]) {
      RunPrefix(e, mode, ops, n);
    }
    if AlwaysWellFormed(e, mode, ops) {
      forall n | 0 <= n <= |rest| ensures GridWellFormed(Run(e', mode, rest[..n]).grid) {
        assert GridWellFormed(Run(e, mode, ops[..n+1]).grid);
      }
    }
    if AlwaysWellFormed(e', mode, rest) {
      forall n | 0 <= n <= |ops| ensures GridWellFormed(Run(e, mode, ops[..n]).grid) {
        if n == 0 {
          RunNothing(e, mode, ops);
        } else {
          assert GridWellFormed(Run(e', mode, rest[..n-1]).grid);
          assert ops[..n-1+1] == ops[..n];
        }
      }
    }
  }

  lemma RunNothing(e: Editor, mode: Strategy, ops: seq<Op>)
    requires CursorInside(e)
    ensures Run(e, mode, ops[..0]) == e
  {
  }

  /** The safe runs are exactly those in which the spans are well formed at every moment. */
  lemma {:induction false} RunWellFormed(e: Editor, mode: Strategy, ops: seq<Op>)
    requires CursorInside(e) && GridWellFormed(e.grid)
    ensures SafeRun(e, mode, ops) <==> AlwaysWellFormed(e, mode, ops)
    decreases |ops|
  {
    hide GridWellFormed, Safe, Step, CursorInside, Run;
    if ops == [] {
      RunNothing(e, mode, ops);
      assert ops == ops[..0];
    } else {
      StepWellFormed(e, mode, ops[0]);
      AlwaysFirst(e, mode, ops);
      var e', rest := Step(e, mode, ops[0]), ops[1..];
      if GridWellFormed(e'.grid) {
        RunWellFormed(e', mode, rest);
      } else {
        RunNothing(e', mode, rest);
        assert !GridWellFormed(Run(e', mode, rest[..0]).grid);
      }
    }
  }

  /** A line feed in insert mode with the cursor inside a group leaves its slaves in a row without their master. */
  lemma LineFeedInsideGroup()
    ensures var ops := [Op.Write("a"), Span(0, 0, 3), Ln];
      !SafeRun(NEW_TABLE, InsertMode, ops) && !GridWellFormed(Run(NEW_TABLE, InsertMode, ops).grid)
  {
    var a, b, c := Cell(0, "a", Common), Cell(1, "", Common), Cell(2, "", Common);
    var e1 := Step(NEW_TABLE, InsertMode, Op.Write("a"));
    PadRowsByOne([]);
    assert WriteRow([], InsertMode, 0, "a", 0) == [a];
    assert e1 == Editor([[a]], 0, 1, 1, multiset{});
    var e2 := Step(e1, InsertMode, Span(0, 0, 3));
    assert e2.grid[0] == [a.(kind := Master), b.(kind := Slave), c.(kind := Slave)];
    var e3 := Step(e2, InsertMode, Ln);
    assert e3.grid[1][0].kind.Slave?;
    var ops := [Op.Write("a"), Span(0, 0, 3), Ln];
    assert ops[1..] == [Span(0, 0, 3), Ln] && ops[1..][1..] == [Ln] && [Ln][1..] == [];
    assert Run(NEW_TABLE, InsertMode, ops) == Run(e1, InsertMode, [Span(0, 0, 3), Ln]) == Run(e2, InsertMode, [Ln])
      == e3;
    assert !Safe(e2, InsertMode, Ln);
  }
}
