/** Erasing a rectangle of a table: which cells go, which rows and separators stay, and that the books balance. */
module FortErase {
  import opened Sequences
  import opened FortModel
  import opened FortEditor

  /** Columns `left` to `right` taken out. */
  function EraseCols(row: Row, left: nat, right: nat): Row {
    if left >= |row| || right < left then row
    else row[..left] + if right + 1 < |row| then row[right+1..] else []
  }

  /** The columns erased: what EraseCols leaves out. */
  function CutCols(row: Row, left: nat, right: nat): Row {
    if left >= |row| || right < left then []
    else row[left..if right + 1 < |row| then right + 1 else |row|]
  }

  /** `s` without the elements `drop` marks. */
  function Compact<T>(s: seq<T>, drop: seq<bool>): (r: seq<T>)
    ensures |r| <= |s|
  {
    if s == [] then []
    else
      var k := |s| - 1;
      Compact(s[..k], drop) + if k < |drop| && drop[k] then [] else [s[k]]
  }

  /** The first `n` indices without those `drop` marks, in order. */
  function Kept(n: nat, drop: seq<bool>): (r: seq<nat>)
    ensures forall k :: 0 <= k < |r| ==> r[k] < n && !(r[k] < |drop| && drop[r[k]])
    ensures forall k, l :: 0 <= k < l < |r| ==> r[k] < r[l]
    ensures forall i :: 0 <= i < n && !(i < |drop| && drop[i]) ==> i in r
  {
    if n == 0 then []
    else Kept(n - 1, drop) + if n - 1 < |drop| && drop[n-1] then [] else [n - 1]
  }

  /** Compacting keeps the elements at exactly the kept indices, in their order. */
  lemma {:induction false} CompactKeeps<T>(s: seq<T>, drop: seq<bool>)
    ensures var kept := Kept(|s|, drop);
      |Compact(s, drop)| == |kept| && forall k :: 0 <= k < |kept| ==> Compact(s, drop)[k] == s[kept[k]]
  {
    if s == [] {
    } else {
      CompactKeeps(s[..|s|-1], drop);
    }
  }

  /** Nothing marked from `o` on: the tail stays. */
  lemma {:induction false} CompactTail<T>(s: seq<T>, drop: seq<bool>, o: nat)
    requires o <= |s| && forall k :: o <= k < |drop| && k < |s| ==> !drop[k]
    ensures Compact(s, drop) == Compact(s[..o], drop) + s[o..]
  {
    if |s| == o {
      assert s[..o] == s;
    } else {
      var k := |s| - 1;
      CompactTail(s[..k], drop, o);
      assert s[..k][..o] == s[..o] && s[o..] == s[..k][o..] + [s[k]];
    }
  }

  lemma CompactNone<T>(s: seq<T>, drop: seq<bool>)
    requires forall k :: 0 <= k < |drop| && k < |s| ==> !drop[k]
    ensures Compact(s, drop) == s
  {
    CompactTail(s, drop, 0);
  }

  /** How many are kept depends on the marks alone, and a longer sequence keeps at least as many. */
  lemma {:induction false} CompactLength<T, U>(s: seq<T>, t: seq<U>, drop: seq<bool>)
    requires |s| <= |t|
    ensures |Compact(s, drop)| <= |Compact(t, drop)|
    ensures |s| == |t| ==> |Compact(s, drop)| == |Compact(t, drop)|
    decreases |t|
  {
    if t == [] {
    } else {
      CompactLength(if |s| == |t| then s[..|s|-1] else s, t[..|t|-1], drop);
    }
  }

  /** Compacted up to `o`: where the in-place loop stands. */
  function Halfway<T>(s: seq<T>, drop: seq<bool>, o: nat): seq<T> {
    if o >= |s| then Compact(s, drop) else Compact(s[..o], drop) + s[o..]
  }

  lemma HalfwayAt<T>(s: seq<T>, drop: seq<bool>, o: nat)
    requires o <= |s|
    ensures Halfway(s, drop, o) == Compact(s[..o], drop) + s[o..]
  {
    hide Compact;
    if o == |s| { assert s[..o] == s; }
  }

  lemma CompactSnoc<T>(s: seq<T>, drop: seq<bool>, o: nat)
    requires o < |s|
    ensures Compact(s[..o+1], drop) == Compact(s[..o], drop) + if o < |drop| && drop[o] then [] else [s[o]]
  {
    assert s[..o+1][..o] == s[..o] && s[..o+1][o] == s[o];
  }

  /** The element `x` between two stretches. */
  lemma Between<T>(c: seq<T>, x: T, rest: seq<T>)
    ensures (c + ([x] + rest))[|c|] == x && RemoveAt(c + ([x] + rest), |c|) == c + rest
    ensures c + ([x] + rest) == (c + [x]) + rest
  {
  }

  /** One more element looked at: it is removed in place or passed over. */
  lemma HalfwayStep<T>(s: seq<T>, drop: seq<bool>, o: nat)
    requires o < |s|
    ensures var i := |Compact(s[..o], drop)|;
      && i < |Halfway(s, drop, o)| && Halfway(s, drop, o)[i] == s[o]
      && Halfway(s, drop, o + 1) == (if o < |drop| && drop[o] then RemoveAt(Halfway(s, drop, o), i)
                                      else Halfway(s, drop, o))
      && |Compact(s[..o+1], drop)| == (if o < |drop| && drop[o] then i else i + 1)
  {
    hide Compact, Halfway, RemoveAt;
    var c := Compact(s[..o], drop);
    HalfwayAt(s, drop, o);
    HalfwayAt(s, drop, o + 1);
    CompactSnoc(s, drop, o);
    assert s[o..] == [s[o]] + s[o+1..];
    Between(c, s[o], s[o+1..]);
    assert c + [] == c;
  }

  lemma HalfwayStart<T>(s: seq<T>, drop: seq<bool>, o: nat)
    requires forall k :: 0 <= k < o && k < |drop| ==> !drop[k]
    ensures Halfway(s, drop, o) == s && (o <= |s| ==> |Compact(s[..o], drop)| == o)
  {
    if o < |s| {
      CompactNone(s[..o], drop);
    } else {
      CompactNone(s, drop);
      assert s[..|s|] == s;
    }
  }

  lemma HalfwayEnd<T>(s: seq<T>, drop: seq<bool>, o: nat)
    requires forall k :: o <= k < |drop| ==> !drop[k]
    ensures Halfway(s, drop, o) == Compact(s, drop)
  {
    if o < |s| { CompactTail(s, drop, o); }
  }

  /** The separators take the same step as the rows, if there is one for the row at hand. */
  lemma HalfwayStepShort<T, U>(rows: seq<T>, seps: seq<U>, drop: seq<bool>, o: nat)
    requires o < |rows|
    ensures var i, h := |Compact(rows[..o], drop)|, Halfway(seps, drop, o);
      Halfway(seps, drop, o + 1) == if o < |drop| && drop[o] && i < |h| then RemoveAt(h, i) else h
  {
    if o < |seps| {
      HalfwayStep(seps, drop, o);
      CompactLength(seps[..o], rows[..o], drop);
    } else {
      CompactLength(seps, rows[..o], drop);
    }
  }

  /** Columns `left` to `right` taken out of rows `top` to `bottom`. */
  function EraseGrid(grid: seq<Row>, top: nat, left: nat, bottom: nat, right: nat): (erased: seq<Row>)
    ensures |erased| == |grid|
    ensures forall i :: 0 <= i < |grid| ==>
      erased[i] == if top <= i <= bottom then EraseCols(grid[i], left, right) else grid[i]
  {
    seq(|grid|, i requires 0 <= i < |grid| => if top <= i <= bottom then EraseCols(grid[i], left, right) else grid[i])
  }

  /** The chosen rows that end empty. */
  function DropEmpty(grid: seq<Row>, top: nat, bottom: nat): (drop: seq<bool>)
    ensures |drop| == |grid| && forall i :: 0 <= i < |grid| ==> (drop[i] <==> top <= i <= bottom && grid[i] == [])
  {
    seq(|grid|, i requires 0 <= i < |grid| => top <= i <= bottom && grid[i] == [])
  }

  /** The flag of separator `i`; a row never given one has none. */
  function SeparatorAt(seps: seq<bool>, i: nat): bool {
    i < |seps| && seps[i]
  }

  /** ft_erase_range as its caller sees it: the surviving rows are exactly the ones not emptied, in their order,
      each without the erased columns and with the separator it had. */
  lemma EraseKeepsPairs(grid: seq<Row>, seps: seq<bool>, top: nat, left: nat, bottom: nat, right: nat)
    requires left <= right
    ensures var erased := EraseGrid(grid, top, left, bottom, right);
      var drop := DropEmpty(erased, top, bottom);
      var kept, grid', seps' := Kept(|grid|, drop), Compact(erased, drop), Compact(seps, drop);
      && (forall i :: 0 <= i < |grid| ==>
          (i in kept <==> !(top <= i <= bottom && EraseCols(grid[i], left, right) == [])))
      && |grid'| == |kept|
      && (forall k :: 0 <= k < |kept| ==>
          (grid'[k] == erased[kept[k]] && SeparatorAt(seps', k) == SeparatorAt(seps, kept[k])))
  {
    var erased := EraseGrid(grid, top, left, bottom, right);
    var drop := DropEmpty(erased, top, bottom);
    hide Compact, EraseGrid, DropEmpty, EraseCols, Kept;
    CompactKeeps(erased, drop);
    CompactKeeps(seps, drop);
    if |seps| <= |grid| { KeptSplit(|grid|, |seps|, drop); } else { KeptSplit(|seps|, |grid|, drop); }
  }

  /** Kept indices below `m` come first, and behind them stand the kept ones from `m` on. */
  lemma {:induction false} KeptSplit(n: nat, m: nat, drop: seq<bool>)
    requires m <= n
    ensures |Kept(m, drop)| <= |Kept(n, drop)|
    ensures forall k :: 0 <= k < |Kept(m, drop)| ==> Kept(n, drop)[k] == Kept(m, drop)[k]
    ensures forall k :: |Kept(m, drop)| <= k < |Kept(n, drop)| ==> Kept(n, drop)[k] >= m
  {
    if m >= n {
    } else {
      KeptSplit(n - 1, m, drop);
    }
  }

  // ---------------------------------------------------------------- the cells destroyed

  /** The cells erased from the first `n` rows. */
  function CutBag(grid: seq<Row>, n: nat, top: nat, left: nat, bottom: nat, right: nat): multiset<nat>
    requires n <= |grid|
  {
    if n == 0 then multiset{}
    else
      CutBag(grid, n - 1, top, left, bottom, right)
      + if top <= n - 1 <= bottom then IdBag(CutCols(grid[n-1], left, right)) else multiset{}
  }

  /** ft_erase_range with explicit rows and columns; an inverted rectangle is refused. */
  function EraseAt(e: Editor, top: nat, left: nat, bottom: nat, right: nat): Editor {
    if top > bottom || left > right then e
    else
      var erased := EraseGrid(e.grid, top, left, bottom, right);
      e.(grid := Compact(erased, DropEmpty(erased, top, bottom)),
         destroyed := e.destroyed + CutBag(e.grid, |e.grid|, top, left, bottom, right))
  }

  /** What an argument of ft_erase_range stands for: the special value is the cursor's row, for columns too. */
  function EraseTarget(e: Editor, n: nat): nat {
    if n == CURRENT then e.curRow else n
  }

  /** ft_erase_range. */
  function EraseStep(e: Editor, top: nat, left: nat, bottom: nat, right: nat): Editor {
    EraseAt(e, EraseTarget(e, top), EraseTarget(e, left), EraseTarget(e, bottom), EraseTarget(e, right))
  }

  /** Where the counts of ft_erase_range do not wrap around: there is a row, the rectangle does not begin behind the
      rows, nor behind the cells of a row it touches. */
  ghost predicate Erasable(e: Editor, topLeftRow: nat, topLeftCol: nat, bottomRightRow: nat, bottomRightCol: nat) {
    var (top, left) := (EraseTarget(e, topLeftRow), EraseTarget(e, topLeftCol));
    var (bottom, right) := (EraseTarget(e, bottomRightRow), EraseTarget(e, bottomRightCol));
    top <= bottom && left <= right ==>
      && 0 < |e.grid| && top <= |e.grid|
      && forall i :: top <= i <= bottom && i < |e.grid| && e.grid[i] != [] ==> left <= |e.grid[i]|
  }

  lemma CutBalances(row: Row, left: nat, right: nat)
    ensures IdBag(EraseCols(row, left, right)) + IdBag(CutCols(row, left, right)) == IdBag(row)
  {
    hide IdBag;
    BagOfNone();
    if left < |row| && left <= right {
      var end := if right + 1 < |row| then right + 1 else |row|;
      BagAround(row[..left], row[left..end], row[end..]);
      BagAppend(row[..left], row[end..]);
      assert row == row[..left] + row[left..end] + row[end..];
      assert EraseCols(row, left, right) == row[..left] + row[end..];
    }
  }

  /** The erased cells and those that stay are those there were. */
  lemma {:induction false} GridBalances(grid: seq<Row>, n: nat, top: nat, left: nat, bottom: nat, right: nat)
    requires n <= |grid|
    ensures IdBag(Flatten(EraseGrid(grid, top, left, bottom, right)[..n])) + CutBag(grid, n, top, left, bottom, right)
            == IdBag(Flatten(grid[..n]))
  {
    hide IdBag, Flatten, EraseGrid, EraseCols, CutCols;
    var erased := EraseGrid(grid, top, left, bottom, right);
    if n == 0 {
      assert erased[..0] == grid[..0] == [];
    } else {
      var k := n - 1;
      GridBalances(grid, k, top, left, bottom, right);
      CutBalances(grid[k], left, right);
      LastRow(erased, k);
      LastRow(grid, k);
    }
  }

  lemma LastRow(grid: seq<Row>, k: nat)
    requires k < |grid|
    ensures IdBag(Flatten(grid[..k+1])) == IdBag(Flatten(grid[..k])) + IdBag(grid[k])
  {
    hide IdBag, Flatten;
    assert grid[..k+1] == grid[..k] + [grid[k]];
    FlattenSnoc(grid[..k], grid[k]);
    BagAppend(Flatten(grid[..k]), grid[k]);
  }

  /** Rows dropped because they are empty take no cell with them. */
  lemma {:induction false} CompactFlat(grid: seq<Row>, drop: seq<bool>)
    requires forall i :: 0 <= i < |grid| && i < |drop| && drop[i] ==> grid[i] == []
    ensures Flatten(Compact(grid, drop)) == Flatten(grid)
  {
    if grid == [] {
    } else {
      hide Flatten;
      var k := |grid| - 1;
      CompactFlat(grid[..k], drop);
      FlattenSnoc(grid[..k], grid[k]);
      assert grid == grid[..k] + [grid[k]];
      if k < |drop| && drop[k] {
        assert Compact(grid, drop) == Compact(grid[..k], drop) + [] == Compact(grid[..k], drop);
        assert Flatten(grid[..k]) + [] == Flatten(grid[..k]);
      } else {
        FlattenSnoc(Compact(grid[..k], drop), grid[k]);
      }
    }
  }

  lemma EraseAtKeepsAccounted(e: Editor, top: nat, left: nat, bottom: nat, right: nat)
    requires Accounted(e)
    ensures Accounted(EraseAt(e, top, left, bottom, right))
  {
    hide IdBag, Flatten, EraseGrid, Compact, DropEmpty, CutBag, IdRange;
    if top <= bottom && left <= right {
      var erased := EraseGrid(e.grid, top, left, bottom, right);
      var n := |e.grid|;
      GridBalances(e.grid, n, top, left, bottom, right);
      assert erased[..n] == erased && e.grid[..n] == e.grid;
      CompactFlat(erased, DropEmpty(erased, top, bottom));
      Moved(IdBag(Flatten(erased)), CutBag(e.grid, n, top, left, bottom, right), IdBag(Flatten(e.grid)), e.destroyed);
    }
  }

  lemma Moved(rest: multiset<nat>, cut: multiset<nat>, all: multiset<nat>, destroyed: multiset<nat>)
    requires rest + cut == all
    ensures rest + (destroyed + cut) == all + destroyed
  {
  }

  /** Erasing loses no cell either: each is still in its place of the table or was destroyed once. */
  lemma EraseKeepsAccounted(e: Editor, top: nat, left: nat, bottom: nat, right: nat)
    requires Accounted(e)
    ensures Accounted(EraseStep(e, top, left, bottom, right))
  {
    hide Accounted, EraseAt;
    EraseAtKeepsAccounted(e, EraseTarget(e, top), EraseTarget(e, left), EraseTarget(e, bottom), EraseTarget(e, right));
  }

  // ---------------------------------------------------------------- erasing at the cursor

  lemma CutCell(row: Row, c: nat)
    ensures IdBag(CutCols(row, c, c)) == if c < |row| then multiset{row[c].id} else multiset{}
  {
    hide IdBag;
    if c < |row| {
      assert CutCols(row, c, c) == [row[c]];
      BagOfOne(row[c]);
    } else {
      BagOfNone();
    }
  }

  /** One cell taken out of row `r`. */
  lemma {:induction false} CutOne(grid: seq<Row>, n: nat, r: nat, c: nat)
    requires n <= |grid|
    ensures CutBag(grid, n, r, c, r, c) == if r < n && c < |grid[r]| then multiset{grid[r][c].id} else multiset{}
  {
    hide IdBag, CutCols;
    if n == 0 {
    } else {
      CutOne(grid, n - 1, r, c);
      CutCell(grid[n-1], c);
      if n - 1 == r {
        assert CutBag(grid, n - 1, r, c, r, c) == multiset{};
      }
    }
  }

  /** Two cells of a row have different identities. */
  lemma RowIdsDiffer(e: Editor, r: nat, c: nat, d: nat)
    requires Accounted(e) && r < |e.grid| && c < d < |e.grid[r]|
    ensures e.grid[r][c].id != e.grid[r][d].id
  {
    AccountedMeans(e);
    FlattenAt(e.grid, r);
    hide *;
    IdsApart(Flatten(e.grid[..r]), e.grid[r], Flatten(e.grid[r+1..]), c, d);
  }

  lemma IdsApart(front: seq<Cell>, row: Row, back: seq<Cell>, c: nat, d: nat)
    requires c < d < |row|
    requires var ids := Ids(front + row + back); forall i, j :: 0 <= i < j < |ids| ==> ids[i] != ids[j]
    ensures row[c].id != row[d].id
  {
    hide Ids;
    var flat := front + row + back;
    assert flat[|front| + c] == row[c] && flat[|front| + d] == row[d];
    assert Ids(flat)[|front| + c] != Ids(flat)[|front| + d];
  }

  /** The erases of two single columns of a row differ if one of them destroys a cell. */
  lemma ErasesDiffer(e: Editor, r: nat, c: nat, d: nat)
    requires Accounted(e) && r < |e.grid| && c < d && c < |e.grid[r]|
    ensures e.destroyed + CutBag(e.grid, |e.grid|, r, c, r, c) != e.destroyed + CutBag(e.grid, |e.grid|, r, d, r, d)
  {
    var row := e.grid[r];
    CutOne(e.grid, |e.grid|, r, c);
    CutOne(e.grid, |e.grid|, r, d);
    if d < |row| { RowIdsDiffer(e, r, c, d); }
    hide CutBag, Accounted;
    var a, b := CutBag(e.grid, |e.grid|, r, c, r, c), CutBag(e.grid, |e.grid|, r, d, r, d);
    assert (e.destroyed + a)[row[c].id] != (e.destroyed + b)[row[c].id];
  }

  lemma ErasesNothing(grid: seq<Row>, r: nat, c: nat)
    requires r < |grid| ==> c >= |grid[r]|
    ensures EraseGrid(grid, r, c, r, c) == grid && CutBag(grid, |grid|, r, c, r, c) == multiset{}
  {
    CutOne(grid, |grid|, r, c);
  }

  /** Asked to erase the cell at the cursor, ft_erase_range takes the cursor's row for the column too. It erases the
      cell meant exactly if the cursor's row and column are the same number, or there is a cell in neither place. */
  lemma EraseAtCursor(e: Editor)
    requires Accounted(e)
    ensures EraseStep(e, 0xFFFF_FFFE, 0xFFFF_FFFE, 0xFFFF_FFFE, 0xFFFF_FFFE)
            == EraseAt(e, e.curRow, e.curCol, e.curRow, e.curCol)
            <==> e.curRow == e.curCol || e.curRow >= |e.grid|
                 || (e.curRow >= |e.grid[e.curRow]| && e.curCol >= |e.grid[e.curRow]|)
  {
    hide EraseGrid, Compact, DropEmpty, CutBag, Accounted;
    var r, c, grid := e.curRow, e.curCol, e.grid;
    if r >= |grid| || (r >= |grid[r]| && c >= |grid[r]|) {
      ErasesNothing(grid, r, r);
      ErasesNothing(grid, r, c);
    } else if r < c {
      ErasesDiffer(e, r, r, c);
    } else if c < r {
      ErasesDiffer(e, r, c, r);
    }
  }
}
