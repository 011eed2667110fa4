/** From a cell to the whole table: cell_printf, snprintf_row, print_row_separator, ft_to_string. */
module FortRender {
  import opened Sequences
  import opened FortText
  import opened FortModel
  import opened FortGeometry
  import opened FortLayout
  import opened FortBounds
  import opened FortBlank
  import opened FortPrint

  lemma Assoc(s: string, a: string, b: string)
    ensures (s + a) + b == s + (a + b)
  {
  }

  lemma AssocAligned(s: string, a: string, b: string, c: string, d: string, e: string, f: string)
    ensures (((s + (a + b)) + c) + (d + e)) + f == s + (a + b + c + d + e + f)
  {
  }

  lemma AssocBlank(s: string, a: string, b: string, c: string, d: string, e: string)
    ensures (s + (a + b + c)) + (d + e) == s + (a + b + c + d + e)
  {
  }

  lemma AssocText(s: string, a: string, b: string, c: string, d: string, e: string)
    ensures ((s + (a + b)) + c) + (d + e) == s + (a + b + c + d + e)
  {
  }

  lemma BufferLineLength(text: string, line: nat, vis: nat, p: CellProps)
    requires line < |Lines(text)| && TextWidth(text) <= vis
    ensures |BufferLine(text, line, vis, p)| == vis + |p.tags.content| + |p.tags.resetContent|
    ensures |Lines(text)[line]| <= TextWidth(text)
  {
    LongestIsMaximum(Lines(text));
  }

  /** The printing part of buffer_printf. */
  method PrintAligned(c: Conv, text: string, beg: nat, end: nat, left: nat, right: nat, padding: nat, tags: Tags)
    returns (ret: int)
    requires c.Valid() && beg <= end <= |text|
    requires left + |tags.content| + (end - beg) + |tags.resetContent| + padding + right < c.avail
    requires left + |tags.content| + (end - beg) + |tags.resetContent| + padding + right <= INT_MAX
    modifies c, c.buf
    ensures ret == left + |tags.content| + (end - beg) + |tags.resetContent| + padding + right
    ensures Wrote(c, old(c.Text()), old(c.avail),
              Spaces(left) + tags.content + text[beg..end] + tags.resetContent + Spaces(padding) + Spaces(right))
  {
    hide Spaces;
    ghost var before := c.Text();
    var written := 0;
    var tmp := PutSpacesAndTag(c, left, tags.content);
    if tmp < 0 { return -1; }
    written := written + tmp;
    tmp := NPrint(c, text, beg, end);
    if tmp < 0 { return -1; }
    written := written + tmp;
    tmp := PutTagAndSpaces(c, tags.resetContent, padding);
    if tmp < 0 { return -1; }
    written := written + tmp;
    tmp := PutSpaces(c, right);
    if tmp < 0 { return -1; }
    written := written + tmp;
    AssocAligned(before, Spaces(left), tags.content, text[beg..end], tags.resetContent, Spaces(padding), Spaces(right));
    ret := AsInt(written);
  }

  /** buffer_printf: one line of the content, aligned within `vis` bytes. */
  method BufferPrintf(c: Conv, text: string, line: nat, vis: nat, p: CellProps) returns (ret: int)
    requires c.Valid()
    requires vis + |p.tags.content| + |p.tags.resetContent| < c.avail
    requires vis + |p.tags.content| + |p.tags.resetContent| <= INT_MAX
    modifies c, c.buf
    ensures c.Valid()
    ensures ret >= 0 <==> line < TextHeight(text) && TextWidth(text) <= vis
    ensures ret >= 0 ==> (ret == |BufferLine(text, line, vis, p)|
      && Wrote(c, old(c.Text()), old(c.avail), BufferLine(text, line, vis, p)))
  {
    var height := VisibleHeight(text);
    if line >= height { return -1; }
    var contentWidth := VisibleWidth(text);
    if vis < contentWidth { return -1; }
    BufferLineLength(text, line, vis, p);
    var left := LeftFill(vis - contentWidth, p.align);
    var right := vis - contentWidth - left;
    var bounds := StrNSubstring(text, NEWLINE, line);
    if bounds.None? { return -1; }
    var (beg, end) := bounds.value;
    if contentWidth < end - beg { return -1; }
    var padding := contentWidth - (end - beg);
    ret := PrintAligned(c, text, beg, end, left, right, padding, p.tags);
  }

  /** The three tags in front of a padding line. */
  method PutTags(c: Conv, tags: Tags) returns (ret: int)
    requires c.Valid() && tags.Length() < c.avail && tags.Length() <= INT_MAX
    modifies c, c.buf
    ensures ret == |tags.cell| + |tags.content| + |tags.resetContent|
    ensures Wrote(c, old(c.Text()), old(c.avail), tags.cell + tags.content + tags.resetContent)
  {
    ghost var before := c.Text();
    var tmp := PutOnce(c, tags.cell);
    if tmp < 0 { return -1; }
    ret := tmp;
    tmp := PutOnce(c, tags.content);
    if tmp < 0 { return -1; }
    ret := ret + tmp;
    tmp := PutOnce(c, tags.resetContent);
    if tmp < 0 { return -1; }
    ret := ret + tmp;
    assert ((before + tags.cell) + tags.content) + tags.resetContent
      == before + (tags.cell + tags.content + tags.resetContent);
  }

  /** The padding branch of cell_printf. */
  method BlankPrintf(c: Conv, vis: nat, tags: Tags) returns (ret: int)
    requires c.Valid() && vis + tags.Length() < c.avail && vis + tags.Length() <= INT_MAX
    modifies c, c.buf
    ensures ret == vis + tags.Length() && Wrote(c, old(c.Text()), old(c.avail), BlankText(vis, tags))
  {
    ghost var before := c.Text();
    var bufLen := vis + |tags.cell| + |tags.resetCell| + |tags.content| + |tags.resetContent|;
    var written := PutTags(c, tags);
    if written < 0 { return -1; }
    var tmp := PutSpacesAndTag(c, bufLen - written - |tags.resetCell|, tags.resetCell);
    if tmp < 0 { return -1; }
    written := written + tmp;
    AssocBlank(before, tags.cell, tags.content, tags.resetContent, Spaces(vis), tags.resetCell);
    ret := AsInt(written);
  }

  /** The text branch of cell_printf; `inner` is the width without the side paddings. */
  method TextPrintf(c: Conv, text: string, line: nat, inner: nat, p: CellProps) returns (ret: int)
    requires c.Valid() && line < TextHeight(text) && TextWidth(text) <= inner
    requires inner + p.padLeft + p.padRight + p.tags.Length() < c.avail
    requires inner + p.padLeft + p.padRight + p.tags.Length() <= INT_MAX
    modifies c, c.buf
    ensures ret == inner + p.padLeft + p.padRight + p.tags.Length()
    ensures Wrote(c, old(c.Text()), old(c.avail), TextLine(text, line, inner, p))
  {
    hide BufferLine, Spaces, Lines, LongestOf;
    ghost var before := c.Text();
    BufferLineLength(text, line, inner, p);
    var written := PutTagAndSpaces(c, p.tags.cell, p.padLeft);
    if written < 0 { return -1; }
    var tmp := BufferPrintf(c, text, line, inner, p);
    if tmp < 0 { return -1; }
    written := written + tmp;
    tmp := PutSpacesAndTag(c, p.padRight, p.tags.resetCell);
    if tmp < 0 { return -1; }
    written := written + tmp;
    AssocText(before, p.tags.cell, Spaces(p.padLeft), BufferLine(text, line, inner, p), Spaces(p.padRight),
      p.tags.resetCell);
    ret := AsInt(written);
  }

  /** cell_printf: refuses exactly when the cell needs more than `vis`. */
  method CellPrintf(c: Conv, cell: Cell, line: nat, vis: nat, p: CellProps) returns (ret: int)
    requires c.Valid()
    requires CellVisWidth(cell, p) <= vis ==> vis + p.tags.Length() < c.avail && vis + p.tags.Length() <= INT_MAX
    modifies c, c.buf
    ensures c.Valid()
    ensures ret >= 0 <==> CellVisWidth(cell, p) <= vis
    ensures ret >= 0 ==> (ret == vis + p.tags.Length()
      && Wrote(c, old(c.Text()), old(c.avail), CellLine(cell, p, line, vis)))
  {
    hide BufferLine, Spaces, Lines, LongestOf;
    var textWidth := VisibleWidth(cell.text);
    if vis < Max(p.padLeft + p.padRight + textWidth, p.minWidth) { return -1; }
    var textHeight := VisibleHeight(cell.text);
    var hint := p.padTop + p.padBottom + if textHeight == 0 then p.emptyHeight else textHeight;
    if line >= hint || line < p.padTop || line >= p.padTop + textHeight {
      ret := BlankPrintf(c, vis, p.tags);
    } else {
      ret := TextPrintf(c, cell.text, line - p.padTop, vis - p.padLeft - p.padRight, p);
    }
  }

  /** There is room in `c` for `n` bytes and a terminator, and an int can count them. */
  ghost predicate RoomFor(c: Conv, n: nat)
    reads c
  {
    n < c.avail && n <= INT_MAX
  }

  /** The body of the column loop of snprintf_row: one cell with the columns it spans, or the spaces for a
      missing one. `next` is the column after it. */
  method PrintHead(c: Conv, v: View, r: nat, line: nat, w: seq<nat>, j: nat) returns (ret: int, next: nat)
    requires c.Valid() && r < |v.rows| && |v.rows[r]| <= |w| && j < |w|
    requires RoomFor(c, |HeadCell(v, r, line, w, j)|)
    modifies c, c.buf
    ensures c.Valid() && next == j + StepSize(v.rows[r], j)
    ensures ret >= 0 <==> (j < |v.rows[r]| ==> HeadFits(v, r, w, j))
    ensures ret >= 0 ==> (ret == |HeadCell(v, r, line, w, j)|
      && Wrote(c, old(c.Text()), old(c.avail), HeadCell(v, r, line, w, j)))
  {
    if j < |v.rows[r]| {
      var g := GroupCellNumber(v.rows[r], j);
      var vis := MeasureGroup(w, j, g);
      next := j + g;
      CellLineLength(v.rows[r][j], v.props(r, j), line, vis);
      ret := CellPrintf(c, v.rows[r][j], line, vis, v.props(r, j));
    } else {
      next := j + 1;
      ret := PutSpaces(c, w[j]);
    }
  }

  /** The cell printed at column `j` and the boundary after it. */
  ghost function RowPiece(v: View, r: nat, line: nat, w: seq<nat>, j: nat): string
    requires r < |v.rows| && |v.rows[r]| <= |w| && j < |w|
  {
    HeadCell(v, r, line, w, j) + if j + StepSize(v.rows[r], j) < |w| then RowBorders(v, r).iv else ""
  }

  /** What is left to print from column `j` on. */
  ghost function RowRest(v: View, r: nat, line: nat, w: seq<nat>, j: nat): string
    requires r < |v.rows| && |v.rows[r]| <= |w| && j <= |w|
  {
    Walk(Heads(v, r, line, w), Steps(v.rows[r], |w|), RowBorders(v, r).iv, j)
  }

  lemma RowStart(v: View, r: nat, line: nat, w: seq<nat>)
    requires r < |v.rows| && |v.rows[r]| <= |w|
    ensures "" + RowRest(v, r, line, w, 0) == RowCells(v, r, line, w)
  {
  }

  lemma RowEnd(v: View, r: nat, line: nat, w: seq<nat>)
    requires r < |v.rows| && |v.rows[r]| <= |w|
    ensures RowRest(v, r, line, w, |w|) == "" && RowFits(v, r, w, |w|)
  {
  }

  lemma RowStep(v: View, r: nat, line: nat, w: seq<nat>, j: nat, walked: string)
    requires r < |v.rows| && |v.rows[r]| <= |w| && j < |w|
    requires walked + RowRest(v, r, line, w, j) == RowCells(v, r, line, w)
    ensures var next := j + StepSize(v.rows[r], j);
      && next <= |w|
      && (walked + RowPiece(v, r, line, w, j)) + RowRest(v, r, line, w, next) == RowCells(v, r, line, w)
      && |walked| + |RowPiece(v, r, line, w, j)| <= |RowCells(v, r, line, w)|
      && (RowFits(v, r, w, j) <==> (j < |v.rows[r]| ==> HeadFits(v, r, w, j)) && RowFits(v, r, w, next))
  {
    hide HeadCell, HeadFits;
    var next := j + StepSize(v.rows[r], j);
    assert Steps(v.rows[r], |w|)[j] == StepSize(v.rows[r], j);
    assert RowRest(v, r, line, w, j) == RowPiece(v, r, line, w, j) + RowRest(v, r, line, w, next);
    Assoc(walked, RowPiece(v, r, line, w, j), RowRest(v, r, line, w, next));
  }

  /** One step of the column loop: the cell and the boundary after it. */
  method PrintStep(c: Conv, v: View, r: nat, line: nat, w: seq<nat>, j: nat, ghost piece: string)
    returns (ret: int, next: nat)
    requires c.Valid() && r < |v.rows| && |v.rows[r]| <= |w| && j < |w|
    requires piece == RowPiece(v, r, line, w, j)
    requires RoomFor(c, |piece|)
    modifies c, c.buf
    ensures c.Valid() && next == j + StepSize(v.rows[r], j)
    ensures ret >= 0 <==> (j < |v.rows[r]| ==> HeadFits(v, r, w, j))
    ensures ret >= 0 ==> ret == |piece| && Wrote(c, old(c.Text()), old(c.avail), piece)
  {
    ghost var before := c.Text();
    ret, next := PrintHead(c, v, r, line, w, j);
    if ret < 0 { return; }
    if next - 1 < |w| - 1 {
      var tmp := PutOnce(c, RowBorders(v, r).iv);
      if tmp < 0 { return tmp, next; }
      Assoc(before, HeadCell(v, r, line, w, j), RowBorders(v, r).iv);
      ret := ret + tmp;
    } else {
      assert piece == HeadCell(v, r, line, w, j);
    }
  }

  /** The column loop of snprintf_row. */
  method PrintRowCells(c: Conv, v: View, r: nat, line: nat, w: seq<nat>) returns (ret: int)
    requires c.Valid() && r < |v.rows| && |v.rows[r]| <= |w|
    requires RoomFor(c, |RowCells(v, r, line, w)|)
    modifies c, c.buf
    ensures c.Valid()
    ensures ret >= 0 <==> RowFits(v, r, w, 0)
    ensures ret >= 0 ==> (ret == |RowCells(v, r, line, w)|
      && Wrote(c, old(c.Text()), old(c.avail), RowCells(v, r, line, w)))
  {
    hide HeadCell, HeadFits, RowFits, RowPiece, StepSize, RowRest, RowCells;
    RowStart(v, r, line, w);
    ghost var before, walked := c.Text(), "";
    var j, written: nat := 0, 0;
    while j < |w|
      invariant j <= |w| && written == |walked|
      invariant Wrote(c, before, old(c.avail), walked)
      invariant walked + RowRest(v, r, line, w, j) == RowCells(v, r, line, w)
      invariant RowFits(v, r, w, 0) <==> RowFits(v, r, w, j)
      decreases |w| - j
    {
      ghost var piece := RowPiece(v, r, line, w, j);
      RowStep(v, r, line, w, j, walked);
      var tmp, next := PrintStep(c, v, r, line, w, j, piece);
      if tmp < 0 { return -1; }
      Assoc(before, walked, piece);
      walked := walked + piece;
      written := written + tmp;
      j := next;
    }
    RowEnd(v, r, line, w);
    assert walked + "" == walked;
    ret := written;
  }

  lemma AssocRow(s: string, a: string, b: string, cells: string, d: string, e: string, f: string)
    ensures (((s + (a + b)) + cells) + (d + e)) + f == s + (a + b + cells + d + e + f)
  {
  }

  /** One line of snprintf_row. */
  method PrintRowLine(c: Conv, v: View, r: nat, line: nat, w: seq<nat>) returns (ret: int)
    requires c.Valid() && r < |v.rows| && |v.rows[r]| <= |w|
    requires RoomFor(c, |RowLine(v, r, line, w)|)
    modifies c, c.buf
    ensures c.Valid()
    ensures ret >= 0 <==> RowFits(v, r, w, 0)
    ensures ret >= 0 ==> (ret == |RowLine(v, r, line, w)|
      && Wrote(c, old(c.Text()), old(c.avail), RowLine(v, r, line, w)))
  {
    ghost var before := c.Text();
    var b := RowBorders(v, r);
    ghost var cells := RowCells(v, r, line, w);
    ret := PutSpacesAndTag(c, v.left, b.ll);
    if ret < 0 { return; }
    var tmp := PrintRowCells(c, v, r, line, w);
    if tmp < 0 { return -1; }
    ret := ret + tmp;
    tmp := PutTagAndSpaces(c, b.rr, v.right);
    if tmp < 0 { return -1; }
    ret := ret + tmp;
    tmp := PutOnce(c, "\n");
    if tmp < 0 { return -1; }
    ret := ret + tmp;
    AssocRow(before, Spaces(v.left), b.ll, cells, b.rr, Spaces(v.right), "\n");
  }

  lemma {:induction false} RowLinesGrow(v: View, r: nat, w: seq<nat>, i: nat, n: nat)
    requires r < |v.rows| && |v.rows[r]| <= |w| && i <= n
    ensures |Flatten(RowLines(v, r, w, i))| <= |Flatten(RowLines(v, r, w, n))|
  {
    if i >= n {
    } else {
      RowLinesGrow(v, r, w, i, n - 1);
      FlattenSnoc(RowLines(v, r, w, n - 1), RowLine(v, r, n - 1, w));
    }
  }

  /** As long as no byte was written, the buffer is as it was: there is not even a terminator. */
  ghost predicate UntouchedIfStill(c: Conv, pos: nat, was: seq<char>)
    reads c, c.buf
  {
    c.pos == pos ==> c.buf[..] == was
  }

  lemma RowLineSome(v: View, r: nat, line: nat, w: seq<nat>)
    requires r < |v.rows| && |v.rows[r]| <= |w|
    ensures RowLine(v, r, line, w) != ""
  {
    hide Spaces, RowCells;
  }

  /** snprintf_row: fails exactly when the row has more cells than there are widths, or a line to print and in it a
      cell that is refused. */
  method SnprintfRow(c: Conv, v: View, r: nat, w: seq<nat>, height: nat) returns (ret: int)
    requires c.Valid() && r < |v.rows|
    requires |v.rows[r]| <= |w| ==> RoomFor(c, |Flatten(RowLines(v, r, w, height))|)
    modifies c, c.buf
    ensures c.Valid()
    ensures ret >= 0 <==> |v.rows[r]| <= |w| && (height == 0 || RowFits(v, r, w, 0))
    ensures ret >= 0 ==> Wrote(c, old(c.Text()), old(c.avail), Flatten(RowLines(v, r, w, height)))
    ensures ret >= 0 ==> UntouchedIfStill(c, old(c.pos), old(c.buf[..]))
  {
    hide RowLine, RowFits;
    if |v.rows[r]| > |w| { return -1; }
    ghost var before, done := c.Text(), "";
    var written: nat := 0;
    for i := 0 to height
      invariant done == Flatten(RowLines(v, r, w, i)) && written == |done|
      invariant if i == 0 then c.buf[..] == old(c.buf[..]) else done != ""
      invariant Wrote(c, before, old(c.avail), done)
      invariant i > 0 ==> RowFits(v, r, w, 0)
    {
      ghost var text := RowLine(v, r, i, w);
      RowLineSome(v, r, i, w);
      FlattenSnoc(RowLines(v, r, w, i), text);
      RowLinesGrow(v, r, w, i + 1, height);
      var tmp := PrintRowLine(c, v, r, i, w);
      if tmp < 0 { return -1; }
      Assoc(before, done, text);
      done := done + text;
      written := written + tmp;
    }
    ret := AsInt(written);
  }

  // ---------------------------------------------------------------- separators

  /** get_row_cell_types, and the virtual slaves of a row that does not exist. */
  method RowCellTypes(v: View, r: int, cols: nat) returns (types: array<CellType>)
    ensures fresh(types) && types.Length == cols
    ensures forall i :: 0 <= i < cols ==> types[i] == KindAt(v, r, i)
  {
    types := new CellType[cols];
    for i := 0 to cols
      invariant forall k :: 0 <= k < i ==> types[k] == KindAt(v, r, k)
    {
      if r < 0 || r >= |v.rows| {
        types[i] := Slave;
      } else if i < |v.rows[r]| {
        types[i] := v.rows[r][i].kind;
      } else {
        types[i] := Common;
      }
    }
  }

  lemma {:induction false} SeparatorCellsGrow(v: View, k: nat, b: SepBorder, w: seq<nat>, i: nat, n: nat)
    requires i <= n <= |w|
    ensures |SeparatorCells(v, k, b, w, i)| <= |SeparatorCells(v, k, b, w, n)|
  {
    if i >= n {
    } else {
      SeparatorCellsGrow(v, k, b, w, i, n - 1);
    }
  }

  /** One column of a separator: the junction and the fill. */
  method PrintJunction(c: Conv, junction: string, fill: string, n: nat) returns (ret: int)
    requires c.Valid() && RoomFor(c, |junction| + |Repeat(fill, n)|)
    modifies c, c.buf
    ensures ret == |junction| + |Repeat(fill, n)|
    ensures Wrote(c, old(c.Text()), old(c.avail), junction + Repeat(fill, n))
  {
    ghost var before := c.Text();
    ret := PutOnce(c, junction);
    if ret < 0 { return; }
    var tmp := PrintNStrings(c, n, fill);
    if tmp < 0 { return -1; }
    Assoc(before, junction, Repeat(fill, n));
    ret := ret + tmp;
  }

  lemma SeparatorCellsStep(v: View, k: nat, b: SepBorder, w: seq<nat>, i: nat)
    requires i < |w|
    ensures SeparatorCells(v, k, b, w, i + 1)
      == SeparatorCells(v, k, b, w, i) + (Junction(v, k, b, i) + Repeat(b.i, w[i]))
    ensures |SeparatorCells(v, k, b, w, i + 1)| <= |SeparatorCells(v, k, b, w, |w|)|
  {
    Assoc(SeparatorCells(v, k, b, w, i), Junction(v, k, b, i), Repeat(b.i, w[i]));
    SeparatorCellsGrow(v, k, b, w, i + 1, |w|);
  }

  /** The column loop of print_row_separator_impl. */
  method PrintSeparatorCells(c: Conv, v: View, k: nat, b: SepBorder, w: seq<nat>) returns (ret: int)
    requires c.Valid() && RoomFor(c, |SeparatorCells(v, k, b, w, |w|)|)
    modifies c, c.buf
    ensures ret == |SeparatorCells(v, k, b, w, |w|)|
    ensures Wrote(c, old(c.Text()), old(c.avail), SeparatorCells(v, k, b, w, |w|))
  {
    hide JunctionFor, KindAt;
    ghost var before, done := c.Text(), "";
    var topTypes := RowCellTypes(v, k - 1, |w|);
    var bottomTypes := RowCellTypes(v, k, |w|);
    var written: nat := 0;
    for i := 0 to |w|
      invariant done == SeparatorCells(v, k, b, w, i) && written == |done|
      invariant Wrote(c, before, old(c.avail), done)
      invariant forall j :: 0 <= j < |w| ==> topTypes[j] == KindAt(v, k - 1, j) && bottomTypes[j] == KindAt(v, k, j)
    {
      var junction := JunctionFor(b, i, topTypes[i], bottomTypes[i]);
      SeparatorCellsStep(v, k, b, w, i);
      var tmp := PrintJunction(c, junction, b.i, w[i]);
      if tmp < 0 { return -1; }
      Assoc(before, done, junction + Repeat(b.i, w[i]));
      done := done + (junction + Repeat(b.i, w[i]));
      written := written + tmp;
    }
    ret := written;
  }

  lemma AssocSeparator(s: string, a: string, cells: string, d: string, e: string, f: string)
    ensures (((s + a) + cells) + (d + e)) + f == s + (a + cells + d + e + f)
  {
  }

  method PrintSeparatorLine(c: Conv, v: View, k: nat, w: seq<nat>) returns (ret: int)
    requires c.Valid() && RoomFor(c, |SeparatorLine(v, k, w)|)
    modifies c, c.buf
    ensures ret == |SeparatorLine(v, k, w)|
    ensures Wrote(c, old(c.Text()), old(c.avail), SeparatorLine(v, k, w))
  {
    hide SeparatorCells, SeparatorBorder, Spaces;
    ghost var before := c.Text();
    var b := SeparatorBorder(v, k);
    ghost var cells := SeparatorCells(v, k, b, w, |w|);
    ret := PutSpaces(c, v.left);
    if ret < 0 { return; }
    var tmp := PrintSeparatorCells(c, v, k, b, w);
    if tmp < 0 { return -1; }
    ret := ret + tmp;
    tmp := PutTagAndSpaces(c, b.r, v.right);
    if tmp < 0 { return -1; }
    ret := ret + tmp;
    tmp := PutOnce(c, "\n");
    if tmp < 0 { return -1; }
    ret := ret + tmp;
    AssocSeparator(before, Spaces(v.left), cells, b.r, Spaces(v.right), "\n");
  }

  lemma SeparatorLineSome(v: View, k: nat, w: seq<nat>)
    ensures SeparatorLine(v, k, w) != ""
  {
    hide Spaces, SeparatorCells;
  }

  /** print_row_separator: never fails where there is room; writes nothing when its strings are unprintable. */
  method PrintRowSeparator(c: Conv, v: View, k: nat, w: seq<nat>) returns (ret: int)
    requires c.Valid() && RoomFor(c, |Flatten(SeparatorLines(v, k, w))|)
    modifies c, c.buf
    ensures ret >= 0 && Wrote(c, old(c.Text()), old(c.avail), Flatten(SeparatorLines(v, k, w)))
    ensures UntouchedIfStill(c, old(c.pos), old(c.buf[..]))
  {
    SeparatorLineSome(v, k, w);
    hide SeparatorLine, SeparatorBorder;
    var b := SeparatorBorder(v, k);
    if Skipped(b) {
      assert c.Text() + "" == c.Text();
      return 0;
    }
    FlattenSnoc([], SeparatorLine(v, k, w));
    assert [] + [SeparatorLine(v, k, w)] == [SeparatorLine(v, k, w)];
    assert "" + SeparatorLine(v, k, w) == SeparatorLine(v, k, w);
    var written := PrintSeparatorLine(c, v, k, w);
    ret := AsInt(written);
  }

  // ---------------------------------------------------------------- the table

  lemma {:induction false} MarginGrows(width: nat, i: nat, n: nat)
    requires width >= 1 && i <= n
    ensures |Flatten(MarginLines(width, i))| <= |Flatten(MarginLines(width, n))|
  {
    if i >= n {
    } else {
      MarginGrows(width, i, n - 1);
      FlattenSnoc(MarginLines(width, n - 1), Spaces(width - 1) + "\n");
    }
  }

  /** A margin loop of ft_to_string_impl. */
  method PrintMargin(c: Conv, width: nat, n: nat) returns (ret: int)
    requires c.Valid() && width >= 1 && RoomFor(c, |Flatten(MarginLines(width, n))|)
    modifies c, c.buf
    ensures ret >= 0 && Wrote(c, old(c.Text()), old(c.avail), Flatten(MarginLines(width, n)))
    ensures UntouchedIfStill(c, old(c.pos), old(c.buf[..]))
  {
    hide Spaces;
    ghost var before, done := c.Text(), "";
    for i := 0 to n
      invariant done == Flatten(MarginLines(width, i))
      invariant if i == 0 then c.buf[..] == old(c.buf[..]) else done != ""
      invariant Wrote(c, before, old(c.avail), done)
    {
      FlattenSnoc(MarginLines(width, i), Spaces(width - 1) + "\n");
      MarginGrows(width, i + 1, n);
      var tmp := PutSpaces(c, width - 1);
      if tmp < 0 { return -1; }
      tmp := PutOnce(c, "\n");
      if tmp < 0 { return -1; }
      Assoc(before + done, Spaces(width - 1), "\n");
      Assoc(before, done, Spaces(width - 1) + "\n");
      done := done + (Spaces(width - 1) + "\n");
    }
    ret := 0;
  }

  /** One turn of the row loop of ft_to_string_impl. */
  method PrintStrip(c: Conv, v: View, r: nat, w: seq<nat>, height: nat) returns (ret: int)
    requires c.Valid() && |w| == Cols(v) && r < |v.rows| && height == RowHeight(v, r)
    requires RoomFor(c, |Flatten(Strip(v, w, r))|)
    modifies c, c.buf
    ensures c.Valid()
    ensures |v.rows[r]| <= |w| && (ret >= 0 <==> height == 0 || RowFits(v, r, w, 0))
    ensures ret >= 0 ==> Wrote(c, old(c.Text()), old(c.avail), Flatten(Strip(v, w, r)))
    ensures ret >= 0 ==> UntouchedIfStill(c, old(c.pos), old(c.buf[..]))
  {
    hide RowFits, SeparatorLines, RowLines, RowHeight;
    RowWithinCols(v.rows, |v.rows|, r);
    ghost var before := c.Text();
    FlattenAppend(SeparatorLines(v, r, w), RowLines(v, r, w, height));
    ret := PrintRowSeparator(c, v, r, w);
    if ret < 0 { return; }
    ret := SnprintfRow(c, v, r, w, height);
    if ret < 0 { return; }
    Assoc(before, Flatten(SeparatorLines(v, r, w)), Flatten(RowLines(v, r, w, height)));
  }

  function StripText(v: View, w: seq<nat>, n: nat): string
    requires |w| == Cols(v) && n <= |v.rows|
  {
    Flatten(Flatten(Strips(v, w, n)))
  }

  lemma StripTextStep(v: View, w: seq<nat>, n: nat)
    requires |w| == Cols(v) && n < |v.rows|
    ensures StripText(v, w, n + 1) == StripText(v, w, n) + Flatten(Strip(v, w, n))
  {
    hide Strip;
    assert Strips(v, w, n + 1) == Strips(v, w, n) + [Strip(v, w, n)];
    FlattenSnoc(Strips(v, w, n), Strip(v, w, n));
    FlattenAppend(Flatten(Strips(v, w, n)), Strip(v, w, n));
  }

  lemma {:induction false} StripTextGrows(v: View, w: seq<nat>, i: nat, n: nat)
    requires |w| == Cols(v) && i <= n <= |v.rows|
    ensures |StripText(v, w, i)| <= |StripText(v, w, n)|
  {
    hide StripText;
    if i >= n {
    } else {
      StripTextGrows(v, w, i, n - 1);
      StripTextStep(v, w, n - 1);
    }
  }

  /** The row loop of ft_to_string_impl. */
  method PrintStrips(c: Conv, v: View, w: seq<nat>, rowH: array<nat>) returns (ret: int)
    requires c.Valid() && |w| == Cols(v) && w == ColWidths(v, Visible) && rowH.Length == |v.rows|
    requires forall r :: 0 <= r < |v.rows| ==> rowH[r] == RowHeight(v, r)
    requires RoomFor(c, |StripText(v, w, |v.rows|)|)
    modifies c, c.buf
    ensures c.Valid()
    ensures ret >= 0 <==> Printable(v)
    ensures ret >= 0 ==> Wrote(c, old(c.Text()), old(c.avail), StripText(v, w, |v.rows|))
    ensures ret >= 0 ==> UntouchedIfStill(c, old(c.pos), old(c.buf[..]))
  {
    hide RowFits, Strip, StripText, RowHeight, ColWidths;
    StripTextStart(v, w);
    ghost var before, done := c.Text(), "";
    for r := 0 to |v.rows|
      invariant done == StripText(v, w, r)
      invariant Wrote(c, before, old(c.avail), done)
      invariant UntouchedIfStill(c, old(c.pos), old(c.buf[..]))
      invariant forall k :: 0 <= k < |v.rows| ==> rowH[k] == RowHeight(v, k)
      invariant forall k :: 0 <= k < r && RowHeight(v, k) > 0 ==> RowPrintable(v, k)
    {
      StripTextStep(v, w, r);
      StripTextGrows(v, w, r + 1, |v.rows|);
      var tmp := PrintStrip(c, v, r, w, rowH[r]);
      if tmp < 0 {
        assert RowHeight(v, r) > 0 && !RowPrintable(v, r);
        return -1;
      }
      Assoc(before, done, Flatten(Strip(v, w, r)));
      done := done + Flatten(Strip(v, w, r));
    }
    ret := 0;
  }

  lemma StripTextStart(v: View, w: seq<nat>)
    requires |w| == Cols(v)
    ensures StripText(v, w, 0) == ""
  {
  }

  lemma RenderPieces(v: View)
    ensures var w := ColWidths(v, Visible);
      Render(v) == Flatten(MarginLines(ReservedWidth(v), v.top)) + StripText(v, w, |v.rows|)
                   + Flatten(SeparatorLines(v, |v.rows|, w)) + Flatten(MarginLines(ReservedWidth(v), v.bottom))
  {
    var w := ColWidths(v, Visible);
    hide ColWidths, SeparatorLines, MarginLines, ReservedWidth, Strips;
    var top, body := MarginLines(ReservedWidth(v), v.top), BodyLines(v, w);
    var last, bottom := SeparatorLines(v, |v.rows|, w), MarginLines(ReservedWidth(v), v.bottom);
    FlattenAppend(top, body);
    FlattenAppend(top + body, last);
    FlattenAppend(top + body + last, bottom);
  }

  lemma ReservedSize(v: View)
    ensures Reserved(v) == ReservedHeight(v) * ReservedWidth(v) + 1
    ensures ReservedHeight(v) * ReservedWidth(v) >= 0
  {
    TimesIsProduct(ReservedWidth(v), ReservedHeight(v));
  }

  /** From the top margin to the bottom margin. */
  method PrintTable(c: Conv, v: View, codWidth: nat, w: seq<nat>, rowH: array<nat>) returns (ret: int)
    requires c.Valid() && w == ColWidths(v, Visible) && codWidth == ReservedWidth(v) && rowH.Length == |v.rows|
    requires forall r :: 0 <= r < |v.rows| ==> rowH[r] == RowHeight(v, r)
    requires RoomFor(c, |Render(v)|)
    modifies c, c.buf
    ensures c.Valid() && (ret >= 0 <==> Printable(v))
    ensures ret >= 0 ==> Wrote(c, old(c.Text()), old(c.avail), Render(v))
    ensures ret >= 0 ==> UntouchedIfStill(c, old(c.pos), old(c.buf[..]))
  {
    RenderPieces(v);
    hide ColWidths, SeparatorLines, MarginLines, ReservedWidth, StripText, Render, Printable, RowHeight;
    ghost var t0, t1 := Flatten(MarginLines(codWidth, v.top)), StripText(v, w, |v.rows|);
    ghost var t2, t3 := Flatten(SeparatorLines(v, |v.rows|, w)), Flatten(MarginLines(codWidth, v.bottom));
    ghost var before := c.Text();
    ret := PrintMargin(c, codWidth, v.top);
    if ret < 0 { return; }
    ret := PrintStrips(c, v, w, rowH);
    if ret < 0 { return; }
    ret := PrintRowSeparator(c, v, |v.rows|, w);
    if ret < 0 { return; }
    ret := PrintMargin(c, codWidth, v.bottom);
    if ret < 0 { return; }
    AssocRender(before, t0, t1, t2, t3);
  }

  /** What ft_to_string yields: nothing for a table without rows. */
  datatype Outcome = Failed | EmptyString | InBuffer(length: nat)

  /** The buffer a table keeps for its string representation. */
  class Renderer {
    var conv: array?<char>

    constructor ()
      ensures conv == null
    {
      conv := null;
    }

    /** create_string_buffer on first use, which starts with the empty text, then doubling until the estimate fits,
        which starts with whatever the memory holds. */
    method Reserve(n: nat) returns (buf: array<char>)
      requires n >= 1 && (conv != null ==> conv.Length >= 1)
      modifies this
      ensures conv == buf && buf.Length >= n
      ensures if old(conv) != null && old(conv.Length) >= n then conv == old(conv) else fresh(conv)
      ensures old(conv) == null ==> buf[0] == '\0'
    {
      if conv == null {
        conv := new char[n];
        conv[0] := '\0';
      }
      buf := conv;
      while buf.Length < n
        invariant conv == buf && buf.Length >= 1
        invariant buf == old(conv) || fresh(buf)
        invariant buf == old(conv) || old(conv) == null || old(conv.Length) < n
        invariant old(conv) == null ==> buf.Length >= n && buf[0] == '\0'
        decreases n - buf.Length
      {
        buf := new char[buf.Length * 2];
        conv := buf;
      }
    }

    /** ft_to_string_impl for a byte buffer. It fails exactly when some printed cell is refused the width it
        is given; it never runs out of the room it reserved. A terminator follows the text if and only if there is
        something to print, or the buffer already began with one. */
    method ToString(v: View) returns (r: Outcome)
      requires RoomForTags(v) && Reserved(v) <= INT_MAX
      requires conv != null ==> conv.Length >= 1
      modifies this, conv
      ensures conv != null && conv.Length >= Reserved(v)
      ensures r.EmptyString? <==> |v.rows| == 0
      ensures r.Failed? <==> |v.rows| > 0 && !Printable(v)
      ensures r.InBuffer? ==> r.length == |Render(v)| < conv.Length && conv[..r.length] == Render(v)
      ensures if old(conv) != null && old(conv.Length) >= Reserved(v) then conv == old(conv) else fresh(conv)
      ensures r.InBuffer? && (old(conv) == null || !NothingToPrint(v)) ==> conv[r.length] == '\0'
      ensures r.InBuffer? && old(conv) != null && NothingToPrint(v) && old(conv.Length) >= Reserved(v) ==>
        conv[..] == old(conv[..])
    {
      RenderFits(v);
      EmptyText(v);
      hide ColWidths, ReservedWidth, ReservedHeight, Reserved, Render;
      hide Printable, RowHeight, RoomForTags, NothingToPrint;
      var codHeight, codWidth := TableGeometry(v);
      ReservedSize(v);
      var buf := Reserve(codHeight * codWidth + 1);
      var colW, rowH := RowsAndColsGeometry(v, Visible);
      if |v.rows| == 0 { return EmptyString; }
      var c := new Conv(buf);
      assert c.Text() == "";
      var tmp := PrintTable(c, v, codWidth, colW[..], rowH);
      if tmp < 0 { return Failed; }
      r := InBuffer(c.pos);
    }

    /** ft_to_string on the tables whose size the estimate covers: with its spans well formed, a table without tags or
        without spans is never refused, and the buffer holds the rendered text. It is terminated if and only if there is
        something to print, or the buffer already began with a terminator; otherwise the caller reads the text of the
        call before, for a buffer that was kept, or what the memory held, for one that grew. */
    method FtToString(v: View) returns (r: Outcome)
      requires |v.rows| > 0 && SpansWellFormed(v) && (NoTags(v) || NoSpans(v)) && Reserved(v) <= INT_MAX
      requires conv != null ==> conv.Length >= 1
      modifies this, conv
      ensures r.InBuffer? && conv != null && r.length < conv.Length && conv[..r.length] == Render(v)
      ensures conv.Length >= Reserved(v)
      ensures if old(conv) != null && old(conv.Length) >= Reserved(v) then conv == old(conv) else fresh(conv)
      ensures old(conv) == null || !NothingToPrint(v) ==> conv[r.length] == '\0'
      ensures old(conv) != null && NothingToPrint(v) && old(conv.Length) >= Reserved(v) ==>
        r.length == 0 && conv[..] == old(conv[..])
    {
      if NoTags(v) { NoTagsHaveRoom(v); } else { NoSpansHaveRoom(v); }
      WellFormedIsPrintable(v);
      EmptyText(v);
      hide RoomForTags, Printable, Render, Reserved, NothingToPrint;
      r := ToString(v);
    }
  }

  lemma AssocRender(before: string, a: string, b: string, c: string, d: string)
    ensures (((before + a) + b) + c) + d == before + (a + b + c + d)
  {
  }

  /** max_border_elem_strlen. */
  method MaxBorderOf(strings: seq<string>, start: nat) returns (m: nat)
    ensures m == Max(start, LongestOf(strings))
  {
    m := start;
    for i := 0 to |strings|
      invariant m == Max(start, LongestOf(strings[..i]))
    {
      assert strings[..i+1] == strings[..i] + [strings[i]];
      LongestSnoc(strings[..i], strings[i]);
      m := Max(m, |strings[i]|);
    }
    assert strings[..|strings|] == strings;
  }

  /** The width loop and the border factor of table_geometry. */
  method ReservedWidthOf(v: View, colW: array<nat>) returns (width: nat)
    requires colW[..] == ColWidths(v, Internal)
    ensures width == ReservedWidth(v)
  {
    hide LongestOf, ColWidths;
    width := 1 + AtLeastOne(colW.Length) + 1;
    for i := 0 to colW.Length
      invariant width == 1 + AtLeastOne(colW.Length) + 1 + SumRange(colW[..], 0, i)
    {
      width := width + colW[i];
    }
    width := width + v.left + v.right;
    assert width == ReservedColumns(v);
    var m := MaxBorderOf(v.style.border.Strings(), 1);
    m := MaxBorderOf(v.style.header.Strings(), m);
    m := MaxBorderOf(v.style.separator.Strings(), m);
    assert m == MaxBorder(v.style);
    TimesIsProduct(m, width);
    width := m * width;
  }

  /** The height loop of table_geometry. */
  method ReservedHeightOf(v: View, rowH: array<nat>) returns (height: nat)
    requires rowH.Length == |v.rows| && forall r :: 0 <= r < |v.rows| ==> rowH[r] == RowHeight(v, r)
    ensures height == ReservedHeight(v)
  {
    hide RowHeight;
    height := 1 + AtLeastOne(|v.rows|);
    for i := 0 to |v.rows|
      invariant height == 1 + AtLeastOne(|v.rows|) + SumRange(RowHeights(v), 0, i)
    {
      height := height + rowH[i];
    }
    height := height + v.top + v.bottom;
  }

  /** table_geometry. */
  method TableGeometry(v: View) returns (height: nat, width: nat)
    ensures height == ReservedHeight(v) && width == ReservedWidth(v)
  {
    var colW, rowH := RowsAndColsGeometry(v, Internal);
    width := ReservedWidthOf(v, colW);
    height := ReservedHeightOf(v, rowH);
  }
}
