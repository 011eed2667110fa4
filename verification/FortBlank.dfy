/** Tables that render to no text at all: exactly which they are, and one of them. */
module FortBlank {
  import opened Sequences
  import opened FortText
  import opened FortModel
  import opened FortGeometry
  import opened FortLayout
  import opened FortBounds

  /** The cell asks for no line: the height of an empty text is zero, and if there is a cell it has neither text nor
      paddings above or below. */
  predicate FlatAt(v: View, r: nat, c: nat)
    requires r < |v.rows|
  {
    var p := v.props(r, c);
    p.emptyHeight == 0 && (c < |v.rows[r]| ==> v.rows[r][c].text == "" && p.padTop == 0 && p.padBottom == 0)
  }

  predicate FlatRow(v: View, r: nat)
    requires r < |v.rows|
  {
    forall c :: 0 <= c < Cols(v) ==> FlatAt(v, r, c)
  }

  /** No margin, no cell that asks for a line, and no separator that can be printed. */
  predicate NothingToPrint(v: View) {
    && v.top == 0 && v.bottom == 0
    && (forall r :: 0 <= r < |v.rows| ==> FlatRow(v, r))
    && (forall k :: 0 <= k <= |v.rows| ==> Skipped(SeparatorBorder(v, k)))
  }

  lemma {:induction false} HeightZero(v: View, r: nat, n: nat)
    requires r < |v.rows|
    ensures HeightUpTo(v, r, n) == 0 <==> forall c :: 0 <= c < n ==> FlatAt(v, r, c)
  {
    if n == 0 {
    } else {
      HeightZero(v, r, n - 1);
      CellZero(v, r, n - 1);
    }
  }

  lemma CellZero(v: View, r: nat, c: nat)
    requires r < |v.rows|
    ensures CellHeight(v, r, c) == 0 <==> FlatAt(v, r, c)
  {
    if c < |v.rows[r]| && v.rows[r][c].text != "" { LinesSome(v.rows[r][c].text); }
  }

  lemma LinesSome(text: string)
    ensures |Lines(text)| >= 1
  {
  }

  ghost predicate NoneEmpty<T>(parts: seq<seq<T>>) {
    forall i :: 0 <= i < |parts| ==> parts[i] != []
  }

  /** Parts that are not empty come to nothing only if there are none. */
  lemma FlattenNothing<T>(parts: seq<seq<T>>)
    requires NoneEmpty(parts)
    ensures Flatten(parts) == [] <==> parts == []
  {
    if parts != [] { assert parts[0] != []; }
  }

  lemma {:induction false} FlattenEmpty<T>(parts: seq<seq<T>>)
    ensures Flatten(parts) == [] <==> forall i :: 0 <= i < |parts| ==> parts[i] == []
  {
    if parts == [] {
    } else {
      FlattenEmpty(parts[1..]);
      assert forall i :: 0 < i < |parts| ==> parts[i] == parts[1..][i-1];
    }
  }

  lemma {:induction false} FlattenNoneEmpty<T>(strips: seq<seq<seq<T>>>)
    requires forall i :: 0 <= i < |strips| ==> NoneEmpty(strips[i])
    ensures NoneEmpty(Flatten(strips))
  {
    if strips == [] {
    } else {
      FlattenNoneEmpty(strips[1..]);
    }
  }

  lemma {:induction false} RowLinesNoneEmpty(v: View, r: nat, w: seq<nat>, n: nat)
    requires r < |v.rows| && |v.rows[r]| <= |w|
    ensures NoneEmpty(RowLines(v, r, w, n))
  {
    if n == 0 {
    } else {
      RowLinesNoneEmpty(v, r, w, n - 1);
      assert RowLine(v, r, n - 1, w) != "";
    }
  }

  lemma MarginLinesNoneEmpty(width: nat, n: nat)
    requires width >= 1
    ensures NoneEmpty(MarginLines(width, n))
  {
  }

  lemma StripLines(v: View, w: seq<nat>, r: nat)
    requires |w| == Cols(v) && r < |v.rows|
    ensures NoneEmpty(Strip(v, w, r))
    ensures Strip(v, w, r) == [] <==> Skipped(SeparatorBorder(v, r)) && FlatRow(v, r)
  {
    RowWithinCols(v.rows, |v.rows|, r);
    HeightZero(v, r, Cols(v));
    RowLinesNoneEmpty(v, r, w, RowHeight(v, r));
    hide RowLine, SeparatorCells, Skipped, SeparatorBorder, RowLines, HeightUpTo;
  }

  lemma BodyNothing(v: View, w: seq<nat>)
    requires |w| == Cols(v)
    ensures NoneEmpty(BodyLines(v, w))
    ensures BodyLines(v, w) == []
            <==> forall r :: 0 <= r < |v.rows| ==> Skipped(SeparatorBorder(v, r)) && FlatRow(v, r)
  {
    hide Skipped, SeparatorBorder, FlatRow, Flatten, Strip, NoneEmpty;
    var strips := Strips(v, w, |v.rows|);
    forall r | 0 <= r < |v.rows|
      ensures NoneEmpty(strips[r]) && (strips[r] == [] <==> Skipped(SeparatorBorder(v, r)) && FlatRow(v, r))
    {
      StripLines(v, w, r);
    }
    FlattenNoneEmpty(strips);
    FlattenEmpty(strips);
  }

  lemma NothingTogether<T>(a: seq<seq<T>>, b: seq<seq<T>>, c: seq<seq<T>>, d: seq<seq<T>>)
    requires NoneEmpty(a) && NoneEmpty(b) && NoneEmpty(c) && NoneEmpty(d)
    ensures Flatten(a + b + c + d) == [] <==> a == [] && b == [] && c == [] && d == []
  {
    hide Flatten;
    FlattenNothing(a + b + c + d);
  }

  /** A table renders to the empty text if and only if there is nothing to print in it. */
  lemma EmptyText(v: View)
    ensures Render(v) == "" <==> NothingToPrint(v)
  {
    var w, n := ColWidths(v, Visible), |v.rows|;
    BodyNothing(v, w);
    MarginLinesNoneEmpty(ReservedWidth(v), v.top);
    MarginLinesNoneEmpty(ReservedWidth(v), v.bottom);
    hide ColWidths, BodyLines, ReservedWidth, Skipped, SeparatorBorder, FlatRow, SeparatorCells, Flatten;
    NothingTogether(MarginLines(ReservedWidth(v), v.top), BodyLines(v, w), SeparatorLines(v, n, w),
                    MarginLines(ReservedWidth(v), v.bottom));
  }

  // ---------------------------------------------------------------- one of them

  /** A cell without paddings, its height zero while it has no text. */
  const FLAT := CellProps(0, AlignLeft, 0, 0, 0, 0, 0, Tags("", "", "", ""))

  /** One empty cell in the PLAIN style. */
  function BlankTable(): View {
    View([[Cell(0, "", Common)]], [], (r: nat, c: nat) => FLAT, (r: nat) => false, PLAIN_STYLE, 0, 0, 0, 0)
  }

  lemma BlankHasNothing()
    ensures NothingToPrint(BlankTable())
  {
    var v := BlankTable();
    forall k: nat | k <= 1 ensures Skipped(SeparatorBorder(v, k)) {
      assert SeparatorBorder(v, k) == SepBorder("", "", "", "", "", "", "");
    }
  }

  /** Its spans are well formed and it has no tags, yet its text is empty. */
  lemma BlankTableIsBlank()
    ensures var v := BlankTable();
      |v.rows| == 1 && SpansWellFormed(v) && NoTags(v) && NothingToPrint(v) && Render(v) == ""
  {
    BlankHasNothing();
    hide Render, NothingToPrint;
    EmptyText(BlankTable());
  }
}
