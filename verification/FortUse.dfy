/** Tables as they are used: filled line by line with ft_printf_ln, or by any other calls, then rendered. */
module FortUse {
  import opened Sequences
  import opened FortModel
  import opened FortEditor
  import opened FortSpans
  import opened FortLayout
  import opened FortBounds
  import opened FortBlank
  import opened FortPrint
  import opened FortRender
  import opened FortRow
  import opened FortTable

  lemma {:induction false} BuiltRowsAreCommon(rows: seq<seq<string>>, id: nat)
    ensures forall r, c :: 0 <= r < |rows| && 0 <= c < |BuiltRows(rows, id)[r]| ==>
      BuiltRows(rows, id)[r][c].kind.Common?
  {
    if rows == [] {
    } else {
      BuiltRowsAreCommon(rows[1..], id + |rows[0]|);
    }
  }

  /** A table filled line by line can always be rendered, whatever its texts, properties, tags and borders, and its text
      fits the estimate. */
  lemma LineByLineRenders(mode: Strategy, rows: seq<seq<string>>, v: View)
    requires v.rows == Run(NEW_TABLE, mode, BuildOps(rows)).grid
    ensures NoSpans(v) && RoomForTags(v) && Printable(v) && |Render(v)| < Reserved(v)
  {
    hide Run, BuildOps, Printable, RoomForTags, Render, Reserved;
    BuildAppends(NEW_TABLE, mode, rows);
    assert [] + BuiltRows(rows, 0) == BuiltRows(rows, 0);
    BuiltRowsAreCommon(rows, 0);
    NoSpansHaveRoom(v);
    WellFormedIsPrintable(v);
    RenderFits(v);
  }

  /** A table edited in any way that never cuts a group in two can be rendered too, with spans of any kind; without tags
      its text fits the estimate as well. */
  lemma SafeRunsRender(mode: Strategy, ops: seq<Op>, v: View)
    requires SafeRun(NEW_TABLE, mode, ops) && v.rows == Run(NEW_TABLE, mode, ops).grid
    ensures SpansWellFormed(v) && Printable(v)
    ensures NoTags(v) || NoSpans(v) ==> RoomForTags(v) && |Render(v)| < Reserved(v)
  {
    hide Run, SafeRun, Printable, RoomForTags, Render, Reserved;
    RunWellFormed(NEW_TABLE, mode, ops);
    assert ops[..|ops|] == ops;
    WellFormedIsPrintable(v);
    if NoTags(v) { NoTagsHaveRoom(v); }
    if NoSpans(v) { NoSpansHaveRoom(v); }
    if NoTags(v) || NoSpans(v) { RenderFits(v); }
  }

  // ---------------------------------------------------------------- whole runs of calls on a table object

  /** A call of the editing interface with its arguments. */
  datatype Call =
    | CallWrite(text: string)
    | CallPrintf(fmt: string, text: string)
    | CallPrintfLn(fmt: string, text: string)
    | CallLn
    | CallSetCellSpan(row: nat, col: nat, hor: nat)

  /** The operations a call amounts to: none for a text without the columns of its format. */
  function OpsOf(call: Call): seq<Op> {
    match call
    case CallWrite(text) => [Op.Write(text)]
    case CallPrintf(fmt, text) =>
      (match CellTexts(|SplitOn(fmt, COL_SEPARATOR)|, text)
       case None => []
       case Some(texts) => [Print(texts)])
    case CallPrintfLn(fmt, text) =>
      (match CellTexts(|SplitOn(fmt, COL_SEPARATOR)|, text)
       case None => []
       case Some(texts) => [Print(texts), Op.Ln])
    case CallLn => [Op.Ln]
    case CallSetCellSpan(row, col, hor) => [Span(row, col, hor)]
  }

  function AllOps(calls: seq<Call>): seq<Op> {
    if calls == [] then [] else AllOps(calls[..|calls|-1]) + OpsOf(calls[|calls|-1])
  }

  lemma {:induction false} RunAppend(e: Editor, mode: Strategy, a: seq<Op>, b: seq<Op>)
    requires CursorInside(e)
    ensures Run(e, mode, a + b) == Run(Run(e, mode, a), mode, b)
    decreases |a|
  {
    hide Step, CursorInside;
    if a == [] {
      assert a + b == b;
    } else {
      StepKeepsCursor(e, mode, a[0]);
      assert (a + b)[1..] == a[1..] + b;
      RunAppend(Step(e, mode, a[0]), mode, a[1..], b);
    }
  }

  lemma RunNone(e: Editor, mode: Strategy)
    requires CursorInside(e)
    ensures Run(e, mode, []) == e
  {
  }

  lemma RunOne(e: Editor, mode: Strategy, op: Op)
    requires CursorInside(e)
    ensures Run(e, mode, [op]) == Step(e, mode, op)
  {
    hide Step, CursorInside;
    StepKeepsCursor(e, mode, op);
    RunNone(Step(e, mode, op), mode);
    assert [op][1..] == [];
  }

  /** One call on a table object. */
  method Perform(t: Table, call: Call)
    requires t.Valid()
    modifies t, t.rows, t.rows.data, t.owned
    ensures t.Valid() && fresh(t.owned - old(t.owned)) && t.rows == old(t.rows) && t.separators == old(t.separators)
    ensures t.rows.data == old(t.rows.data) || fresh(t.rows.data)
    ensures t.State() == Run(old(t.State()), t.mode, OpsOf(call))
  {
    ghost var e := t.State();
    assert CursorInside(e);
    hide Step, SpanStep, CursorInside, CellTexts, SplitOn, RowsOk, Run;
    RunNone(e, t.mode);
    match call {
      case CallWrite(text) =>
        RunOne(e, t.mode, Op.Write(text));
        var _ := t.Write(text);
      case CallPrintf(fmt, text) =>
        var _ := t.Printf(fmt, text);
        ghost var texts := CellTexts(|SplitOn(fmt, COL_SEPARATOR)|, text);
        if texts.Some? { RunOne(e, t.mode, Print(texts.value)); }
      case CallPrintfLn(fmt, text) =>
        var _ := t.PrintfLn(fmt, text);
      case CallLn =>
        RunOne(e, t.mode, Op.Ln);
        StepIsLn(e, t.mode);
        var _ := t.Ln();
      case CallSetCellSpan(row, col, hor) =>
        RunOne(e, t.mode, Span(row, col, hor));
        StepIsSpan(e, t.mode, row, col, hor);
        var _ := t.SetCellSpan(row, col, hor);
    }
  }

  lemma StepIsLn(e: Editor, mode: Strategy)
    requires CursorInside(e)
    ensures Step(e, mode, Op.Ln) == LnStep(e, mode)
  {
  }

  lemma StepIsSpan(e: Editor, mode: Strategy, row: nat, col: nat, hor: nat)
    requires CursorInside(e)
    ensures Step(e, mode, Span(row, col, hor)) == SpanStep(e, row, col, hor)
    ensures CursorInside(SpanStep(e, row, col, hor))
  {
    StepKeepsCursor(e, mode, Span(row, col, hor));
  }

  /** Any sequence of calls on a new table object: it ends as the run of their operations, its rows sharing nothing, and
      every cell it allocated stands at one place or was destroyed once. */
  method Replay(mode: Strategy, calls: seq<Call>) returns (t: Table)
    ensures fresh(t) && t.mode == mode && t.Valid()
    ensures t.State() == Run(NEW_TABLE, mode, AllOps(calls)) && Accounted(t.State())
  {
    t := new Table(mode);
    NewAccounted();
    RunNone(NEW_TABLE, mode);
    hide AllOps, OpsOf, Run, Accounted, CursorInside, RowsOk;
    for i := 0 to |calls|
      invariant t.Valid() && t.mode == mode && fresh(t) && fresh(t.rows) && fresh(t.rows.data) && fresh(t.owned)
      invariant t.State() == Run(NEW_TABLE, mode, AllOps(calls[..i]))
    {
      AllOpsSnoc(calls, i);
      RunAppend(NEW_TABLE, mode, AllOps(calls[..i]), OpsOf(calls[i]));
      Perform(t, calls[i]);
    }
    assert calls[..|calls|] == calls;
    RunKeepsAccounted(NEW_TABLE, mode, AllOps(calls));
  }

  lemma AllOpsSnoc(calls: seq<Call>, i: nat)
    requires i < |calls|
    ensures AllOps(calls[..i+1]) == AllOps(calls[..i]) + OpsOf(calls[i])
    ensures AllOps(calls[..0]) == []
  {
    assert calls[..i+1][..i] == calls[..i];
  }

  // ---------------------------------------------------------------- the text of the call before

  /** A table rendered as `v`, then again as `w` when nothing is left to print: if the buffer was large enough
      already, the second call hands out the text of the first. */
  method StaleText(v: View, w: View) returns (rd: Renderer, first: Outcome, second: Outcome)
    requires |v.rows| > 0 && SpansWellFormed(v) && NoTags(v) && !NothingToPrint(v)
    requires |w.rows| > 0 && SpansWellFormed(w) && NoTags(w) && NothingToPrint(w)
    requires Reserved(w) <= Reserved(v) <= INT_MAX
    ensures Render(w) == "" && first == InBuffer(|Render(v)|) && second == InBuffer(0)
    ensures rd.conv != null && 0 < |Render(v)| < rd.conv.Length
    ensures rd.conv[..|Render(v)|] == Render(v) && rd.conv[|Render(v)|] == '\0'
  {
    EmptyText(v);
    EmptyText(w);
    hide Render, NothingToPrint, Reserved, SpansWellFormed, NoTags;
    rd := new Renderer();
    first := rd.FtToString(v);
    ghost var text := rd.conv[..];
    assert text[..|Render(v)|] == Render(v);
    second := rd.FtToString(w);
    assert rd.conv[..] == text;
  }
}
