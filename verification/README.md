# Models and proofs for the table engine, the UTF-8 codec, the topology registry, the DNS reader and the pod manager

This project models five components of the repository in Dafny and proves properties of the models. `dafny verify
dfyconfig.toml` checks all of it. Cited paths and lines are those of the repository's C files.

## What is modelled

**Table engine** (`src/libfort/fort.c`). `FortVector` is the growable vector with its block copies, `FortRow` and
`FortTable` are rows and the table with its cursor and separators, all as classes over arrays. They are proved to refine
`FortEditor`, which says what the operations mean: rows of cells and a cursor, in replace and insert mode. A cell
carries the identity of its allocation and the editor keeps account of the identities destroyed, so that losing, sharing
or freeing a cell twice shows. `FortSteps` says what each call does to every place of a table, `FortErase` says what
erasing a rectangle means, `FortSpans` which operations keep cell spans well formed. `FortGeometry` is the column-width
solver with its in-place round-robin loop, `FortLayout` says which text a table renders to, `FortTight` that no column
or row is larger than asked for, `FortPicture` and `FortPage` where each cell, border and separator stands in it,
`FortPrint` and `FortRender` are the printers with their output cursor, up to the buffer `ft_to_string` reuses.
`FortBounds` proves that the separate size estimate suffices and that the output is rectangular, `FortBlank` says which
tables render to nothing; `FortOverflow` shows a table with spans and tags for which the estimate is too small, which is
why the bound asks for one or the other. `FortUse` applies the results to tables filled line by line, the way the
repository's processes fill theirs, and to every other run of editing calls that cuts no group of spanned cells in two.

**UTF-8** (same file). `Utf8Codec` has encoder, decoder, validator and length, `Utf8Search` the code-point-stepping
search, `Utf8Case` the case tables and in-place mapping, `Utf8Order` the order of texts. The encoding scheme is that of
section 3 of RFC 3629, but as in the code it reaches up to 0x1FFFFF and includes surrogates, where section 3 stops at
0x10FFFF and leaves surrogates out.

**Topology registry** (`src/libs/elem.c`, `src/topo`). `ElementList` is the sorted doubly linked list in the heap and
its traversal, `TopoText` the lines of a reply and their parsing, `Registry` the node table, `TopoClient` the mark and
sweep of a client, `TopoServer` the server over all runs of messages and ticks, `TopoRecord` what its records say and
since when, `TopoSystem` server, clients and a network that loses, delays and repeats.

**DNS names and messages** (`src/dns_util/dnsUtil.c`). `DnsName` is the reader that follows compression and converts in
place, with the writer, against sections 3.1 and 4.1.4 of RFC 1035; `DnsMessage` is the record cursor, against section
4.1.3; `DnsWire` writes compressed names and whole messages as section 4.1 lays them out, for the reader to find.

**Pod manager** (`src/k8smgr/main.c`). `Liveness` is the hang detector with its forced-death timer, `ActiveStandby` the
role decision of two pods.

`Sequences` holds shared facts about sequences.

## How the code is rendered

Objects that the code updates in place are classes with the same fields; buffers are arrays; each loop of the code is a
loop with invariants, sometimes in a method of its own; `memcpy`, `memmove`, `strtok`, `sscanf` and formatting are small
specifications instead. A method's contract ties the new state to a function of the old one, and the lemmas are about
those functions. Sizes and counters are unbounded integers. Text is a sequence of one-byte characters without its
terminator. A list callback is a function from the visited entry and the callback's argument to a verdict (keep with
this data, or remove) and the new argument.

Where the code and what one might expect of it differ, the model follows the code:

- The port field of a record is compared with zero as an array, so it is always printed.
- The line parser stops at the first empty field and leaves the rest empty. A client needs the first seven fields.
- A DNS label octet of 192 or more is taken for a jump wherever it stands, so label octets lie in 1..191.
- Authority records are read as name-valued whatever their type; in the other sections type 1 decides.
- If a request to the peer fails, both remembered values become -1, and -1 counts as ready once `/start` was answered,
  but not as started once `/ready` was. A poll that fails by half can so leave no pod or both pods active.
- The fifth check after a status=0 patch leaves the alive status alone and only ends the timer, so that a process
  patched alive right before it comes alive there.
- `ft_nprint` compares the room plus one with the length (fort.c:4085-4095), which is two too lax: a buffer short by one
  or two bytes would be written past. The model's callers always have the room, so it leaves these two lengths out.
- An insert-mode line feed inside a group of spanned cells leaves slaves without a master; the code does not
  prevent it.
- A patch of a pod's live status without a status is answered 503 and then goes on to read the missing number
  (main.c:406-420).
- If there is nothing to print in a table with rows, `ft_to_string` writes nothing, not even a terminator: a buffer that
  was large enough still holds the text of the call before, one that had to grow holds whatever the memory held, and
  only a new one reads as empty. `FortBlank.EmptyText` says exactly when; `FortUse.StaleText` is such a pair of calls.
- `FT_CUR_ROW` and `FT_CUR_COLUMN` are one number. `ft_erase_range` takes the cursor's row for both (fort.c:2841-2849);
  `ft_set_cell_span` looks for the second in the row it has already replaced (fort.c:3642-3645).

## Model

| member | source | states |
|---|---|---|
| FortText.StrChrCount | src/libfort/fort.c:6234-6248 | The count returned is one less than the number of pieces the separator cuts the text into. |
| FortText.StrNSubstring | src/libfort/fort.c:6296-6383 | Yields the bounds of the n-th piece of the text exactly if there are more than n pieces. |
| FortText.VisibleWidth | src/libfort/fort.c:6661-6720 | The width of a text is that of its longest line. |
| FortText.VisibleHeight | src/libfort/fort.c:6596-6613 | The height of a text is its number of lines, and zero for the empty text. |
| FortGeometry.RowsAndColsGeometry | src/libfort/fort.c:7027-7156 | The in-place width and height loops compute the solver's widths and heights for both geometries; with the lemmas below, these satisfy every cell. |
| FortGeometry.CommonCellFits | src/libfort/fort.c:7055-7100 | Every common cell's column is at least as wide as the cell asks, also after all groups were adjusted. |
| FortGeometry.MasterCellFits | src/libfort/fort.c:7102-7136 | Every spanning cell's group, inner boundaries included, is at least as wide as the cell asks. |
| FortGeometry.AdjustRowsServes | src/libfort/fort.c:7105-7134 | Adjusting later rows of a column never takes away what an earlier row was given. |
| FortGeometry.AdjustColsServes | src/libfort/fort.c:7103-7135 | Adjusting later columns never takes away what an earlier column was given. |
| FortGeometry.AdjustedGroupWidth | src/libfort/fort.c:7117-7131 | A widened group is exactly as wide as the wider of what it was and what was asked for. |
| FortGeometry.AdjustedEvenly | src/libfort/fort.c:7123-7131 | The columns of one group gain amounts that differ by at most one, the larger ones further left, and no other column changes. |
| FortGeometry.RoundRobin | src/libfort/fort.c:7123-7131 | The loop that hands out one byte at a time terminates and deals the deficit out by quotient and remainder. |
| FortGeometry.AdjustGroup | src/libfort/fort.c:7112-7131 | Widening in place yields the widths the two lemmas above describe. |
| FortGeometry.MeasureColumns | src/libfort/fort.c:7055-7100 | The first double loop finds the base widths, all row heights, and whether there is a spanning cell at all. |
| FortGeometry.GroupCellNumber | src/libfort/fort.c:5524-5545 | The loop counts a master and exactly the slaves that follow it, and nothing for a column without a cell. |
| FortGeometry.CountCols | src/libfort/fort.c:7008-7023 | The column count is that of the longest row. |
| FortTight.ColumnsOfLongest | src/libfort/fort.c:7008-7023 | No row has more cells than the column count, and one has as many. |
| FortTight.ColumnsTight | src/libfort/fort.c:7055-7100 | Without spans a column is exactly as wide as the most any of its cells asks for: its minimal width, or its longest line between its side paddings. The estimate adds exactly the most bytes of tags. |
| FortTight.BaseWidthsTight | src/libfort/fort.c:7055-7100 | With spans the columns start from just that, and stay so if nothing spans. |
| FortTight.HintIsAsked | src/libfort/fort.c:7102-7116 | A spanning cell asks of its group for its minimal width, or its longest line between its side paddings, and in the estimate for its tags besides. |
| FortTight.RowsTight | src/libfort/fort.c:7055-7100 | A row is exactly as high as the most any of its places asks for: the lines of the text, or the height of an empty one, between top and bottom padding; a place without a cell counts only if an empty text has a height. |
| FortTight.ReservedSpelt | src/libfort/fort.c:7163-7207 | The size reserved, as a number: the lines of rows, separators and margins times the bytes of columns, boundaries and margins, times the length of the longest border string. |
| FortLayout.CellLineLength | src/libfort/fort.c:2435-2515 | A printed cell line has exactly the width asked for, plus its tags, under every alignment and for padding and text lines alike, and is never wider than that. |
| FortLayout.RowFitsFrom | src/libfort/fort.c:6091-6172 | With well-formed spans every cell of a row fits the columns the solver gave it. |
| FortLayout.WellFormedIsPrintable | src/libfort/fort.c:6091-6172 | The width solver and the row printer agree: no cell is ever refused in a table with well-formed spans. |
| FortPicture.CellPicture | src/libfort/fort.c:2435-2515 | What a cell prints in each line of its row: behind the top padding the lines of its text in order, each behind the left padding and the blanks of its alignment, none for left, all the slack for right, half of it for center, with the content tags close around it; blanks otherwise. |
| FortPicture.RowPicture | src/libfort/fort.c:6091-6172 | Where everything stands in a line of a row without tags: margin and left border, each cell or missing cell at the start of its column with a boundary behind it, right border and margin, the borders being those of a header exactly in a header row. |
| FortPicture.SeparatorPicture | src/libfort/fort.c:5596-5783 | Where everything stands in a separator: its ends, the line over each column, and in front of each column the crossing for a boundary above, below, on both sides or on neither; beyond the table there is none. |
| FortPicture.StringsOfSeparator | src/libfort/fort.c:5663-5721 | Which strings a separator is made of: at the top, inside and at the bottom, beside a header row, and where a separator was asked for. |
| FortPicture.ShownUnlessSkipped | src/libfort/fort.c:5728-5739 | A separator is printed if and only if one of four of its strings has more than one byte or one that can be printed. |
| FortPage.RowLineAt | src/libfort/fort.c:3366-3380 | Which line of the text is line i of row r: behind the top margin, the separators printed up to the row and the rows above it. |
| FortPage.SeparatorLineAt | src/libfort/fort.c:3366-3388 | Each separator printed stands right above its row, or below the last one. |
| FortPage.MarginLinesAt | src/libfort/fort.c:3360-3395 | The margins are blank lines above and below, and there are no other lines. |
| FortPage.EveryLineShown | src/libfort/fort.c:3360-3395 | In a table without tags every line of the text of every cell stands in the rendered text, at the place that its row, its column, its paddings and its alignment give it. |
| FortPage.LinesBegin | src/libfort/fort.c:3360-3395 | Where the lines are of one length, line y begins at y times that length. |
| FortPrint.PrintNStrings | src/libfort/fort.c:3992-4040 | Refuses, touching nothing, exactly if the copies and a terminator do not fit; otherwise appends the copies and moves the output cursor behind them. |
| FortPrint.NPrint | src/libfort/fort.c:4085-4095 | Appends exactly the bytes given and moves the output cursor behind them, or refuses and touches nothing; the two lengths its guard lets through wrongly are left out. |
| FortRender.BufferPrintf | src/libfort/fort.c:6768-6824 | Refuses exactly a missing line or too small a width; otherwise appends the aligned line and returns its length. |
| FortRender.CellPrintf | src/libfort/fort.c:2435-2515 | Fails exactly if the cell asks for more than the width given; otherwise appends the cell's line and returns its length. |
| FortRender.SnprintfRow | src/libfort/fort.c:6091-6172 | Fails exactly if the row has more cells than there are widths, or a line to print and in it a cell that is refused; otherwise appends all lines of the row. |
| FortRender.RowCellTypes | src/libfort/fort.c:5549-5563 | The kinds of a row's cells, common where there is no cell. |
| FortRender.PrintRowSeparator | src/libfort/fort.c:5596-5783 | Where there is room it never fails and appends exactly the separator line, or nothing if the separator is not printable. |
| FortRender.TableGeometry | src/libfort/fort.c:7163-7207 | The loops compute the height and width that are reserved, border strings of more than one byte included. |
| FortRender.Renderer.Reserve | src/libfort/fort.c:3327-3337 | The doubling loop terminates with a buffer of at least the size asked for, and keeps a buffer that is large enough; a first buffer begins with a terminator. |
| FortRender.Renderer.ToString | src/libfort/fort.c:3312-3403 | Fails exactly if some cell is refused its width, never for lack of room; otherwise the buffer begins with the rendered text, with a terminator behind it if there is anything to print or the buffer is new. With nothing to print a buffer that was large enough keeps all its bytes. |
| FortRender.Renderer.FtToString | src/libfort/fort.c:3405-3408 | For a table with rows, well-formed spans, and no tags or no spans, it is never refused, and terminates the rendered text exactly under the condition of the next lemma or in a new buffer; otherwise it hands out what the buffer held before. |
| FortBlank.EmptyText | src/libfort/fort.c:3343-3400 | A table renders to the empty text, and nothing is written, if and only if it has no margins, no cell of it asks for a line, and no separator can be printed. |
| FortBlank.BlankTableIsBlank | src/libfort/fort.c:3343-3400 | Such a table: one empty cell in the PLAIN style, with a height of zero for empty texts. |
| FortBounds.RenderFits | src/libfort/fort.c:7163-7207 | The whole text and its terminator fit the height times width plus one that was estimated separately. |
| FortBounds.NoTagsHaveRoom | src/libfort/fort.c:7086-7115 | Without tags the estimate leaves every cell the room it prints into. |
| FortBounds.NoSpansHaveRoom | src/libfort/fort.c:7086-7100 | Without spans the estimate leaves every cell room for its tags. |
| FortBounds.Rectangular | src/libfort/fort.c:6091-6172 | With one-byte inner borders, equally long side borders and no tags, all row lines and separator lines have the same length, spanned and plain rows mixed; covers the PLAIN style, which has no side borders. |
| FortBounds.PlainIsUniform | src/libfort/fort.c:4800-4822 | The PLAIN style meets the condition of the theorem above, with no bytes at the sides. |
| FortBounds.BasicIsUniform | src/libfort/fort.c:4728-4750 | The BASIC style meets it with one byte at each side. |
| FortBounds.MarginsMatch | src/libfort/fort.c:3371-3395 | With one-byte borders on all sides the margin lines have that length too. |
| FortOverflow.SpansWithTagsOverflow | src/libfort/fort.c:7102-7207 | A table with a span above two red cells whose text is longer than the estimate: why spans and tags are not combined above. |
| FortUse.LineByLineRenders | src/topo/node.c:391-429 | A table filled by ft_printf_ln, as the processes here do, has no spans, can always be rendered, and fits the estimate, whatever its texts and tags. |
| FortUse.SafeRunsRender | src/libfort/fort.c:3312-3403 | A table edited in any way that never cuts a group in two can always be rendered, spans included, and without tags its text fits the estimate. |
| FortUse.StaleText | src/libfort/fort.c:3312-3403 | A table rendered, then rendered again when nothing is left to print in it: the second call hands out the text of the first. |
| FortUse.Replay | src/libfort/fort.c:2748-3061 | Any sequence of editing calls on a new table object ends as the run of their operations, with its rows kept apart and every allocated cell at one place or destroyed once. |
| FortVector.OverwriteConserves | src/libfort/fort.c:7389-7440 | Swapping a vector in neither loses nor duplicates an element. |
| FortVector.SwapBlocks | src/libfort/fort.c:7408-7436 | The three block copies leave one buffer overwritten and the other with what was displaced. |
| FortVector.Vector.Push | src/libfort/fort.c:7298-7315 | Appends one element; the positive capacity doubles exactly when it is used up. |
| FortVector.Vector.Insert | src/libfort/fort.c:7318-7343 | Puts one element in place, the later ones moved up; the capacity grows only as far as needed. |
| FortVector.Vector.Split | src/libfort/fort.c:7346-7366 | Cuts the elements from a position on off into a vector exactly large enough for them. |
| FortVector.Vector.Swap | src/libfort/fort.c:7389-7440 | The target is overwritten from a position on and the other vector holds exactly what was displaced. |
| FortVector.Vector.Erase | src/libfort/fort.c:7449-7461 | Takes out one element and closes the gap, or reports that there is none. |
| FortEditor.StepKeepsCursor | src/libfort/fort.c:2771-2799 | No operation moves the cursor behind the end of its row. |
| FortEditor.LnKeepsCells | src/libfort/fort.c:2771-2799 | An insert-mode line feed leaves the flattened sequence of cells unchanged. |
| FortEditor.InsertSplices | src/libfort/fort.c:2890-2947 | In insert mode printing puts the new cells into the flattened table exactly at the cursor. |
| FortEditor.PutBalances | src/libfort/fort.c:5475-5520 | The cells a row holds after a print and those pushed out of it are together exactly those it held and the new ones. |
| FortEditor.StepKeepsAccounted | src/libfort/fort.c:2890-2947 | After any operation in either mode every cell ever allocated stands at one place of the table or was destroyed, and was so once; there are no others. |
| FortEditor.RunKeepsAccounted | src/libfort/fort.c:2748-2947 | The same over any run of operations; a new table starts so. |
| FortEditor.AccountedMeans | src/libfort/fort.c:2748-2947 | What that says of single cells: an allocated identity occurs at exactly one place of the table, or among the destroyed ones with count one, never in both, and no other identity occurs at all. |
| FortEditor.BuildAppends | src/libfort/fort.c:2973-2990 | Printing line by line at the end of a table appends exactly those rows, in either mode. |
| FortEditor.BuildsExactlyTheRows | src/libfort/fort.c:2973-2990 | A new table filled line by line holds exactly the texts printed. |
| FortSteps.WriteReplaces | src/libfort/fort.c:3032-3061 | In replace mode a write puts its text into the cell at the cursor, which keeps identity and kind, or into a new one, and changes no other place. |
| FortSteps.WriteInserts | src/libfort/fort.c:3032-3061 | In insert mode a write is a print of one text. |
| FortSteps.PrintChanges | src/libfort/fort.c:2890-2947 | A print puts one new cell for each text, in order, from the cursor on, over what stood there or in front of it; the cursor stands behind them, and no other place changes. |
| FortSteps.LineFeeds | src/libfort/fort.c:2748-2799 | A line feed moves the cursor to the start of the next row; in insert mode exactly what stood at the cursor and behind it becomes that row and the rows below move down, otherwise no cell moves. |
| FortSteps.SpanChanges | src/libfort/fort.c:5567-5592 | A span call makes the first cell a master and the next ones slaves, creates what is missing as empty cells, keeps all texts, and changes no other place. |
| FortSteps.SeparatorSet | src/libfort/fort.c:3418-3441 | Adding a separator sets the flag of its row and no other. |
| FortSpans.SpanKeepsWellFormed | src/libfort/fort.c:5567-5592 | A span call never leaves a slave without a group. |
| FortSpans.SpanMakesGroup | src/libfort/fort.c:5567-5592 | A span call makes a group of the columns asked for, longer only if slaves stood behind, and leaves texts and identities alone. |
| FortSpans.OverwriteKeepsWellFormed | src/libfort/fort.c:7389-7440 | Overwriting keeps spans well formed if and only if no slave stands right behind the last cell written. |
| FortSpans.InsertKeepsWellFormed | src/libfort/fort.c:5493-5520 | Inserting keeps spans well formed if and only if it does not happen right in front of a slave. |
| FortSpans.SplitKeepsWellFormed | src/libfort/fort.c:2748-2769 | An insert-mode line feed keeps both parts of the row well formed if and only if the cell at the cursor is no slave. |
| FortSpans.EraseKeepsWellFormed | src/libfort/fort.c:5374-5393 | Erasing columns keeps the row well formed if and only if a slave behind the gap still follows a master or slave. |
| FortSpans.StepWellFormed | src/libfort/fort.c:2748-3061 | On a table with well-formed spans any operation keeps them so if and only if no slave stands where its new cells end or where it splits the row. |
| FortSpans.RunWellFormed | src/libfort/fort.c:2748-3061 | A run meets that condition at every step if and only if the spans are well formed at every moment of it. |
| FortSpans.LineFeedInsideGroup | src/libfort/fort.c:2748-2799 | A run that does not: a line feed in insert mode with the cursor inside a group leaves slaves in a row without their master. |
| FortSpans.SpanAtCursor | src/libfort/fort.c:3642-3645 | Asked for a span at the cursor, the call takes FT_CUR_COLUMN for a column number: the span is the one meant if and only if the cursor stands in the row or column of that very number. |
| FortRow.CreateRowFromString | src/libfort/fort.c:5786-5870 | One cell for each piece between separators, an empty last piece included. |
| Sequences.SplitIsUnique | src/libfort/fort.c:5786-5870 | The pieces of a text are the one way to write it as pieces without the separator, joined by it. |
| FortRow.CellsJoin | src/libfort/fort.c:6019-6087 | Joined by the separator, the cells made for a printed text are that text, one for each column of its format; no row is made if and only if the format has more than one column and the text another number. |
| FortRow.CreateRowFromFmt | src/libfort/fort.c:6019-6087 | Cells for all pieces if the text has as many as its format, one cell with the whole text if the format has one, otherwise no row. |
| FortRow.TableRow.SwapRow | src/libfort/fort.c:5475-5489 | The row takes the other's cells from the cursor on, and the other row ends with those displaced, also by the shortcut for an empty row. |
| FortRow.TableRow.InsertRow | src/libfort/fort.c:5493-5520 | All cells of the other row pass to this one in order; the other is left empty. |
| FortRow.TableRow.DestroyEachCell | src/libfort/fort.c:5309-5333 | The loop destroys every cell the row holds, each once. |
| FortRow.TableRow.SplitRow | src/libfort/fort.c:5358-5371 | The cells from a column on move to a row of their own. |
| FortRow.TableRow.SetCellSpan | src/libfort/fort.c:5567-5592 | Creates missing cells, makes the first one master and the others slaves. |
| FortRow.TableRow.EraseRange | src/libfort/fort.c:5374-5393 | Takes out exactly the columns of the range that exist and destroys exactly their cells; nothing for an inverted range. |
| FortTable.Table.Write | src/libfort/fort.c:3032-3061 | Refines the editor's write in both modes; separators stay. |
| FortTable.Table.Printf | src/libfort/fort.c:2890-2971 | Refines the editor's print, the cells it destroys included, and returns the number of cells, or returns -1 and changes nothing. |
| FortTable.Table.PrintfLn | src/libfort/fort.c:2973-2990 | Refines the editor's print and line feed, or returns -1 and changes nothing. |
| FortTable.Table.Ln | src/libfort/fort.c:2748-2799 | Refines the editor's line feed wherever the cursor stands, row objects and vectors kept apart. |
| FortTable.Table.SetCellSpan | src/libfort/fort.c:3636-3652 | Refines the editor's span, FT_CUR_ROW and FT_CUR_COLUMN taken as the code takes them; refuses a span below two columns and changes nothing then. |
| FortTable.Table.AddSeparator | src/libfort/fort.c:3418-3441 | Sets the flag of the row at the cursor, with unset flags up to it, and leaves the cells alone. |
| FortTable.Table.EnsureRow | src/libfort/fort.c:6924-6972 | Rows are added, each empty and sharing nothing, until the row asked for exists. |
| FortTable.Table.EraseRange | src/libfort/fort.c:2832-2887 | Takes FT_CUR_ROW and FT_CUR_COLUMN as the code does and refuses an inverted rectangle; otherwise rows, separators and the cells destroyed are those the FortErase lemmas describe. |
| FortTable.Table.CompactRows | src/libfort/fort.c:2865-2884 | The in-place loop drops the chosen rows that are empty and, in step, their separators. |
| FortErase.EraseKeepsPairs | src/libfort/fort.c:2832-2887 | After an erase exactly the chosen rows that ended empty are gone, the others are in their order without the erased columns, and each has the separator it had. |
| FortErase.CompactKeeps | src/libfort/fort.c:2865-2884 | Compaction keeps the elements at exactly the unmarked indices, in order. |
| FortSteps.ErasedCell | src/libfort/fort.c:5374-5393 | Erasing columns leaves what stood in front of them and moves up what stood behind them. |
| FortErase.HalfwayStepShort | src/libfort/fort.c:2876-2881 | The separators take the same step as the rows, also where there are fewer separators than rows. |
| FortErase.EraseKeepsAccounted | src/libfort/fort.c:2832-2887 | An erase loses no cell either: each still stands at one place of the table or was destroyed once. |
| FortErase.EraseAtCursor | src/libfort/fort.c:2841-2849 | Asked to erase the cell at the cursor, the call takes the cursor's row for the column too: it does what is meant if and only if the cursor's row and column are equal, or its row does not exist, or there is a cell in neither place. |
| ElementList.NodeList.AddElement | src/libs/elem.c:40-59 | -1 and no change if the key is there; otherwise the element is linked in where sorting puts it, links inverse and keys strictly sorted. |
| ElementList.NodeList.GetElement | src/libs/elem.c:61-73 | The element of the key, or none exactly if the key is not in the list. |
| ElementList.NodeList.RemElement | src/libs/elem.c:75-85 | Exactly that element is unlinked and the links of the others stay inverse; nothing for no element. |
| ElementList.NodeList.ListElement | src/libs/elem.c:22-38 | The list and the callback's own state end up as if the root and then each original entry had been visited once, in order, even if the callback removes the visited one. |
| ElementList.VisitsEachOnce | src/libs/elem.c:22-38 | Every original entry is visited exactly once, in order, whichever of them are removed on the way. |
| ElementList.InsertIsUpdate | src/libs/elem.c:40-59 | On the map from keys to data, adding a new key is an update at that key. |
| ElementList.InsertSorted | src/libs/elem.c:40-59 | Adding at the place found keeps the list strictly sorted. |
| ElementList.RemoveIsDelete | src/libs/elem.c:75-85 | On the map, removing an entry deletes its key and nothing else. |
| ElementList.PositionIs | src/libs/elem.c:44-55 | In a sorted list the first key that is not smaller ends the search: it is the place of a new key, and the key is in the list only there. |
| ElementList.LessIs | src/libs/elem.c:44-55 | The order of the keys: the first character that differs decides, and a prefix comes first. |
| TopoText.ScanJoined | src/topo/node.c:254-271 | Scanning a line of joined fields gives back its leading fields as far as none is empty. |
| TopoText.LineRoundTrip | src/topo/node.c:105-129 | The reply printer and the line parser undo each other on the name and the two addresses a client compares. |
| TopoText.LineRead | src/topo/node.c:254-280 | What a client reads in any printed line: the leading fields as far as none is empty, each in its place, and nothing in the others. |
| TopoText.LineText | src/topo/node.c:105-129 | A printed line is the ten fields in their order with bars between. |
| TopoText.LongField | src/topo/node.c:254-271 | A field longer than 127 characters is cut there and nothing behind it is read. |
| TopoText.LastField | src/topo/node.c:254-271 | The last field is the first word: white space in front of it is skipped and white space ends it. |
| TopoText.PodRoundTrip | src/topo/node.c:226-252 | The server reads every field of a pod's message as the pod wrote it. |
| TopoText.ReplyTokens | src/topo/udp.c:267-275 | Cutting a reply at its line ends gives back exactly the printed lines. |
| Registry.Table.ProcPodSendInfo | src/topo/node.c:328-389 | A message adds, refreshes or replaces the record of its name, or changes nothing if it does not parse; the result code tells which. |
| Registry.Table.ProcOmpSendInfo | src/topo/node.c:282-326 | A line adds, marks or replaces the record of its name, or changes nothing if it does not parse. |
| Registry.Table.Cleanup | src/topo/node.c:47-72 | The sweep leaves exactly the fresh records and the one never heard from, and counts the removed ones. |
| Registry.Table.UnsetChkFlag | src/topo/node.c:136-149 | All records lose their mark and nothing else. |
| Registry.Table.RemoveUncheckNode | src/topo/node.c:151-171 | The sweep leaves exactly the marked records and counts the removed ones. |
| Registry.Table.ReplyMsg | src/topo/node.c:105-134 | The reply has one line for each record in order, and the table stays as it was. |
| Registry.SweepFilters | src/topo/node.c:151-171 | A removal sweep over the list leaves what a filter leaves, and its count is the number of entries removed. |
| Registry.FilterMap | src/topo/node.c:47-72 | On the map from names to records, a sweep restricts the map to the records kept. |
| TopoClient.ClientUpdate | src/topo/udp.c:263-278 | Unsetting marks, going through the lines and sweeping yields the table and the update count the next lemma describes. |
| TopoClient.ClientMirrors | src/topo/udp.c:263-278 | After a well-formed reply the client's map from names to addresses equals the server's; the update count is the number of names added, changed and removed, and zero if and only if the map did not change. |
| TopoClient.ClientRecords | src/topo/udp.c:263-278 | After a well-formed reply the client has exactly the server's names, and under each the record it had if that has the same addresses, otherwise what it reads in the server's line. |
| TopoClient.UnreadableIgnored | src/topo/udp.c:267-275 | A line that cannot be read changes nothing and does not count, wherever it stands in the reply. |
| TopoClient.LineEffect | src/topo/node.c:282-326 | One readable line sets one name of the map, marks it, and reports an addition or a change exactly when it is one. |
| TopoClient.LinesEffect | src/topo/udp.c:267-275 | All lines lay the server's map over the client's and mark its names; the count is that of new and different names. |
| TopoClient.SweepEffect | src/topo/node.c:151-171 | Sweeping restricts the map to the marked names and counts the others. |
| TopoServer.InitServer | src/topo/init.c:20-37 | A server starts with the OMP record it was given and no other, its heartbeat zero. |
| TopoServer.UdpServerProc | src/topo/udp.c:322-333 | A message updates the table; the reply shows the updated table, and an unreadable message gets none. |
| TopoServer.MainTick | src/topo/main.c:10-19 | A tick sweeps out the stale records and returns how many. |
| TopoServer.InTable | src/topo/node.c:47-72 | Over all runs names stay unique and sorted, the OMP record stays, and any other name is in the table if and only if it was heard from and no tick since its last message came 60 seconds or more after it; its heartbeat is the time of that message. |
| TopoServer.AfterTick | src/topo/node.c:47-72 | After every tick each record but OMP's was heard from less than 60 seconds ago. |
| TopoServer.NeverRemoved | src/topo/node.c:328-371 | A pod whose messages are always less than 60 seconds apart is in the table at every moment from its first message on. |
| TopoServer.PortStays | src/topo/node.c:373-388 | The management port of a name does not change while the name stays in the table, even when its record is replaced. |
| TopoRecord.RecordIs | src/topo/node.c:328-389 | Over all runs the whole record of a pod in the table: the port is that of the message that registered it, the heartbeat the time of its last message, and all else that of the message that registered it or last changed its addresses, shown under the pod's name if it gave one. |
| TopoRecord.OriginsExist | src/topo/node.c:328-389 | There always are such messages. |
| TopoRecord.AddressesAre | src/topo/node.c:357-388 | A pod in the table stands there with the addresses of its last message. |
| TopoRecord.OmpStays | src/topo/init.c:20-37 | The OMP record stays over all runs as it was at the start. |
| TopoRecord.ResultIs | src/topo/node.c:328-389 | What the next message is reported as: added, updated or replaced by whether and with which addresses its name was last heard of, failed exactly if it cannot be read. |
| TopoSystem.StepKeepsInv | src/topo/udp.c:210-343 | Every step keeps all tables well formed, every answer no older than its request, and every client equal to some moment of the server. |
| TopoSystem.ClientsFollow | src/topo/udp.c:210-343 | Under loss, delay and repetition each client always mirrors the server's table of some moment, or its empty start, and these moments never go backwards. |
| TopoSystem.AnswerIsRecent | src/topo/udp.c:246-261 | An answer accepted on a request's socket shows a table no older than that request. |
| TopoSystem.ClientsAgree | src/topo/udp.c:210-343 | Once the server's table shows the same, one answered request for each client makes all clients agree with it. |
| Utf8Codec.Utf8Valid | src/libfort/fort.c:1375-1454 | No position exactly if the text is a concatenation of encodings of code points 1 to 0x1FFFFF, otherwise the first position where none is encoded, the part before being valid; the string ends where its memory ends, so nothing behind the terminator is read. |
| Utf8Codec.EncodeIsGood | src/libfort/fort.c:1497-1542 | An encoded code point passes all checks of the validator, and decoding gives it back. |
| Utf8Codec.GoodIsEncode | src/libfort/fort.c:1379-1450 | What passes the checks is the encoding of a code point in range. |
| Utf8Order.EncodeSpelt | src/libfort/fort.c:1497-1542 | The bytes of an encoding: the leading byte with the upper bits, then six bits in each. |
| Utf8Order.BytesAreOrdered | src/libfort/fort.c:1497-1542 | Texts are in the order of their code points if and only if their bytes are in that order. |
| Utf8Codec.DecodeEncode | src/libfort/fort.c:1456-1542 | Decoding the encoding of any code points gives them back. |
| Utf8Codec.EncodeDecode | src/libfort/fort.c:1456-1542 | Re-encoding what was decoded from a valid text gives back its bytes. |
| Utf8Codec.MasksAreRanges | src/libfort/fort.c:1379-1448 | The byte ranges of the model are exactly what the masks of the program select. |
| Utf8Codec.Utf8Len | src/libfort/fort.c:822-848 | On a valid text the loop counts the code points. |
| Utf8Codec.Utf8CodePoint | src/libfort/fort.c:1456-1482 | Reads the code point at a position of a valid text and moves to the next one; zero at the terminator. |
| Utf8Codec.Utf8CatCodePoint | src/libfort/fort.c:1497-1542 | Writes the encoding exactly if it fits, nothing otherwise, and nothing besides it. |
| Utf8Search.Synchronised | src/libfort/fort.c:1291-1325 | In a valid text every byte that is no continuation byte starts a code point. |
| Utf8Search.Utf8Str | src/libfort/fort.c:1291-1325 | Trying code-point starts only, it returns the first byte position at which the needle occurs, or none exactly if it occurs nowhere. |
| Utf8Search.Utf8Chr | src/libfort/fort.c:662-702 | The byte position of the first place of the code point among the decoded ones, none exactly if it is not there; for zero the terminator. |
| Utf8Search.FirstPlace | src/libfort/fort.c:662-702 | The first byte occurrence of an encoding is the first place of its code point. |
| Utf8Case.Utf8Lwr | src/libfort/fort.c:1548-1567 | In place, every code point is mapped to lower case; the text stays a text of the same length. |
| Utf8Case.LwrAllKeeps | src/libfort/fort.c:1548-1567 | Lower-casing keeps range and byte length, and doing it twice equals doing it once. |
| Utf8Case.LwrIsStable | src/libfort/fort.c:1590-1665 | For every code point the lower case is its own lower case and takes as many bytes. |
| Utf8Case.LwrIsUndone | src/libfort/fort.c:1590-1742 | For every code point that lower-casing changes, upper-casing restores it. |
| Utf8Case.UprIsUndone | src/libfort/fort.c:1590-1742 | For every code point that upper-casing changes, lower-casing restores it. |
| Utf8Case.UprIsStable | src/libfort/fort.c:1667-1742 | For every code point the upper case is its own upper case and takes as many bytes. |
| Utf8Case.LwrIsPairs | src/libfort/fort.c:1590-1665 | Lower-casing changes exactly the upper case of one list of pairs, into its lower case. |
| Utf8Case.UprIsPairs | src/libfort/fort.c:1667-1742 | Upper-casing changes exactly the lower case of the same list, into its upper case. |
| DnsName.ReadName | src/dns_util/dnsUtil.c:39-91 | For a readable name it terminates with the dotted form of the name denoted there, compression followed, and the exact number of octets the name takes where it stands. |
| DnsName.WalkIsWire | src/dns_util/dnsUtil.c:51-76 | Walking octet by octet along a name collects exactly its expanded form, and the count of steps is what the name takes on the wire. |
| DnsName.Collect | src/dns_util/dnsUtil.c:45-76 | The first loop collects the walk and counts its octets up to the end or the first jump. |
| DnsName.ToDotted | src/dns_util/dnsUtil.c:78-90 | The in-place loop turns length-prefixed labels into the dotted form. |
| DnsName.ChangetoDnsNameFormat | src/dns_util/dnsUtil.c:97-115 | The labels of the host go out with their lengths and a final zero, the host takes a dot, and no other octet changes. |
| DnsName.WireIsName | src/dns_util/dnsUtil.c:97-115 | Labels written out with a final zero are the name at that place, and take exactly those octets. |
| DnsWire.PointerIsName | src/dns_util/dnsUtil.c:51-76 | Labels followed by the two octets 192 + o / 256 and o % 256 are those labels and the name at offset o, and take two octets more than the labels. |
| DnsWire.ReadCompressed | src/dns_util/dnsUtil.c:39-91 | ReadName on such a name yields the dotted form of the whole. |
| DnsName.HostRoundTrip | src/dns_util/dnsUtil.c:39-115 | For any host of ASCII labels of 1 to 63 octets within 255 octets, what was written is a readable name, the host, and takes exactly the octets written. |
| DnsName.WriteAndRead | src/dns_util/dnsUtil.c:39-115 | On the buffers themselves: writing such a host into a message and reading it back yields the host and the number of octets written, and the message is otherwise unchanged. |
| DnsMessage.ReadRecord | src/dns_util/dnsUtil.c:261-280 | One turn of a record loop fills the slot with the record at the cursor and leaves the cursor at the end the record itself declares. |
| DnsMessage.ReadSection | src/dns_util/dnsUtil.c:256-326 | After k records, at most 20, the cursor stands at the end of record k and slot i holds record i; the other slots stay. |
| DnsMessage.ParseDnsResult | src/dns_util/dnsUtil.c:242-327 | Slot i of each section holds record i of that section of the message. |
| DnsWire.RecordStands | src/dns_util/dnsUtil.c:261-280 | In a record written octet by octet, owner, type, class, time to live, length and data are found where they were written, and the next record behind it. |
| DnsWire.MessageReads | src/dns_util/dnsUtil.c:242-327 | A message written octet by octet is one the reader is meant for, and each section is looked for where it was written and with its count. |
| DnsWire.ParseWritten | src/dns_util/dnsUtil.c:242-327 | What a server wrote is what parseDnsResult finds: slot k of each section holds record k, its names decompressed and the place of its fixed part. |
| DnsMessage.StrLenIsWire | src/dns_util/dnsUtil.c:253-254 | The string length of an uncompressed question name and its terminator are the octets it takes. |
| Liveness.CheckProcAlive | src/k8smgr/main.c:104-138 | A check updates counters, alive status and forced-death timer of its process alone, and nothing for an index out of range. |
| Liveness.HttpPatchPodLive | src/k8smgr/main.c:399-427 | A patch sets the alive status of the named process and starts the timer for status 0, or answers 404 and changes nothing. |
| Liveness.RetryIsTrailingRun | src/k8smgr/main.c:116-123 | Over all traces the retry counter is the length of the trailing run of checks that saw no change, whatever was patched in between. |
| Liveness.UnforcedCheck | src/k8smgr/main.c:125-137 | An unforced check reports a process dead if and only if the last three checks saw no change. |
| Liveness.ForceInRange | src/k8smgr/main.c:125-130 | Over all traces the timer stays within 0 and 5. |
| Liveness.ForcedDead | src/k8smgr/main.c:125-130 | After a status=0 patch and no later one the next five checks all report dead, whatever the counter does, and the fifth ends the timer. |
| Liveness.SixthCheck | src/k8smgr/main.c:125-137 | The sixth check after it is decided by the last three checks again. |
| Liveness.AfterPatch | src/k8smgr/main.c:399-427 | After a patch the process has the status patched in; only status 0 touches the timer, which it restarts. |
| Liveness.TimerIs | src/k8smgr/main.c:125-130 | Over all traces the timer counts the checks since the last patch with status 0, up to five, whatever else was patched in. |
| Liveness.AfterCheck | src/k8smgr/main.c:104-138 | Over all traces: within four checks of the last patch with status 0 the process is dead, the fifth leaves the status as it is, and every other check goes by the last three. |
| Liveness.RevivedAtTheFifth | src/k8smgr/main.c:125-130 | A process patched alive between the fourth and the fifth check comes alive at the fifth, even if it hangs. |
| ActiveStandby.ExactlyOneActive | src/k8smgr/main.c:583-649 | In modes AS and SA, from any state, once both pods are refreshed and the standby side was polled, exactly one pod is active if one is healthy and none otherwise, if and only if the standby side is unhealthy, or its peer is healthy and the answer to /start is known, or its peer is unhealthy and /start is unknown or /ready known; otherwise there is one too many or one too few. |
| ActiveStandby.BothSidesActive | src/k8smgr/main.c:622-649 | In mode AA exactly the healthy pods are active, whatever they hear. |
| ActiveStandby.RefreshedRole | src/k8smgr/main.c:622-649 | A refreshed pod is active exactly if it is healthy and is the active side or does not believe its peer ready, for polls answered, failed or failed by half. |
| ActiveStandby.RefreshedLabel | src/k8smgr/main.c:622-649 | Every label of a refreshed pod: forced unreadiness if it is forced, a failed process if one is dead and it is not forced, and of the healthy ones standby exactly for the side that is not the active one and believes its peer ready. |
| ActiveStandby.AllAliveIs | src/k8smgr/main.c:248-258 | A pod counts as alive exactly if no process of it has a status of zero or less. |
| ActiveStandby.ByOutcome | src/k8smgr/main.c:473-506 | The number of active pods for each of the four ways a poll can end. |
| ActiveStandby.NoneActive | src/k8smgr/main.c:483-491 | A run with no pod active although the standby side is healthy: /ready fails, /start is answered after it. |
| ActiveStandby.BothActive | src/k8smgr/main.c:483-491 | A run with both pods active: /start fails, /ready is answered after it. |
| ActiveStandby.KnownValue | src/k8smgr/main.c:473-506 | An answer not followed by a failure is remembered and tells the truth about the peer, whatever was remembered before. |
| ActiveStandby.SpoiltValue | src/k8smgr/main.c:483-491 | Once a request failed, a value not answered since is -1, whichever request it was. |
| ActiveStandby.Believes | src/k8smgr/main.c:473-506 | A polled pod takes its peer for ready if and only if /start is known and /ready is unknown or the peer healthy. |
| ActiveStandby.Manager.MainTick | src/k8smgr/main.c:583-596 | A tick records whether every process of the list is alive. |
| ActiveStandby.Manager.HttpReplyPodReady | src/k8smgr/main.c:329-345 | A pod answers 200 exactly if it is healthy. |
| ActiveStandby.Manager.HttpPatchPodReady | src/k8smgr/main.c:346-359 | A patch of the ready status sets or lifts forced unreadiness; without a status it answers 503 and changes nothing. |
| ActiveStandby.Manager.HttpRecvReply | src/k8smgr/main.c:473-506 | A reply sets the value it is about; a failure spoils both. |
| ActiveStandby.Manager.MainUpdatePodLabel | src/k8smgr/main.c:622-649 | The role is decided from health, side and peer status and nothing else changes. |

## Left out

- FortRender.Renderer.ToString: sizes are assumed to fit an int, which the printers return; and tables that combine spans with tags are left out because the estimate fails for some of them (FortOverflow). Nothing is said of the bytes of a buffer that grew when there is nothing to print.
- FortBounds.Rectangular: for tables without tags; tags are bytes without visible width.
- FortRender.BufferPrintf: room for the line is assumed; `Renderer.ToString` proves that in rendering a table there always is room.
- FortRender.CellPrintf: room for the cell's line is assumed.
- FortRender.SnprintfRow: room for the row's lines is assumed.
- FortRender.PrintRowSeparator: room for the separator is assumed.
- FortPrint.NPrint: not for a text of as many bytes as there are left, or one more, which the code's own check lets through.
- FortVector.Vector.Insert: positions up to the end; behind it the code would leave a gap of undefined elements.
- FortVector.Vector.Swap: positions up to the end, for the same reason.
- FortRow.TableRow.SwapRow: columns up to the row's end, where the cursor stands.
- FortRow.TableRow.InsertRow: columns up to the row's end; behind it the code fills up with empty cells first.
- FortRow.TableRow.SplitRow: columns inside the row, as its only caller has checked.
- FortRow.TableRow.EraseRange: a left column up to the row's end; behind it the number of cells to erase would wrap around.
- FortTable.Table.Write: the cursor is where the editing calls leave it, not set past the end of a row by `ft_set_cur_cell` or left there by an erase.
- FortTable.Table.Printf: the cursor as for Write; and the formatted text is given, variable arguments are left out.
- FortTable.Table.PrintfLn: the cursor as for Write.
- FortTable.Table.EraseRange: not for a table without rows, a first row behind the rows, or a left column behind a row's end, where the code's counts wrap around; and the cursor is not claimed to stay inside its row.
- Utf8Search.Utf8Str: for a valid haystack and needle, as stepping by code points relies on it.
- Utf8Case.Utf8Lwr: for valid texts, for the same reason.
- Utf8Search.Utf8Chr: the needle is as long as the encoding and its terminator, where the code has five bytes with zeros behind.
- TopoClient.ClientMirrors: for tables whose records have clean and sufficiently filled fields; sizes below the buffer are asked for where replies are sent (TopoSystem).
- TopoServer.InTable: for runs with a clock that is set and does not go back, and without a pod named OMP, as such a pod would give the OMP record a heartbeat and make it removable.
- DnsName.ReadName: for names other than the root, with every jump leading to before the run of labels it ends, and at most 255 octets expanded; the code reads outside its buffers or does not end for others.
- DnsMessage.ParseDnsResult: at most 20 records in each section; behind a longer section the next one would be read from the wrong place. Slots hold the contents of the buffers the code allocates, not their addresses.
- ActiveStandby.ExactlyOneActive: for a standby side that was polled; before any poll its remembered values are whatever it started with.
- Liveness.HttpPatchPodLive: the status is given; a request without one is answered 503 and then read as a null string by the code.
- Wide-character and UTF-8 rendering in `fort.c`: they repeat the byte path and depend on the locale or on callbacks.
- Style and colour tables, border tables and the lookup of a property through row and column defaults: a table's resolved properties are a parameter.
- Allocation failure and custom allocators.
- `utf8upr` has the loop of `utf8lwr`; only its code-point table is modelled. The remaining utf8 functions are unused here.
- Sockets, HTTP, TLS, message queues, shared memory, files and the environment: inputs, outputs and step labels. A keepalive counter is read from an array that other processes write.
- Overflow of the retry counter and of buffers behind `sprintf`.
- `proc_a`, `proc_b`, manifests and scripts.
