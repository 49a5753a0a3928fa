# Verification of the incremental structures of ovim-core

This project models the stateful core of ovim-core and proves, with Dafny, that each
fast or incremental structure agrees with something simple. It covers

- the sparse line index (`text_index.rs`): checkpoints every 256 clusters, only the
  special clusters recorded, updated by edits; against plain walks over the line
  (`display.rs`, `unicode/mod.rs`), and the cache of such indexes with its history of
  row splices;
- soft wrap (`wrap.rs`, `line_layout.rs`): the lazy wrap walk, the eager cursor walk,
  the row builder and its arithmetic form for plain ASCII, all against one layout cell
  by cell;
- folds (`fold.rs`): the index of closed folds, visible line arithmetic, levels, the
  one-stack merge of automatic folds, line count adjustment;
- edit history (`edit.rs`, `change.rs`, `edit_log.rs`, the insert session of
  `repeat_action.rs`): undo and redo with groups, save points and tokens, the version
  log, symbolic replay and dot-repeat;
- structural scanning (`auto_indent.rs`, `indentation.rs`, `textobjects.rs`): the
  multi-line lexer and the reindent planner, and the bracket matcher.

A buffer is a sequence of characters and LF is the only line break. A line is a
sequence of clusters with a character count, a width and a tab flag. Segmentation is an
abstract function: whether a cluster ends before a character depends on the text up to
that character, and ASCII lines segment into single characters; the rules of section
3.1.1 of UAX #29 have that shape. Objects that update their fields are classes whose
methods are tied to functions; `Valid()` is established by constructors and kept by
every method, so what it says holds in every run.

## Layout

| modules | subject |
|---|---|
| `Display`, `Segments`, `DisplaySpecials`, `LineIndexes`, `LineIndexQueries` | clusters, plain walks, the line index |
| `Lines`, `RowEdits`, `LineChanges`, `TextIndexCaches`, `IndexedBuffers` | rows of a text, how edits move them, the cache and its history |
| `Wraps`, `WrapPoints`, `EagerWalks`, `RowPositions`, `RowCells`, `RowBuilders`, `ShownRows`, `ComposedColumns`, `Agreements`, `LineLayouts` | soft wrap |
| `Folds`, `VisibleLines`, `FoldOrder`, `FoldLevels`, `FoldUpdates`, `FoldStates`, `FoldMoves`, `FoldManagers`, `FoldRuns`, `FoldCommands` | folds |
| `Edits`, `History`, `Changes`, `HistoryRuns`, `HistoryCommands`, `SavePoints`, `SavedStates`, `UndoGroups`, `UndoSteps`, `EditLogs` (with `EditLogQueries`), `InsertReplay`, `TypedSessions` | edit history |
| `Scanner`, `ScannedCode`, `Indentation`, `AutoIndent`, `IndentDepths`, `ShownBlanks`, `TextObjects` | structural scanning |
| `Basics`, `Search`, `Arithmetic` | optional values and sequences, binary search, quotients |

## Where the code and its comments part

The model follows the code.

- `ovim-core/src/display.rs:55-57` says that a column inside a grapheme resolves to the
  grapheme's starting column; the walk at lines 62-73 counts the whole grapheme, and so
  does the line index. The comment holds exactly at the first character and for
  invisible graphemes (`InsideCountsWhole`).
- `ovim-core/src/edit_log.rs:70-73` promises nothing when history is lost; an empty log
  that was cleared answers every older version with an empty list
  (`ClearedLogHidesHistory` says exactly when, `OlderIsRefusedUnlessEmpty` for versions
  skipped at the clear).
- The branch for a failure in the middle of an undo group
  (`ovim-core/src/change.rs:965-968`) is never taken: only recorded changes have a group,
  and those cannot fail (`UndoGroupCompletes`).
- `ovim-core/src/change.rs:1024-1029` and `ovim-core/src/editor/change_tracking.rs:134-142`
  take the save point to stand for the saved text. A buffer that is not modifiable refuses
  the edits of an undo or redo, the entries move all the same
  (`ovim-core/src/change.rs:520-589`), and the save point can be reached with another text
  (`RefusedUndoForgesSavePoint`; `MoveOntoSavePoint` says exactly when,
  `AtSavePointMeansSavedText` covers all other runs).
- Redo restores what undo took off only while no group is split between the stacks. Marks
  keep their group ids apart from those of agent turns (`ovim-core/src/change.rs:869-872`),
  and the tokens that merges redeem are kept only for changes with edits
  (`ovim-core/src/editor/change_building.rs:70-87`,
  `ovim-core/src/editor/input/helpers.rs:1229-1231`). `RunKeepsWholeGroups` shows that this
  is enough, `SharedIdSplitsGroup` and `EmptyEntryUncoversGroup` that it is needed.
- A removal of lines can make nested folds cross (`RemovalCanCross` is an instance,
  `AdjustedKeepsLaminar` says exactly when); the index of closed folds stays right
  (`OuterCoversClosed` needs no nesting).
- `zr` raises the level, and a higher level hides no more than a lower one
  (`RaisingLevelHidesNothing`), but it reapplies the level to folds opened by hand and can
  hide their lines (`RaisingMayCloseByHand`; `ReapplyHides` says exactly which).
- A session that reached back before its origin, repeated near the start of a text, has
  its offsets clamped (`TranslationIffInText` says exactly when). An edit so clamped has
  another effect than its translation unless it is empty (`ClampedEditIffEmpty`): a
  replayed backspace deletes forward (`ReplayAtStartDeletesForward`).
- The cursor walk and the rendered rows can differ at zero-width clusters, after glyphs
  wider than the view, and at the end of a line whose last cluster holds an anchor
  (`ZeroWidthDisagrees`, `WideGlyphDisagrees`, `InnerAnchorDisagrees`);
  `ClustersAgreeExactly` and `EndsAgreeExactly` say exactly when they agree, for every
  line.

## Model

| member | source | states |
|---|---|---|
| Display.CharColToDisplayCol | ovim-core/src/display.rs:58-76 | the column walk gives the display start of the first cluster boundary at or after the character: a column inside a cluster counts the whole cluster |
| Display.DisplayColToCharCol | ovim-core/src/display.rs:82-105 | the cell walk stops at the first cluster that starts at or reaches past the column, zero-width clusters and columns past the end included |
| Display.DisplayWidth | ovim-core/src/display.rs:108-118 | a line is as wide as the display start after its last cluster |
| Display.GraphemeToCharCol | ovim-core/src/unicode/mod.rs:262-271 | a grapheme column past the end means the end of the line |
| Display.CharToGraphemeCol | ovim-core/src/unicode/mod.rs:296-307 | the cluster found is the one that contains the character |
| Display.BoundaryOfChar | ovim-core/src/unicode/mod.rs:262-307 | grapheme to character and back is the identity |
| Display.DisplayRoundTrip | ovim-core/src/display.rs:58-105 | character to cell and back is the identity on cluster boundaries when no cluster is invisible |
| Display.InsideCountsWhole | ovim-core/src/display.rs:55-76 | a character inside a cluster has the display column of the cluster if and only if it is the first one or the cluster is invisible: the doc comment holds nowhere else |
| Display.TabStops | ovim-core/src/display.rs:67-68 | a tab ends at the first multiple of the tab width behind its start, and any other cluster takes the cells of its width |
| Display.CellNamesCluster | ovim-core/src/display.rs:82-105 | a cell belongs to the first cluster that begins there, visible or not, otherwise to the one that covers it, and past the last cell to the end of the line |
| Display.PastTheEnd | ovim-core/src/unicode/mod.rs:262-307 | character and grapheme columns past the end stand for the end of the line |
| Segments.AsciiCells | ovim-core/src/display.rs:30-50 | on an ASCII line a tab goes to the next stop, a control character takes two cells and any other character one |
| Segments.ClustersEndAtBreaks | ovim-core/src/unicode/mod.rs:262-271 | a cluster ends exactly where the segmentation breaks the text, or where the text ends |
| Segments.SharedClusters | ovim-core/src/text_index.rs:338-351 | two texts with a common prefix have the same clusters up to any boundary strictly inside it, for any segmentation decided by the text up to each character |
| Segments.AsciiClusters | ovim-core/src/text_index.rs:256-266 | on an ASCII line every character is a cluster of its own |
| DisplaySpecials.DisplayPoints | ovim-core/src/text_index.rs:495-518 | accumulating over the tabs and odd-width clusters alone yields the exact character and display start and end of each of them in the whole line |
| DisplaySpecials.CellOfCharExact | ovim-core/src/text_index.rs:537-544 | binary search plus arithmetic over the sparse points equals the plain walk at every cluster boundary |
| DisplaySpecials.CharOfCellExact | ovim-core/src/text_index.rs:547-566 | for every cell the sparse arithmetic lands inside the very cluster the plain walk stops at, and a reached special is that cluster |
| DisplaySpecials.PassedCount | ovim-core/src/text_index.rs:551-553 | the search predicate is partitioned: what it passes is exactly the specials before the cluster the walk stops in |
| LineIndexes.NewLayout | ovim-core/src/text_index.rs:244-270 | a new index is faithful to its line: exact checkpoints, exactly the special clusters, the right grapheme count |
| LineIndexes.BuildSuffix | ovim-core/src/text_index.rs:272-290 | from any exact checkpoint with the specials before it, the rest of the index is rebuilt faithfully, checkpoints never more than a stride apart |
| LineIndexes.AsciiSpecials | ovim-core/src/text_index.rs:258-265 | a scan of characters finds exactly the special clusters of an ASCII stretch |
| LineIndexes.EditedAscii | ovim-core/src/text_index.rs:303-334 | keeping, inserting and shifting specials of an ASCII line gives the index of the edited line |
| LineIndexes.RestartIsBoundary | ovim-core/src/text_index.rs:339-351 | resegmentation restarts at a cluster boundary strictly before the edit, or at the origin |
| LineIndexes.KeptAreCheckpoints | ovim-core/src/text_index.rs:339-371 | the checkpoints kept left of the restart are exact, ascending and at most a stride apart, also when an ASCII prefix gets its first explicit ones |
| LineIndexes.EditedSuffix | ovim-core/src/text_index.rs:335-380 | keeping a prefix and rebuilding the rest gives the index of the edited line |
| LineIndexes.EditedLayout | ovim-core/src/text_index.rs:292-382 | for every line, range and inserted text the edited index is faithful to the edited line, whether it stays ASCII, becomes Unicode or becomes ASCII |
| LineIndexQueries.PositionForGrapheme | ovim-core/src/text_index.rs:414-438 | walking on from a checkpoint finds the character and index of any grapheme, clamped to the line |
| LineIndexQueries.WalksWithinStride | ovim-core/src/text_index.rs:23-23 | the checkpoint a lookup starts from is at most 256 clusters before its goal |
| LineIndexQueries.GraphemeAtChar | ovim-core/src/text_index.rs:440-456 | walking on from a checkpoint finds the cluster containing a character |
| LineIndexQueries.LineIndex.New | ovim-core/src/text_index.rs:240-270 | a valid index of exactly this line |
| LineIndexQueries.LineIndex.FromEdit | ovim-core/src/text_index.rs:292-382 | a valid index of exactly the edited line, so that each query answers as on a new index of that text |
| LineIndexQueries.LineIndex.GraphemeCount | ovim-core/src/text_index.rs:390-392 | the number of clusters of the line |
| LineIndexQueries.LineIndex.GraphemeToCharCol | ovim-core/src/text_index.rs:436-438 | equals the plain walk over the line |
| LineIndexQueries.LineIndex.CharToGraphemeCol | ovim-core/src/text_index.rs:440-456 | equals the plain walk over the line, past the end included |
| LineIndexQueries.LineIndex.DisplayCheckpoints | ovim-core/src/text_index.rs:495-525 | cached or computed, the points are those of the line at this tab width; at most four widths are remembered |
| LineIndexQueries.LineIndex.CharToDisplayCol | ovim-core/src/text_index.rs:529-545 | equals the plain walk for every column and tab width, inside clusters and past the end |
| LineIndexQueries.LineIndex.DisplayToCharCol | ovim-core/src/text_index.rs:547-570 | equals the plain walk for every cell and tab width, zero-width clusters included |
| LineIndexQueries.LineIndex.DisplayWidthOf | ovim-core/src/text_index.rs:572-574 | equals the plain display width |
| LineIndexQueries.SnapUp | ovim-core/src/text_index.rs:530-536 | snapping a column inside a cluster to its end finds the boundary the walk stops at |
| LineChanges.LineChangeLog.Since | ovim-core/src/text_index.rs:852-863 | nothing exactly for versions before the base or in the future; otherwise the complete record of row splices from that version, never part of one |
| LineChanges.LineChangeLog.Push | ovim-core/src/text_index.rs:868-873 | a full history drops its oldest change and moves its base up to it, and what remains still accounts for every version after the base |
| LineChanges.LineChangeLog.Reset | ovim-core/src/text_index.rs:864-867 | after a reset the history starts at the given version |
| LineChanges.HistoryFollowsRows | ovim-core/src/text_index.rs:829-838 | rows followed through a recorded history are as many as the current text has, and each row not rewritten holds exactly the text it had |
| RowEdits.RowsAroundEdit | ovim-core/src/text_index.rs:884-930 | the new row count computed from line totals is the number of rows of the inserted text |
| RowEdits.RowsBeyond | ovim-core/src/text_index.rs:943-953 | rows after an edit move by the difference of the row counts and keep their text |
| RowEdits.RowSpliced | ovim-core/src/text_index.rs:931-942 | an edit inside one row splices that row at the recorded columns |
| RowEdits.EditIsRowSplice | ovim-core/src/text_index.rs:954-959 | the reported change describes exactly which rows of the text differ |
| RowEdits.ChangeTouchesOnly | ovim-core/src/text_index.rs:916-960 | the reported change names no row beyond those of the removed and the inserted text |
| Lines.JoinOfSplit | ovim-core/src/buffer/mod.rs:499-523 | the lines of a text, put together with a break between each and the next, are the text |
| Lines.SplitLinesHaveNoBreak | ovim-core/src/buffer/mod.rs:499-523 | no line has a break in it |
| Lines.ShownLines | ovim-core/src/buffer/mod.rs:499-516 | every line is counted but the empty one behind a break at the end of a text |
| Lines.ColumnCounts | ovim-core/src/edit.rs:32-45 | a position is as many characters behind the last break before it as its column says |
| TextIndexCaches.TextIndexCache.Lookup | ovim-core/src/text_index.rs:899-910 | a lookup returns the index of that row of the current text, reusing a cached one |
| TextIndexCaches.TextIndexCache.Edited | ovim-core/src/text_index.rs:916-960 | after any edit every entry is the index of its row of the new text; a local edit replaces one entry, another edit keeps every other entry under its moved row |
| TextIndexCaches.Rekey | ovim-core/src/text_index.rs:943-953 | splitting the map at the edited row and reinserting loses no entry after the edit and invents none |
| TextIndexCaches.MovedAreCurrent | ovim-core/src/text_index.rs:943-953 | entries under their moved row numbers index the rows of the edited text |
| IndexedBuffers.IndexedBuffer.Edit | ovim-core/src/buffer/mod.rs:598-609 | an edit keeps every cached index and the splice history exact, keeps the entries of the rows it leaves alone, and adds one change to the history |
| IndexedBuffers.IndexedBuffer.ReplaceAll | ovim-core/src/buffer/mod.rs:333-343 | a replacement without an exact splice drops every entry and restarts the history |
| IndexedBuffers.IndexedBuffer.LineIndexAt | ovim-core/src/buffer/mod.rs:585-590 | in every run the index of a line is that of the current line |
| IndexedBuffers.IndexedBuffer.LineChangesSince | ovim-core/src/buffer/mod.rs:594-596 | in every run the answer is nothing or leads every unchanged row back to its place at that version |
| Wraps.ComputeWrapPoints | ovim-core/src/wrap.rs:58-168 | the wrap points are those of laying the composed line out cell by cell, glyphs whole, decorations before the character they come due at and the rest at the end |
| Wraps.VisualLineCount | ovim-core/src/wrap.rs:317-327 | the row count is the number of rows of that layout, one for an empty line |
| WrapPoints.WrapPointsExactly | ovim-core/src/wrap.rs:84-168 | a row begins exactly at what does not fit behind what is in the row before; its wrap point is the first character of the cluster it begins with, or of the one behind the decoration it begins with, or the end of the line |
| WrapPoints.BreaksAreUnique | ovim-core/src/wrap.rs:84-168 | there is only one way to break a line so |
| EagerWalks.VisualPositionForFlatCol | ovim-core/src/wrap.rs:183-314 | the nested loops place a column as the eager walk over the same cells does, mid-cell columns and columns past the end included |
| RowPositions.StepAgrees | ovim-core/src/wrap.rs:246-272 | for glyphs of any width one step of the eager walk is one step of the lazy layout, a row lower exactly when a glyph wider than the view meets a full row |
| RowPositions.ScanFinds | ovim-core/src/wrap.rs:210-272 | the walk finds the first cell at a column where the layout puts it, lower by the rows it has left blank |
| RowPositions.ScanPasses | ovim-core/src/wrap.rs:210-272 | the walk passes every cell before the column it looks for |
| RowPositions.TrailFinds | ovim-core/src/wrap.rs:284-303 | trailing decoration cells are found where the layout puts them, and after the last the cursor stays on its row, full or not |
| RowPositions.RangesFind | ovim-core/src/line_layout.rs:307-330 | the last row that starts at or before a column is the row of the next visible cell, after what invisible cells before it have opened |
| RowPositions.MeetExactly | ovim-core/src/line_layout.rs:307-330 | row ranges and walk meet at a column if and only if no row was left blank and no invisible cluster stands there before a glyph that moves down, or one blank row makes up for it |
| RowPositions.RowIsBreakCount | ovim-core/src/wrap.rs:84-140 | a visible cell is in the row numbered by the breaks emitted up to it |
| RowBuilders.RowBuilder.PushAtomic | ovim-core/src/line_layout.rs:778-795 | a glyph is placed as one step of the layout, the row it does not fit on padded to full |
| RowBuilders.RowBuilder.PushTab | ovim-core/src/line_layout.rs:758-776 | placing a tab in row-sized chunks equals placing its cells one by one, and advances the tab base |
| RowBuilders.RowBuilder.PushInline | ovim-core/src/line_layout.rs:706-756 | placing a decoration in row-sized chunks equals placing its cells one by one, and leaves the tab base alone |
| RowBuilders.RowBuilder.NextRow | ovim-core/src/line_layout.rs:682-690 | a row is closed only when full, at the column the next one starts at |
| RowBuilders.RowBuilder.PadCurrentRow | ovim-core/src/line_layout.rs:692-704 | padding fills the open row and is not a display column |
| RowBuilders.RowBuilder.PushPlan | ovim-core/src/line_layout.rs:797-823 | fragments stay side by side whether or not adjacent text is merged |
| RowBuilders.RowBuilder.Finish | ovim-core/src/line_layout.rs:825-828 | the finished rows have contiguous display ranges, all but the last full, an overfull one holding a single glyph |
| RowBuilders.BuildRichRows | ovim-core/src/line_layout.rs:615-657 | the rows built are exactly those of the cell-by-cell layout |
| ShownRows.RowShowsItsRange | ovim-core/src/line_layout.rs:615-657 | every row shows the cells of its display range and no others: of which glyph, tab or decoration, and which cell of a decoration |
| Agreements.RowsExactlyFull | ovim-core/src/line_layout.rs:692-704 | when no cluster is wider than the view every row but the last is exactly full, counting padding |
| Agreements.FullUnlessWide | ovim-core/src/line_layout.rs:778-795 | a row before the last is exactly full if and only if it spans no more columns than the view; otherwise it holds a single glyph |
| LineLayouts.EvenCount | ovim-core/src/line_layout.rs:287-292 | the division in the plain form counts the rows of the layout |
| LineLayouts.EvenPosition | ovim-core/src/line_layout.rs:301-305 | quotient and remainder are the position in the layout, also at the end of a line that fills its last row |
| LineLayouts.PlainLine | ovim-core/src/line_layout.rs:252-256 | a plain ASCII line without decorations lays out in even rows of its characters |
| LineLayouts.IndexedLineLayout.FromRuns | ovim-core/src/line_layout.rs:244-268 | whichever form is chosen describes the layout of the line |
| LineLayouts.IndexedLineLayout.RowCount | ovim-core/src/line_layout.rs:287-292 | both forms have as many rows as the wrap walk counts |
| LineLayouts.IndexedLineLayout.DisplayRangeForRow | ovim-core/src/line_layout.rs:335-348 | both forms give ranges that follow on from each other and end at the width of the line; none past the last row |
| LineLayouts.IndexedLineLayout.PositionForChar | ovim-core/src/line_layout.rs:297-331 | both forms give the place of the composed column of the clamped character, whatever fragments the row holds |
| LineLayouts.ColumnInRow | ovim-core/src/line_layout.rs:312-322 | going through the fragments of a row finds the distance from the start of the row |
| LineLayouts.LineWidth | ovim-core/src/line_layout.rs:738-795 | every content and decoration cell is laid out once |
| Agreements.ClustersAgreeExactly | ovim-core/src/line_layout.rs:297-331 | for clusters of any width and decorations anchored anywhere: when rows and cursor walk agree on a cluster, both directions |
| Agreements.EndsAgreeExactly | ovim-core/src/line_layout.rs:297-331 | for any line: when they agree on the end of the line, both directions |
| Agreements.InvisibleDecides | ovim-core/src/wrap.rs:246-272 | with no glyph wider than the view they differ on a cluster exactly when an invisible cluster comes first at its column, in a row begun but too full for the next visible glyph |
| Agreements.WideDecides | ovim-core/src/line_layout.rs:779-784 | with no invisible cluster they differ on a cluster exactly when a glyph wider than the view, up to its own, has met a full row |
| Agreements.LayoutsAgree | ovim-core/src/line_layout.rs:297-331 | with widths from one to the view they agree on every cluster, wherever decorations are anchored |
| Agreements.EndsAgree | ovim-core/src/wrap.rs:284-309 | and on the end of the line exactly unless all trailing cells are anchored before it and the last one fills its row |
| Agreements.RowIsWrapPoints | ovim-core/src/wrap.rs:58-168 | a cluster is in the row numbered by the wrap points emitted up to its first cell, exactly unless it is invisible and its row is full or the next visible glyph moves down |
| ComposedColumns.ComposedIsAhead | ovim-core/src/line_layout.rs:467-476 | the composed column of a cluster is the width of all that is laid out ahead of it |
| ComposedColumns.ComposedEnd | ovim-core/src/line_layout.rs:467-476 | that of the end of the line is the width of the content and of the trailing cells anchored before the end |
| Agreements.ZeroWidthDisagrees | ovim-core/src/wrap.rs:246-272 | in every view of two cells or more and for every glyph of two cells or more that fits it: an invisible cluster before the glyph, and rows and walk differ |
| Agreements.WideGlyphDisagrees | ovim-core/src/line_layout.rs:779-784 | in every view and for every glyph wider than it: behind a full row, rows and walk differ on it |
| Agreements.InnerAnchorDisagrees | ovim-core/src/wrap.rs:284-309 | in every view of two cells or more: a decoration anchored inside the last cluster that fills the row, and they differ at the end of the line |
| Folds.BuildIndex | ovim-core/src/fold.rs:163-196 | the linear pass builds the tables of outer folds, hidden ranges and running totals of these folds |
| Folds.OuterCoversClosed | ovim-core/src/fold.rs:163-173 | a line is in an outer range exactly when some closed fold contains it, and in its body exactly when some closed fold hides it, crossing folds included |
| Folds.HiddenRangesExact | ovim-core/src/fold.rs:174-181 | hidden ranges ascend, never touch, and cover exactly the hidden lines |
| Folds.OuterIsAFold | ovim-core/src/fold.rs:163-173 | with nested folds every outer range is one of the closed folds |
| FoldManagers.FoldManager.Index | ovim-core/src/fold.rs:254-261 | the cached index is the one of the current folds |
| FoldManagers.FoldManager.ClosedFoldAt | ovim-core/src/fold.rs:346-356 | finds an outer range exactly when a closed fold in force contains the line |
| FoldManagers.FoldManager.IsLineHidden | ovim-core/src/fold.rs:370-373 | hidden means folding is on and some closed fold starts above the line and reaches it |
| FoldManagers.FoldManager.Hidden | ovim-core/src/fold.rs:421-426 | ascending ranges that cover exactly the hidden lines |
| FoldManagers.FoldManager.HiddenCountBefore | ovim-core/src/fold.rs:429-444 | the exact number of hidden lines above a line |
| VisibleLines.CountBeforeExact | ovim-core/src/fold.rs:429-444 | the running totals with one cut range count every hidden line above |
| FoldManagers.FoldManager.VisibleIndex | ovim-core/src/fold.rs:447-449 | the number of visible lines above |
| FoldManagers.FoldManager.LineAtVisibleIndex | ovim-core/src/fold.rs:452-480 | the one visible line with that many visible lines above, for every index |
| VisibleLines.ShiftLandsOnVisible | ovim-core/src/fold.rs:452-480 | shifting an index by the ranges begun by then lands on the visible line with that index |
| VisibleLines.VisibleIndexInjective | ovim-core/src/fold.rs:447-480 | no two visible lines have the same index |
| FoldManagers.FoldManager.NextVisibleLine | ovim-core/src/fold.rs:483-492 | the first visible line from a line on, or none in the buffer |
| FoldManagers.FoldManager.StepDown | ovim-core/src/fold.rs:495-508 | from a visible line: adds the count to the visible index, clamped at the last visible line at or above the limit; a line below the limit is not left |
| FoldManagers.FoldManager.StepUp | ovim-core/src/fold.rs:511-524 | from a visible line: subtracts the count from the visible index, clamped at zero |
| FoldManagers.FoldManager.OpenOne | ovim-core/src/fold.rs:529-538 | opens the outermost closed fold around the line and nothing else |
| FoldManagers.FoldManager.CloseOne | ovim-core/src/fold.rs:541-557 | closes the innermost open fold around the line with none open deeper, and nothing else |
| FoldManagers.OpenUndoesClose | ovim-core/src/fold.rs:529-557 | opening one after closing one restores the folds |
| FoldManagers.FoldManager.ToggleOne | ovim-core/src/fold.rs:560-566 | on a line in a closed fold in force opens the outermost closed fold, else closes the innermost open one; changes nothing exactly when there is none |
| FoldManagers.FoldManager.SetRecursive | ovim-core/src/fold.rs:569-596 | sets every fold around the line and nothing else, and tells whether anything changed |
| FoldManagers.FoldManager.Reveal | ovim-core/src/fold.rs:608-617 | ends, with exactly the closed folds around the line opened and the line visible |
| FoldLevels.LevelCountsEnclosing | ovim-core/src/fold.rs:635-647 | with nested folds the stack gives each fold the number of folds up to it that enclose it |
| FoldManagers.FoldManager.ApplyFoldlevel | ovim-core/src/fold.rs:661-672 | opens exactly the folds up to the level in force and keeps every range |
| FoldManagers.FoldManager.OpenAll | ovim-core/src/fold.rs:675-678 | no line stays hidden |
| FoldManagers.FoldManager.CloseAll | ovim-core/src/fold.rs:681-684 | exactly the bodies of all folds are hidden |
| FoldManagers.FoldManager.ReduceFolding | ovim-core/src/fold.rs:688-692 | the level goes up by the count, at most to the deepest nesting |
| FoldManagers.FoldManager.FoldMore | ovim-core/src/fold.rs:696-702 | the level goes down by the count, at least to zero |
| FoldLevels.RaisingLevelHidesNothing | ovim-core/src/fold.rs:688-692 | what a higher level hides a lower one hides too |
| FoldLevels.ReapplyHides | ovim-core/src/fold.rs:661-672 | applying a level hides a visible line exactly when it is in the body of an open fold nested deeper than the level |
| FoldLevels.RaisingMayCloseByHand | ovim-core/src/fold.rs:688-692 | raising the level can hide a line of a fold opened by hand |
| FoldManagers.FoldManager.CreateFold | ovim-core/src/fold.rs:287-300 | the new closed fold replaces crossing and equal ones, nested folds stay nested |
| FoldUpdates.CreatedMembers | ovim-core/src/fold.rs:287-300 | exactly the new fold and those that neither equal nor cross it |
| FoldManagers.FoldManager.DeleteFoldAt | ovim-core/src/fold.rs:713-718 | removes the innermost fold around the line and nothing else, and keeps the rest nested |
| FoldManagers.FoldManager.DeleteRecursive | ovim-core/src/fold.rs:722-728 | removes the outermost fold around the line with all that it encloses and nothing else, and keeps the rest nested |
| FoldManagers.FoldManager.SetAutoFoldsFrom | ovim-core/src/fold.rs:801-879 | the manual folds and the accepted candidates with their remembered or fresh state, sorted; nested folds stay nested |
| FoldStates.RecomputedStates | ovim-core/src/fold.rs:801-872 | an automatic fold of the result keeps the state of the last automatic fold that had its range, failing that of the outermost one that had its header line, and is otherwise open or follows its nesting against foldlevel; its range was asked for, is in the buffer and crosses no manual fold |
| FoldStates.ManualFoldsStay | ovim-core/src/fold.rs:809-813 | every manual fold stays as it is, as often as it is there |
| FoldStates.NoRangeIsLost | ovim-core/src/fold.rs:824-851 | every range that was asked for and is in the buffer is a fold afterwards, unless it crosses a manual fold or an automatic one of the result that comes before it |
| FoldManagers.Sweep | ovim-core/src/fold.rs:824-861 | the one-stack sweep accepts exactly what the quadratic filter accepts |
| FoldOrder.TopTellsCrossing | ovim-core/src/fold.rs:834-845 | the top of the stack alone tells whether a candidate crosses any accepted one |
| FoldOrder.AcceptedJoinManual | ovim-core/src/fold.rs:841-851 | no two of the manual and accepted folds cross |
| FoldOrder.SortKeepsMultiset | ovim-core/src/fold.rs:263-269 | sorting loses and invents no fold |
| FoldOrder.SortIsStable | ovim-core/src/fold.rs:263-269 | and folds of the same range keep their order |
| FoldManagers.FoldManager.AdjustForLineCount | ovim-core/src/fold.rs:884-907 | every fold shifts, shrinks or goes by its position to the edit; order is kept, and nested folds stay nested if and only if no two of them collide, which adding lines never makes them |
| FoldMoves.FoldsHoldOn | ovim-core/src/fold.rs:892-904 | a fold with no boundary among the removed lines is still there over the very lines it had, open or closed as it was, new lines included exactly when it held the line of the edit |
| FoldMoves.FoldsStayInBuffer | ovim-core/src/fold.rs:900-904 | no fold that was moved reaches past the last line |
| FoldManagers.FoldManager.NoteLineCount | ovim-core/src/fold.rs:910-912 | records the line count and moves nothing |
| FoldUpdates.CollideExactly | ovim-core/src/fold.rs:884-907 | two uncrossed folds that both remain cross after the adjustment exactly when one moves above the start of the other, moves up into it, or is cut short inside it |
| FoldUpdates.AdjustedKeepsLaminar | ovim-core/src/fold.rs:884-907 | nested folds stay nested if and only if no two of them collide |
| FoldUpdates.RemovalCanCross | ovim-core/src/fold.rs:884-907 | removing five lines makes two nested folds cross |
| FoldUpdates.KeptBoundariesNeverCollide | ovim-core/src/fold.rs:884-907 | folds without a boundary among the removed lines never collide |
| FoldRuns.StepKeepsOrder | ovim-core/src/fold.rs:263-300 | every fold command keeps sorted, proper folds; and nested folds nested exactly unless it follows a removal that makes two collide |
| FoldRuns.RunsKeepOrder | ovim-core/src/fold.rs:263-300 | every reachable state is sorted with proper folds, and nested as long as no removal made folds collide |
| FoldRuns.GrowingRunsStayNested | ovim-core/src/fold.rs:884-912 | in particular, without a removal of lines |
| FoldRuns.ReachableIndexExact | ovim-core/src/fold.rs:163-196 | in every reachable state, crossing folds included, the index describes the hidden lines and counts them |
| FoldRuns.ReachableLevels | ovim-core/src/fold.rs:635-647 | levels count enclosing folds in every state reached without a collision |
| FoldCommands.Perform | ovim-core/src/fold.rs:287-912 | every command of a manager is one step of a run |
| FoldCommands.PerformAll | ovim-core/src/fold.rs:287-912 | a new manager after any commands is in the state of a run, so that what runs keep every manager keeps |
| Edits.Edit.ApplyTo | ovim-core/src/edit.rs:32-45 | one edit on a modifiable buffer has the effect of the edit on its text; another buffer keeps its text |
| Edits.Buffer.InsertTextAt | ovim-core/src/buffer/text_ops.rs:13-57 | inserts at the clamped column of the line; ignores lines past the last, and does nothing when the buffer is not modifiable |
| Edits.Buffer.DeleteCharRange | ovim-core/src/buffer/text_ops.rs:275-314 | removes the clamped range and nothing else; an empty or reversed range, or a buffer that is not modifiable, removes nothing |
| Edits.Buffer.SetModifiable | ovim-core/src/buffer/mod.rs:441-444 | sets whether edits are accepted; the text stays |
| Edits.InverseUndoes | ovim-core/src/edit.rs:17-28 | the inverse of a faithfully recorded edit restores the text and is itself faithfully recorded |
| Edits.UndoAllUndoes | ovim-core/src/change.rs:557-575 | undoing recorded edits from the last to the first restores the text |
| Edits.SurvivingInsertedText | ovim-core/src/edit.rs:68-88 | the span computed by splices and drains, known characters only |
| Edits.TaggedReplayIsReplay | ovim-core/src/edit.rs:68-88 | a replay that tags characters as original or inserted is a replay |
| Edits.SurvivingTextIsInsertedText | ovim-core/src/edit.rs:68-88 | for edits valid on a document, whatever the document: the inserted and not later deleted characters in document order |
| Lines.LineColRoundTrip | ovim-core/src/edit.rs:32-45 | an offset turned into line and column and back is unchanged, so no clamp moves it |
| History.Change.ApplyTo | ovim-core/src/change.rs:520-549 | applying a change moves the text forward, or fails and leaves it; on a buffer that refuses edits it succeeds and leaves the text too |
| History.Change.UndoOn | ovim-core/src/change.rs:557-589 | undoing a change moves the text backward, or fails and leaves it; on a buffer that refuses edits it succeeds and leaves the text too |
| Changes.ChangeManager.PushChange | ovim-core/src/change.rs:857-864 | gives out the next number, clears the redo stack |
| Changes.GroupFrom | ovim-core/src/change.rs:869-881 | marks the entries above a number, from the top down, with one group |
| Changes.ChangeManager.Undo | ovim-core/src/change.rs:943-974 | text, stacks and outcome as specified, failures mid-group and refused edits included |
| Changes.ChangeManager.Redo | ovim-core/src/change.rs:982-1012 | text, stacks and outcome as specified, failures mid-group and refused edits included |
| Changes.ChangeManager.IsAtSavePoint | ovim-core/src/change.rs:1030-1032 | compares the save point with the number on top |
| Changes.ChangeManager.PopByToken | ovim-core/src/change.rs:1044-1050 | takes the top entry off when its number is the token |
| UndoSteps.UndoStepsExactly | ovim-core/src/change.rs:934-974 | undo does nothing exactly on an empty stack, fails exactly when the top entry cannot be restored, and otherwise takes the whole group on top and no entry more |
| UndoSteps.RedoStepsExactly | ovim-core/src/change.rs:982-1012 | the same for redo |
| UndoSteps.GroupedExactly | ovim-core/src/change.rs:869-881 | with ascending numbers exactly the recorded changes above the mark get its group |
| UndoSteps.TurnUndoneAtOnce | ovim-core/src/change.rs:866-886 | after any run, one undo takes back all that was pushed since a mark and brings back the text, if and only if the entry below has not the group of the mark already |
| HistoryRuns.UndoRedoKeepHistory | ovim-core/src/change.rs:943-1012 | whatever the outcome, and whether the buffer accepts edits or not, undo and redo only move the border between the stacks |
| HistoryRuns.MergeShape | ovim-core/src/editor/input/insert_mode.rs:98-127 | a merge does nothing, pushes one entry over those it leaves, or just takes entries off that have no edits |
| HistoryCommands.MergeChange | ovim-core/src/editor/input/insert_mode.rs:98-127 | the typed text and the deletion before it become one entry, as the step of a run says |
| HistoryCommands.MergeBlock | ovim-core/src/editor/input/insert_mode.rs:287-322 | what was typed, its copies on the other lines and the deletion become one entry, and without an entry to redeem nothing happens |
| HistoryCommands.Perform | ovim-core/src/change.rs:857-1050 | manager and buffer take every step as runs take it |
| HistoryCommands.PerformAll | ovim-core/src/change.rs:857-1050 | a new buffer and manager are, after any steps, in the state of the run, so that what runs promise holds of them |
| SavePoints.RefusedUndo | ovim-core/src/buffer/mod.rs:452-457 | on a buffer that refuses edits the stacks move and the outcome is reported as if the edits had been made, and the text stays |
| SavePoints.RefusedRedo | ovim-core/src/buffer/mod.rs:452-457 | the same for redo |
| SavePoints.UndoRedoKeepTimeline | ovim-core/src/change.rs:943-1012 | in every outcome the entries keep their places, and keep leading between the same texts if and only if no change of text was refused |
| HistoryRuns.UndoGroupCompletes | ovim-core/src/change.rs:953-972 | undo of recorded changes goes through its whole group |
| SavePoints.AtSavePointMeansSavedText | ovim-core/src/change.rs:1020-1037 | over every run in which no undo or redo is refused a change of text, being at the save point means the text is the one last saved, the initial one if none was |
| SavedStates.SavedExactlyWhereSaved | ovim-core/src/change.rs:1020-1032 | after a save, wherever undo and redo have moved to, the buffer is at the save point if and only if as many entries are applied as were saved |
| SavedStates.AtSavePointExactly | ovim-core/src/change.rs:1020-1037 | in every run, merges included, the buffer is at the save point if and only if the entries applied are those that were applied at the last save |
| SavedStates.MovesAfterSave | ovim-core/src/editor/change_tracking.rs:134-147 | after any run and a save, any undo and redo are at the save point if and only if as many entries are applied as at the save |
| SavePoints.MoveOntoSavePoint | ovim-core/src/editor/change_tracking.rs:143-147 | after such a run, an undo or redo that lands on the save point leaves the saved text if and only if it is not refused a change of text |
| SavePoints.RefusedUndoForgesSavePoint | ovim-core/src/editor/change_tracking.rs:99-112 | typing a letter, refusing edits and undoing ends at the save point with another text |
| HistoryRuns.NextNumberIsFresh | ovim-core/src/change.rs:857-864 | in every run, numbers on the stacks ascend and none is given out twice |
| HistoryRuns.TokenRedeemsItsOwnChange | ovim-core/src/change.rs:1044-1050 | in every later state a token yields the change it was given for or nothing |
| SavePoints.MergeKeepsSound | ovim-core/src/editor/input/insert_mode.rs:92-209 | popping a session by token and pushing the merged change keeps every text the history leads between |
| UndoGroups.UndoThenRedoRestores | ovim-core/src/change.rs:943-1012 | a successful undo and redo restore text and stacks exactly when the redo stack did not already hold more of the group |
| UndoGroups.RedoThenUndoRestores | ovim-core/src/change.rs:943-1012 | a successful redo and undo restore text and stacks exactly when the undo stack did not already hold more of the group |
| UndoGroups.UndoRedoKeepWholeGroups | ovim-core/src/change.rs:943-1012 | undo and redo never stop inside a group |
| UndoGroups.StepKeepsWholeGroups | ovim-core/src/change.rs:857-1050 | every step keeps the border between the stacks out of groups, but for a mark that gives the top the group waiting on the redo stack and a merge that uncovers an entry of it |
| UndoGroups.MarkKeepsWholeGroups | ovim-core/src/change.rs:869-881 | marking splits a group exactly when it reaches the top and gives out the group waiting on the redo stack |
| UndoGroups.MergeKeepsWholeGroups | ovim-core/src/editor/input/insert_mode.rs:92-209 | a merge splits a group exactly when all the entries it pops are without edits, it adds none, and the entry below has the group waiting on the redo stack |
| UndoGroups.RedeemingMergePushes | ovim-core/src/editor/input/insert_mode.rs:122-127 | a merge that redeems tokens of changes with edits does nothing or pushes its entry |
| UndoGroups.EmptyEntryUncoversGroup | ovim-core/src/editor/input/insert_mode.rs:122-127 | redeeming a change without edits can split the group of an agent turn |
| UndoGroups.SharedIdSplitsGroup | ovim-core/src/change.rs:869-872 | so can a mark that gives out the id of an agent turn, which the code avoids |
| UndoGroups.RunKeepsWholeGroups | ovim-core/src/change.rs:857-1050 | in every run whose marks give out no id of an agent turn and whose merges redeem changes with edits, the border is never inside a group, and below every marked entry the mark has stopped for a reason |
| UndoGroups.PushedEditsAreRedeemed | ovim-core/src/editor/change_building.rs:70-87 | when every change pushed has edits, as the code checks before it keeps a token, every merge redeems changes with edits |
| UndoGroups.UndoRedoRoundTripInRuns | ovim-core/src/change.rs:943-1012 | in all states of such runs, no change of text refused, undo then redo is the identity and so is redo then undo |
| EditLogs.EditLog.Push | ovim-core/src/edit_log.rs:60-68 | empty groups are ignored; a full log evicts its oldest group |
| EditLogs.EditLog.EditsSince | ovim-core/src/edit_log.rs:77-134 | for every run of pushes and clears: at a group boundary since the last clear, nothing exactly when a needed group was evicted, otherwise all edits since; versions before the clear are refused exactly while the log is not empty |
| EditLogs.EditLog.Clear | ovim-core/src/edit_log.rs:138-140 | holds no group any more, of all that were pushed |
| EditLogQueries.EditsSinceBoundary | ovim-core/src/edit_log.rs:77-134 | nothing exactly when a needed group was evicted, otherwise the edits of the later groups |
| EditLogQueries.ReplayFromBoundary | ovim-core/src/edit_log.rs:70-76 | replaying the answer on the text at that version gives the current text |
| EditLogQueries.ExactOnlyOnBoundaries | ovim-core/src/edit_log.rs:77-134 | for any version from the evicted ones on, the answer is the exact remainder if and only if the version is a group boundary |
| EditLogQueries.ClearedLogHidesHistory | ovim-core/src/edit_log.rs:70-140 | when the first groups are gone by eviction or clear, the answer at a group boundary is the promised one if and only if the log is not empty or the boundary is the newest |
| EditLogQueries.OlderIsRefusedUnlessEmpty | ovim-core/src/edit_log.rs:77-88 | a version older than everything since the last clear is refused if and only if the log is not empty |
| InsertReplay.Execute | ovim-core/src/repeat_action.rs:846-931 | the loops replay the session as specified, once per count, also on a buffer that refuses edits |
| InsertReplay.RefusedReplayKeepsText | ovim-core/src/buffer/mod.rs:452-457 | a buffer that refuses edits keeps its text however often they are replayed |
| InsertReplay.ReplayIgnoresPrefix | ovim-core/src/repeat_action.rs:903-931 | replay does not depend on the text before the smallest moved offset |
| InsertReplay.ReplayIsTranslation | ovim-core/src/repeat_action.rs:846-931 | in texts that read the same from there on the session has the same effect |
| InsertReplay.TranslationIffInText | ovim-core/src/repeat_action.rs:895-904 | offsets are translated faithfully if and only if the smallest stays in the text |
| InsertReplay.ClampedEditIffEmpty | ovim-core/src/repeat_action.rs:895-904 | an edit clamped at the start of the text has the effect of its translation, whatever would stand before the text, if and only if it is empty |
| InsertReplay.ReplayAtStartDeletesForward | ovim-core/src/repeat_action.rs:895-904 | near the start of the text a replayed backspace deletes forward |
| InsertReplay.OwnTextSurvives | ovim-core/src/edit.rs:68-88 | a session inside its own insertions, on an empty text, leaves exactly its surviving text |
| InsertReplay.ReplayInsertsSurvivors | ovim-core/src/repeat_action.rs:846-931 | such a session inserts exactly its surviving text at the cursor of any document |
| InsertReplay.CountedReplay | ovim-core/src/repeat_action.rs:895-931 | with a count the rounds pile up, each at the cursor the one before it left |
| TypedSessions.CursorIsAtLastEdit | ovim-core/src/repeat_action.rs:904-931 | the cursor is behind what the last edit inserted or where the text it deleted began, clamped to the text, and on a buffer that refuses edits as far as the text goes |
| TypedSessions.CursorBehindTyped | ovim-core/src/repeat_action.rs:904-931 | a session of typing and backspacing at its end leaves what was typed and not taken back, and the cursor behind it |
| TypedSessions.TypedReplay | ovim-core/src/repeat_action.rs:895-931 | repeated with a count, such a session inserts its text that many times at any cursor of any document, copy behind copy, and leaves the cursor behind the last |
| TextObjects.FindOpen | ovim-core/src/textobjects.rs:472-499 | scanning backward finds the delimiter that opens the cursor, or nothing opens it |
| TextObjects.FindClose | ovim-core/src/textobjects.rs:509-526 | scanning forward finds the balanced partner, or the delimiter is never closed |
| TextObjects.PairAround | ovim-core/src/textobjects.rs:472-526 | the innermost balanced pair around the cursor; with look-ahead and nothing that opens the cursor, the first that opens later on the line; nothing if and only if there is neither, or what opens the cursor or that first one is unclosed |
| TextObjects.ChosenOnce | ovim-core/src/textobjects.rs:472-526 | there is at most one such pair |
| TextObjects.OpenedPairIsInnermost | ovim-core/src/textobjects.rs:484-526 | the pair found lies inside every other pair around the cursor |
| TextObjects.NoPairIfUnclosed | ovim-core/src/textobjects.rs:509-526 | if the delimiter found is not closed no pair surrounds the cursor |
| TextObjects.RangeDenotesOffsets | ovim-core/src/textobjects.rs:528-541 | lines and columns of the range denote the offsets found |
| TextObjects.InnerDropsOnly | ovim-core/src/textobjects.rs:543-562 | the inner range drops the delimiters, a break right behind the opening one, and the blanks between the last break and the closing one, and nothing else |
| TextObjects.PairedDelimitersAround | ovim-core/src/textobjects.rs:442-577 | with and without look-ahead: the range of the pair chosen, or of its inside without the adjoining line breaks; nothing if and only if none is chosen or, for inner, that inside is empty |
| Scanner.EveryLanguageIsSane | ovim-core/src/auto_indent.rs:173-239 | the block comment marks of every language are non-empty and do not begin with a blank |
| ScannedCode.LineMarksOf | ovim-core/src/auto_indent.rs:173-239 | which languages have the common line comments |
| ScannedCode.RarerLineMarksOf | ovim-core/src/auto_indent.rs:173-239 | which languages have the others, and that there are no more |
| ScannedCode.BlocksOf | ovim-core/src/auto_indent.rs:173-239 | which block comment and which kinds of literals each language has |
| ScannedCode.QuotedEndExactly | ovim-core/src/auto_indent.rs:439-454 | a quoted literal ends at the first quote that no backslash escapes |
| ScannedCode.FindIsFirst | ovim-core/src/auto_indent.rs:281-291 | a literal with an end mark of its own ends at the first such mark |
| ScannedCode.RustRawOpening | ovim-core/src/auto_indent.rs:456-481 | a raw string opens with r, maybe behind b or c, any number of hashes and a quote, and ends with a quote and as many hashes |
| ScannedCode.CommentEndExactly | ovim-core/src/auto_indent.rs:253-280 | a comment ends with the mark that closes as many comments as were opened |
| ScannedCode.ScanReportsCode | ovim-core/src/auto_indent.rs:242-424 | however a line divides into code, comments and literals behind what was open above it, the scan reports exactly the delimiters of its code, in order, and the state still open at its end |
| Scanner.LeadingBlanksDoNotMatter | ovim-core/src/auto_indent.rs:242-424 | changing the leading blanks of a line changes neither its delimiters nor the state after it, unless it begins in a literal |
| Scanner.BlankLine | ovim-core/src/auto_indent.rs:242-424 | a line of blanks has no delimiters and keeps the state |
| AutoIndent.SkipComment | ovim-core/src/auto_indent.rs:254-280 | the loop leaves a nested comment where its depth returns to zero |
| AutoIndent.QuotedLiteralEnd | ovim-core/src/auto_indent.rs:439-454 | the end of a quoted literal past escapes, or none on the line |
| AutoIndent.RustRawLiteral | ovim-core/src/auto_indent.rs:456-481 | recognises raw string openings with any number of hashes, not inside a word |
| AutoIndent.ScanLine | ovim-core/src/auto_indent.rs:242-424 | the scanning loop computes the delimiters, leading closers and end state of the line |
| Indentation.EncodeReachesWidth | ovim-core/src/indentation.rs:90-99 | the encoded indentation is blanks only and reaches exactly its width at the tab width |
| Indentation.EncodedTabsFirst | ovim-core/src/indentation.rs:90-99 | it has no tab with expandtab, and otherwise as many tabs as fit, in front |
| ShownBlanks.BlanksAreShown | ovim-core/src/indentation.rs:90-99 | the width of blanks is the display column at which what stands behind them is shown |
| AutoIndent.Plan | ovim-core/src/auto_indent.rs:31-88 | one planned line for each line of the clamped range, each from the context of the whole text above it |
| IndentDepths.LeadingExactly | ovim-core/src/auto_indent.rs:242-424 | a line outside comments and literals leads with the closing delimiters in front of its first other character, and has code if it has any character but blanks |
| IndentDepths.DepthBefore | ovim-core/src/auto_indent.rs:79-84 | the depth before a line is the most that any of the last delimiters above it leave open, and opens minus closes when none of them closes what was not open |
| IndentDepths.PlannedByNesting | ovim-core/src/auto_indent.rs:52-77 | in every language and text, blank lines and literal bodies keep their blanks, and every other line gets one shift width for each delimiter open above it less those it closes first |
| IndentDepths.ClosersAlign | ovim-core/src/auto_indent.rs:52-84 | a line that closes first just what an earlier line left open gets the nesting of that line |
| AutoIndent.ContextsKept | ovim-core/src/auto_indent.rs:31-88 | reindenting leaves lexer state and depth before every line as they were |
| AutoIndent.ReindentKeepsContent | ovim-core/src/auto_indent.rs:55-66 | reindenting changes only leading blanks and keeps the delimiters of every line |
| AutoIndent.ReindentIsIdempotent | ovim-core/src/auto_indent.rs:31-88 | after a plan has been applied to any range of any text in any language, planning the range again changes nothing |
| Edits.RecordedFits | ovim-core/src/edit.rs:32-45 | faithfully recorded edits touch only positions the text has |
| HistoryRuns.RedoGroupCompletes | ovim-core/src/change.rs:992-1010 | redo of recorded changes goes through its whole group |
| Changes.ChangeManager.GroupSince | ovim-core/src/change.rs:869-881 | the undo stack above the mark becomes one group; nothing else changes |
| Changes.ChangeManager.MarkSaved | ovim-core/src/change.rs:1020-1022 | the save point becomes the number on top |
| Changes.ChangeManager.ClearSavePoint | ovim-core/src/change.rs:1035-1037 | no state is the saved one any more |
| FoldManagers.FoldManager.SetEnabled | ovim-core/src/fold.rs:317-322 | switches folding without touching the folds, and counts one change exactly when it changes something |
| FoldManagers.FoldManager.DeleteAll | ovim-core/src/fold.rs:731-735 | no fold remains and automatic folds count as never computed |

## Left out

- LayoutsAgree: asks for clusters between one cell and the view wide; `ClustersAgreeExactly` and `EndsAgreeExactly` cover all other lines, where the code does not always agree with itself. Decorations are sorted by anchor, as the source asks.
- EditsSince: the exact answer is claimed for group boundaries and one version per edit; `ExactOnlyOnBoundaries` shows that boundaries are the only such versions.
- PopByToken: text and stacks are out of step until the merged change is pushed; runs take the two as one step.
- FoldsHoldOn: for folds with no boundary among the removed lines and some of their body left; how the others are cut or moved is said by `AdjustForLineCount` alone.
- ReplayInsertsSurvivors: for sessions that touched only their own insertions, as the source promises.
- PairAround: the opening and closing delimiter differ; nesting deeper than a 32-bit count is not modelled.
- PartitionPoint: stands for the standard library's binary search, as the first index that fails; that the sequences are partitioned is proved where it is used. Sorting is an insertion sort with the same order.
- PushPlan: merging looks at kind and columns only, as source spans are not modelled.
- BuildRichRows: fragments carry cells, columns and kind; the source spans and control-character kind of fragments, and decorations with text of their own, are not modelled.
- Ropes, chunk seams, byte and UTF-16 offsets, grapheme streaming and the Unicode tables.
- Scanning is over characters where the source goes over bytes; all marks are ASCII.
- A carriage return at the end of a line, which the rope helpers also strip.
- `visible_slice`, `row_fragments`, `fragments_for_display_range` and other materialisation of text for drawing.
- Cursor restoring after undo and redo, the change list navigation, and file contents of resource operations: a restore only succeeds or fails.
- Execute: entry modes of a repeated insertion, and the final cursor step to the left, are not modelled.
- ClampedEditIffEmpty: is about one edit; the later edits of a session can take the effect of a clamped one back.
- The message for a refused edit, and the modes that a buffer that is not modifiable does not enter.
- `opening_delimiter_at_end`, which is one scan away from `ScanLine`.
- Fold gutters, fold motions, and the sources of automatic folds (indentation, syntax trees, language servers).
- Changes of the text that bypass the recorded operations, other than `ReplaceAll`.
- Atomics, mutexes and shared ownership: the generation is a counter, the cached tables are optional values.
- The rest of `repeat_action.rs` and `textobjects.rs`, and every module that talks to files, processes or the network.
