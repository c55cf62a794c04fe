# Nonogram solvers and encoders in Dafny

A model of the core of the nonogram repository: the coloured solver `src/nonogram.c`, the
black-and-white solver `nonogram.c`, and the two encoders that produce the solvers' input text.
The encoders are the bitmap converter `src/convert_bitmap.c` and the grid-to-clue converter
`src/nonogram_org_conv_functions.js`. Everything is pure functions over sequences. The solvers'
global arrays and doubly linked rings become values, and each C loop is a recursive function or a
method with invariants.

What is modelled, module by module:

- `Limits`, `Decimal`, `Seqs`, `Results`: saturating 32-bit sums, decimal numerals, sequence
  algebra and the `Result` type.
- `ClueText`, `ClueSetup`, `PuzzleText`: how the coloured solver reads its input. This covers
  `scanf("%d")`, the tokens of one clue and the runs they create. It also covers a clue's
  minimum length and slack, the check that refuses a clue longer than its line, and the header
  and the two groups of clues. The round-trip lemmas here are the partners of the two encoders:
  what an encoder writes, the solver reads back when every clue fits its line.
- `CellState`, `Rings`, `Caches`: `change_cell`, the scratch-cell merge, covering and
  uncovering in the dancing-links rings, and the three depth-stamped caches with their clearing
  functions.
- `LineSweep`, `Placements`, `CrossMatch`: the line sweep of the coloured solver
  (`sweep_column`, `sweep_column_empty_then_set`, `sweep_column_set`) on an abstract line. The
  line is given by its cells, the windows of its runs and which colours the crossing lines allow
  at each cell. The sweep is compared with an independent count of placements. `CrossMatch`
  models `match_crossed_clue`.
- `Search`: one frame of the coloured search. It covers locking the cells a sweep settled, the
  frame's return value, and the exact undo on exit.
- `BwLine`, `BwPlacements`, `BwClues`, `BwSearch`: the black-and-white solver. This covers
  `read_clue`, `choose_column` and `try_column_set` against a grammar of placements, and one
  frame of `nonogram`.
- `RunLength`, `Bitmap`, `OrgConv`: run-length encoding of a line and the two encoders. Each
  encoder has a proof that every clue it writes fits its line and that the solver reads its
  output back as the clues of the grid.

The column and row variants of the solvers' code (`sweep_row`, `check_row_cell`, `choose_row`,
`try_row_set`) are the column code with the indexing transposed. The model states them once,
over a line.

## Model

| member | source | states |
|---|---|---|
| Limits.SumWithLimit | src/nonogram.c:1159-1164 | the saturating sum is min(a + b, INT_MAX), non-negative, positive exactly when one addend is, and its guard `INT_MAX - b` stays in the 32-bit range |
| Limits.SaturationComposes | src/nonogram.c:1159-1164 | adding two already clamped counts gives the clamp of the exact total, so a chain of saturating sums reports min(total, INT_MAX) |
| Caches.Infeasible | src/nonogram.c:905-910 | the infeasibility marker `-2d-1` lies below `CACHE_EMPTY` and is odd |
| Caches.Excluded | src/nonogram.c:717-718 | the option exclusion marker `-2d-2` lies below `CACHE_EMPTY` and is even |
| Caches.MarkersDistinct | src/nonogram.c:717-721 | no exclusion marker equals an infeasibility marker, and markers of one kind are equal exactly for equal depths |
| Caches.Lookup | src/nonogram.c:841-848 | a probe misses exactly on `CACHE_EMPTY`; a hit is positive exactly when the entry is a count, which it returns; every marker reads as zero placements |
| Caches.Record | src/nonogram.c:899-910 | what a sweep stores is never `CACHE_EMPTY`, and is a count exactly when the count was positive |
| Caches.LookupRecord | src/nonogram.c:841-910 | a stored result reads back as the same count at any depth |
| Caches.ClearPositive | src/nonogram.c:804-829 | counts in the range become `CACHE_EMPTY`; markers and everything outside the range are kept |
| Caches.ClearNegative | src/nonogram.c:1258-1283 | the infeasibility markers of this depth disappear from the range; every other entry is kept |
| Caches.FrameUndo | src/nonogram.c:737-759 | a frame that performs only legal writes, stores only inside the range it later clears (the whole empty cache; the colour bounds saved at its depth for the colour and cross caches), and gives back its exclusions, then clears its own depth's markers in that range with `clear_negative_*` (lines 1258-1283), leaves only the net effect of a finished frame: earlier markers survive and no marker of its depth is left |
| CellState.ChangeCell | src/nonogram.c:1295-1301 | the cell takes the target state and success is reported exactly when it held the source state (colour and clue position); otherwise it is unchanged |
| CellState.ChangeCellUndo | src/nonogram.c:1295-1301 | a change followed by the reverse change restores the cell unless it already held the target |
| CellState.ChangeRangeEffect | src/nonogram.c:889-897 | a marking loop changes exactly the cells of its range that held the source state |
| CellState.RangeUndo | src/nonogram.c:889-897 | marking a range and unmarking it restores the line when no cell of the range already held the mark |
| CellState.CheckCell | src/nonogram.c:988-997 | merges one reported colour into the scratch cell; defined by its body; characterised by `CellState.CheckAllIsJoin` |
| CellState.CheckAll | src/nonogram.c:988-997 | the scratch cell after a sequence of reports, each merged by `check_column_cell`; defined by its body; characterised by `CellState.CheckAllIsJoin` |
| CellState.CheckAllIsJoin | src/nonogram.c:988-997 | the merged scratch cell is the join of the SET of reported colours, independent of order and repetition, and carries the sweeping clue's position exactly when a single colour was reported |
| Decimal.Digits | src/nonogram_org_conv_functions.js:61 | the numeral of a number: digits only, no leading zero |
| Decimal.ValueOfDigits | src/nonogram.c:323-328 | reading a written numeral back gives the number |
| Decimal.DigitsOfValue | src/nonogram.c:323-328 | a digit string without a leading zero is the numeral of its value |
| Rings.Cover | src/nonogram.c:1193-1201 | covering keeps a well-formed ring of the same size |
| Rings.Uncover | src/nonogram.c:1241-1249 | uncovering keeps a well-formed ring of the same size |
| Rings.CoverUnlinks | src/nonogram.c:1193-1201 | after covering a member, the other members stay linked among themselves, none of them points at it, and it keeps its own two links |
| Rings.UncoverCover | src/nonogram.c:1241-1249 | uncovering what was just covered restores the ring exactly |
| Rings.CoverAllUnlinks | src/nonogram.c:1186-1201 | after covering distinct members in order, the remaining members are still linked among themselves |
| Rings.UncoverAllCoverAll | src/nonogram.c:737-748 | covering distinct members and then uncovering them last-in first-out restores the ring exactly |
| RunLength.BlocksEncode | src/convert_bitmap.c:50-66 | the streaming block builder produces a run-length encoding: blocks tile the line, each holds one value, neighbours differ |
| RunLength.EncodingUnique | src/nonogram_org_conv_functions.js:36-42 | two run-length encodings of one line are equal |
| RunLength.LastBlock | src/nonogram_org_conv_functions.js:36-42 | a block is the last one exactly when it reaches the end of the line |
| RunLength.EndsAtChange | src/nonogram_org_conv_functions.js:36-42 | a block that is not the last is followed by a cell of another value |
| RunLength.BlocksAppendRun | src/convert_bitmap.c:50-66 | appending a maximal run to a line appends exactly one block to its encoding |
| ClueSetup.BuildRuns | src/nonogram.c:321-367 | the run list exists exactly when every length is non-negative and, in coloured mode, every positive run has an alphanumeric colour; it has one run per positive token, in order, with the same total; uncoloured runs are black; a negative first length is reported as an invalid set length |
| ClueSetup.BuildRunsOfTokens | src/nonogram.c:321-367 | reading back the tokens of any run list of positive lengths gives that run list |
| ClueSetup.ZeroTokenIgnored | src/nonogram.c:344-354 | a `0` token creates no run and reads no colour wherever it stands |
| ClueSetup.Fits | src/nonogram.c:392-409 | the "Incompatible clue" check, counted token by token; defined by its body; characterised by `ClueSetup.FitsIffSetUp` (equivalent to the minimum length of the built runs being at most the line length) |
| ClueSetup.FitsIffSetUp | src/nonogram.c:368-410 | the reader's fit check holds exactly when the tokens build a run list whose minimum length, runs plus a gap between neighbours of one colour, is at most the line's length |
| ClueSetup.FitsIffLaidOut | src/nonogram.c:378-409 | runs fit a line by their minimum length exactly when some placement lays them out in it, in order, with the gaps they need: the left-packed one does whenever any does |
| ClueSetup.SetUpClue | src/nonogram.c:368-410 | the clue is accepted exactly when its minimum length (runs plus one gap between runs of equal colour) fits the line; its runs carry those gaps; its slack is the line length minus the minimum length, the whole line for an empty clue; otherwise it is refused as incompatible |
| ClueText.ScanInt | src/nonogram.c:323 | a successful `%d` scan consumes at least one character and stops right after a digit |
| ClueText.ScanNumeral | src/nonogram.c:323 | a decimal numeral not followed by a digit is scanned back as its number, stopping right after it |
| ClueText.ScanColor | src/nonogram.c:329-346 | in coloured mode a positive run needs a `-` and an alphanumeric character, which becomes its colour; otherwise nothing is read and the colour is black |
| ClueText.ReadToken | src/nonogram.c:323-346 | a token is refused when its length is missing or negative; an accepted token is valid and moves the index forward |
| ClueText.ScanToken | src/nonogram.c:323-343 | a token as the encoders write it is scanned back with its length and colour, stopping right after it |
| ClueText.ReadSets | src/nonogram.c:321-367 | the loop reads at least one token, its tokens are valid, and it stops right after a closing double quote |
| ClueText.ReadSetsLast | src/nonogram.c:357-367 | a token followed by a double quote ends the loop |
| ClueText.ReadSetsMore | src/nonogram.c:357-367 | a token followed by a comma continues the loop with the next token |
| ClueText.ReadClueText | src/nonogram.c:308-367 | a clue must open with a double quote, otherwise it is refused; an accepted clue has valid tokens |
| ClueText.ClueEnd | src/nonogram.c:411-416 | the clue is accepted exactly when the expected separator follows it |
| ClueText.ReadSetsText | src/nonogram.c:321-367 | the tokens the encoders write are read back exactly, stopping after the closing double quote |
| ClueText.ReadClueString | src/nonogram.c:306-416 | a clue written by the encoders reads back as its tokens, and its separator is accepted |
| PuzzleText.ReadGroup | src/nonogram.c:162-181 | reading `n` clues gives `n` clues of valid tokens, each fitting its line, and stops right after a newline; an error names one of the clues read; a missing opening quote is reported for the first clue |
| PuzzleText.ReadClue | src/nonogram.c:392-416 | an accepted clue has valid tokens, passes the fit check for its line (its minimum length is at most the line's length) and is followed by the expected separator; a refusal names this clue, for its text or as incompatible |
| PuzzleText.ReadHeader | src/nonogram.c:147-152 | an accepted header has width and height at least 1; anything else is refused as invalid grid attributes |
| PuzzleText.ReadPuzzle | src/nonogram.c:147-181 | an accepted puzzle has positive dimensions and one clue of valid tokens per column and per row, each fitting its line |
| PuzzleText.GroupStepLast | src/nonogram.c:168-171 | a group of one written clue followed by a newline reads back as that clue when it fits its line, and is refused as incompatible when it does not |
| PuzzleText.GroupStepMore | src/nonogram.c:162-167 | a written clue, a comma and a rest that reads back as its clues (or is refused as incompatible) read back as the whole group when every clue fits, and are refused as incompatible otherwise |
| PuzzleText.ReadGroupText | src/nonogram.c:162-181 | a group the encoders write reads back as its clues and stops after its newline when every clue fits its line; otherwise one of its clues is refused as incompatible |
| PuzzleText.GroupTextSnoc | src/nonogram_org_conv_functions.js:55-68 | writing one more clue turns the group's closing newline into a comma and closes the group after the new clue |
| PuzzleText.ScanHeader | src/nonogram.c:147-152 | the header the encoders write is read back with its width, height and colour mode |
| PuzzleText.ReadPuzzleString | src/nonogram.c:147-181 | a puzzle text the encoders write reads back with its dimensions, its mode and its clues, columns first, when every clue fits its line; when one does not, a clue is refused as incompatible |
| PuzzleText.ReadPuzzleText | src/nonogram.c:147-181 | the same for any text that starts with a written puzzle, with the same fit condition: what follows it is never read |
| PuzzleText.TooLongClueRefused | src/nonogram.c:392-398 | the one-cell puzzle `1 1 0` whose column clue is `"2"` is written as `1\n1\n0\n"2"\n"0"\n` and refused by the reader as incompatible |
| LineSweep.MatchLen | src/nonogram.c:958-962 | the scan of a run matches at most its length, every matched cell can take the run's colour, and a short match stops at a cell that cannot |
| LineSweep.Sweep | src/nonogram.c:839-912 | the count of placements of the remaining runs is a 32-bit non-negative value |
| LineSweep.GapLoop | src/nonogram.c:864-885 | the gap loop never lowers its accumulated count and never leaves the 32-bit range |
| LineSweep.EmptyThenSet | src/nonogram.c:914-954 | a run that needs an empty cell in front fails when its anchor cannot stay empty, and otherwise is tried one cell later; a success reports the full run length |
| LineSweep.SetAt | src/nonogram.c:956-986 | the run's report says how far it matched (negated when it met cells already of its colour); a success covers the whole run |
| Placements.SkippedAnchorFails | src/nonogram.c:866-879 | after a run matched `len` cells and failed, every anchor up to `len` cells later would cover the failing cell, so skipping them loses nothing |
| Placements.ColouredStopsLater | src/nonogram.c:864 | after a run met a cell already of its colour and failed, no later anchor works, which is why the gap loop stops on a negative report |
| Placements.EmptyThenSetIsAnchor | src/nonogram.c:914-954 | one anchor of the sweep counts, saturated, the placements with the run at that anchor |
| Placements.GapLoopIsSum | src/nonogram.c:864-885 | the gap loop adds, saturated, the counts of every anchor it may reach behind a gap that can stay empty |
| Placements.SweepIsCount | src/nonogram.c:839-912 | with the skip guarded, the sweep equals the number of placements of the remaining runs, saturated at INT_MAX |
| Placements.CountPositive | src/nonogram.c:839-912 | the placement count is positive exactly when a placement (a chain of anchors that respects the windows, the gaps and the cells) exists |
| Placements.SweepFindsPlacement | src/nonogram.c:839-912 | with the skip guarded, the sweep is positive exactly when the runs can be placed |
| Placements.AsWrittenSkipCountsBlockedGap | src/nonogram.c:866-879 | on a six-cell line with clue `A2 B1` the skip as written counts one placement, the guarded skip none, and no placement exists |
| CrossMatch.CoverCountWitness | src/nonogram.c:1173-1177 | the cover count is positive exactly when some run of the colour can cover the cell |
| CrossMatch.MatchCrossedClue | src/nonogram.c:1166-1184 | the count never exceeds the number of runs of the colour whose window covers the cell, equals it when the windows start in order, and so is positive exactly when such a run exists |
| Search.Unwind | src/nonogram.c:737-759 | unwinding resets every locked cell to unknown and restores the current windows from the entry snapshot, leaving a board whose stacks can still be popped |
| Search.UnwindRestores | src/nonogram.c:737-759 | a frame is an exact undo: unwinding it with the snapshot taken on entry gives back the board it was entered with (rings, cells and windows) |
| Search.ResetRestores | src/nonogram.c:744-748 | resetting the locked cells gives back the cells as they were when only locked cells changed and each was unknown before |
| Search.FrameResult | src/nonogram.c:731-736 | a frame returns a non-negative value exactly when the solution limit was not reached and every open clue still had a placement; that value is the number of cells it settled, otherwise `-grid_size` |
| Search.LockLine | src/nonogram.c:619-633 | the cells a line sweep locks are exactly the cells of the line whose scratch slot carries the sweeping clue's position |
| Search.LockLineWrites | src/nonogram.c:619-633 | locking gives each settled cell its scratch colour and the settled mark and leaves every other cell as it was |
| Search.LockedIffAgreed | src/nonogram.c:619-633 | given per-cell reports, one colour per counted placement, merged into the scratch slots, a cell is locked exactly when all its reports are one and the same colour |
| BwClues.Rejected | nonogram.c:101 | the set value check, as written and corrected; defined by its body; characterised by `BwClues.AsWrittenAcceptsNonPositive` (as written) and `BwClues.ReadSetsCorrected` (corrected) |
| BwClues.ReadSets | nonogram.c:98-136 | an accepted loop reads at least one value and never more values than items |
| BwClues.ReadClue | nonogram.c:90-163 | an accepted clue records its line position and at least one value |
| BwClues.ReadSetsCorrected | nonogram.c:98-136 | with the value check corrected, the loop accepts exactly a comma-separated list of positive values closed by a quote, and records those values |
| BwClues.ReadClueCorrected | nonogram.c:90-163 | with `len_min` starting from 0 and the value check corrected, a clue is accepted exactly when it opens with a quote, lists positive values, fits its line with one gap between runs and is followed by the expected separator; it records those values and their minimum length |
| BwClues.AsWrittenAcceptsNonPositive | nonogram.c:101 | as written, `"0"` is accepted with a run of length 0 and `"-1"` is accepted too; corrected, `"0"` is refused as an invalid set value |
| BwClues.AsWrittenLenMinGarbage | nonogram.c:127 | as written, `len_min` starts from what the allocation held: `"1"` in a 3-cell line is refused when it held 3, and `"2,2"` is accepted for 3 cells when it held -2; corrected, the reverse |
| BwClues.ZeroRunRepeats | nonogram.c:222-267 | the accepted run of length 0 makes the enumeration of a 2-cell line reach the same all-empty line three times |
| BwLine.ChangeInt | nonogram.c:352-356 | the cell takes `to` exactly when it holds `from`, and is unchanged otherwise |
| BwLine.ChangeIntUndo | nonogram.c:352-356 | a change and its reverse restore a cell that did not already hold the target |
| BwLine.ScanEmpty | nonogram.c:228 | the scan stops at the first filled cell, every cell before it can be empty |
| BwLine.ScanFill | nonogram.c:271 | the scan stops at the first empty cell, every cell before it can be filled |
| BwLine.Aborted | nonogram.c:224 | a counting call gives up once its count reached `options_min`; defined by its body; characterised by `BwPlacements.CountsPlacements` (the count is the number of placements, capped) |
| BwLine.Tail | nonogram.c:227-243 | the rest of the line is marked empty while it can be, the clue is placed when that reaches the end, and the marks are undone; defined by its body; characterised by `BwLine.TailUndo` and `BwPlacements.ChooseVisits` |
| BwLine.From | nonogram.c:244-264 | the loops of `choose_column` that try a run at each start after a cell that can be empty; defined by its body; characterised by `BwPlacements.FromVisits` (it visits exactly the placements starting the run at or after the start, painted) and `BwLine.ChooseUndo` |
| BwLine.LastStart | nonogram.c:258 | the corrected bound of a later run's start; defined by its body; characterised by `BwLine.LastStartExact` |
| BwLine.LastStartAsWritten | nonogram.c:258 | the bound of a later run's start as written, `pos+rows_n-len_min`; defined by its body; characterised by `BwLine.AsWrittenStartOverruns` |
| BwLine.LastStartExact | nonogram.c:256-264 | with the corrected bound, a later run fits at a start, leaving room for the runs after it, exactly when the start is at most the last start |
| BwLine.AsWrittenStartOverruns | nonogram.c:258 | as written, with clue `1,1` in a 3-cell line, the second run is tried at cell 3, outside the line |
| BwLine.ChangeBack | nonogram.c:239-241 | marking a range and unmarking it restores cells that did not already hold the mark |
| BwLine.ChooseUndo | nonogram.c:222-267 | every `choose_column` call leaves the line exactly as it found it, counting or running, whether or not it gave up |
| BwLine.TrySetUndo | nonogram.c:269-285 | every `try_column_set` call leaves the line exactly as it found it |
| BwPlacements.Take | nonogram.c:224-226 | a running call sees every line state; a counting call sees as many as are left before the cap |
| BwPlacements.PlacementsFit | nonogram.c:222-285 | a list of starts is enumerated exactly when it follows the placement grammar (ordered starts, gaps that can be empty, runs that can be filled, room left) |
| BwPlacements.TakeConcat | nonogram.c:224-226 | a counting call that reports `a` and then `b` from where it stopped reports `a + b` up to the cap |
| BwPlacements.ChooseVisits | nonogram.c:222-285 | `choose_column` reaches the end of the line once per placement, in enumeration order, each time with that placement painted; a counting call sees the same states up to its cap |
| BwPlacements.FromVisits | nonogram.c:244-264 | the loops of `choose_column` visit the placements whose run starts at the current cell or later |
| BwPlacements.TrySetVisits | nonogram.c:269-285 | `try_column_set` at a start visits the placements whose run starts there |
| BwPlacements.CountsPlacements | nonogram.c:194-206 | a counting call adds one option per placement and gives up at the cap |
| BwPlacements.RunsPlacements | nonogram.c:210-219 | a running call reaches the end of the line exactly at the placements of the grammar, each painted on the line |
| BwSearch.SelectClue | nonogram.c:192-209 | the selected clue has the fewest options, is the first with that count, and the loop's minimum is its count; no clue is selected exactly when none has fewer than INT_MAX options |
| BwSearch.Decide | nonogram.c:172-213 | a frame reports a solution exactly when the ring is empty and a dead end exactly when some clue has no placement; otherwise it branches on a clue with the fewest, positive, options |
| BwSearch.BranchOn | nonogram.c:210-219 | the branch on the chosen clue: unlink it, enumerate its placements with `run = 1`, link it back; defined by its body; characterised by `BwSearch.BranchRestores` |
| BwSearch.BranchRestores | nonogram.c:210-219 | while the chosen clue is enumerated it is out of the ring; the search recurses exactly at its placements, each painted on its line; the ring and the line come back as they were |
| BwSearch.OnSolution | nonogram.c:173-191 | a solution increments the count, and the grid is printed exactly when it is the first |
| BwSearch.PrintedOnce | nonogram.c:173-191 | however many solutions are found, exactly one grid is printed when there is any |
| Bitmap.ParseDim | src/convert_bitmap.c:13-24 | an accepted dimension lies between 1 and LONG_MAX and its argument ends with a digit; anything else is refused with that dimension's error |
| Bitmap.Dims | src/convert_bitmap.c:8-24 | the arguments are accepted exactly when there are three and both dimensions parse, and then give those dimensions; a wrong count is a usage error; otherwise an invalid width is reported before the height is looked at, so it wins when both are invalid, and an invalid height alone is an invalid height |
| Bitmap.ParseNumeral | src/convert_bitmap.c:13-14 | a numeral between 1 and LONG_MAX is taken as it is |
| Bitmap.ParseSaturates | src/convert_bitmap.c:13-14 | a numeral beyond LONG_MAX is taken as LONG_MAX |
| Bitmap.TrailingRefused | src/convert_bitmap.c:13-14 | any character after the digits makes the argument invalid |
| Bitmap.ReadRow | src/convert_bitmap.c:32-46 | an accepted row holds the expected number of cells and ends at its newline; a failure is a missing newline or an invalid cell of that row |
| Bitmap.ReadRows | src/convert_bitmap.c:31-47 | accepted rows are as many as asked, each of the expected length |
| Bitmap.ReadBitmap | src/convert_bitmap.c:31-47 | with each row read to the width, an accepted bitmap is a `height` by `width` grid |
| Bitmap.ReadRowText | src/convert_bitmap.c:32-46 | a row is read back when the reader expects as many cells as it has; with more expected the newline is an invalid cell, with fewer a cell stands where the newline is expected |
| Bitmap.ReadRender | src/convert_bitmap.c:31-47 | with each row read to the width, a bitmap file reads back as its grid, whatever follows it |
| Bitmap.ReadBitmapAsWritten | src/convert_bitmap.c:31-47 | the reading loops as written, each row read to the height; a grid it accepts has `height` cells in each of its `height` rows; characterised by `Bitmap.AsWrittenRefusesNonSquare` |
| Bitmap.AsWrittenRefusesNonSquare | src/convert_bitmap.c:32 | as written, every valid bitmap that is not square is refused (an invalid cell when it is narrower than high, a missing newline when wider); a square one is read back |
| Bitmap.RunLengthsOfEncoding | src/convert_bitmap.c:50-66 | the clue of a line is the lengths of the filled blocks of its run-length encoding |
| Bitmap.RunLengthsSnoc | src/convert_bitmap.c:52-65 | an empty cell leaves the clue alone, a filled cell after a filled one lengthens the last block, any other filled cell opens a block of 1 |
| Bitmap.RunLengthsCount | src/convert_bitmap.c:50-66 | every block of the clue is at least one cell long, and the blocks add up to the filled cells of the line |
| Bitmap.EncodeLine | src/convert_bitmap.c:50-66 | the text written for a line is the clue string of its block lengths followed by the closing 0 |
| Bitmap.EncodeGroup | src/convert_bitmap.c:49-71 | the text written for a group is its clues separated by commas, and a newline |
| Bitmap.Columns | src/convert_bitmap.c:52-53 | the columns of a grid: cell `j` of column `i` is cell `i` of row `j` |
| Bitmap.Convert | src/convert_bitmap.c:4-97 | with the row loop corrected (see ## Findings), an argument error or a bitmap error is reported as such; otherwise the output is the header, the column clues and the row clues of the grid read |
| Bitmap.LineRuns | src/convert_bitmap.c:50-66 | the solver's runs for a clue the encoder writes are one black run per filled block of the line, in order; the closing 0 adds none |
| Bitmap.LineFits | src/convert_bitmap.c:50-66 | the clue written for a line passes the solver's fit check for a line of that length: its blocks plus one gap between blocks never exceed the line |
| Bitmap.GridFits | src/convert_bitmap.c:48-94 | every clue written for the columns and the rows of a grid passes the solver's fit check |
| Bitmap.ConvertReadsBack | src/convert_bitmap.c:48-94 | every clue written for a grid fits its line, and the puzzle written is read back by the solver with the grid's dimensions, in black and white, with the clues of its columns and then of its rows |
| OrgConv.ZeroGrid | src/nonogram_org_conv_functions.js:8-12 | the fresh grid has `C` rows of `D` cells, all 0 |
| OrgConv.ZeroGridEntries | src/nonogram_org_conv_functions.js:8-12 | on a fresh grid no row and no column has an entry |
| OrgConv.Entries | src/nonogram_org_conv_functions.js:41 | every entry is at least one cell long and holds a positive value: empty cells never give an entry |
| OrgConv.ScanStep | src/nonogram_org_conv_functions.js:37-41 | a maximal run of equal cells adds its entry exactly when its value is positive |
| OrgConv.LineEntries | src/nonogram_org_conv_functions.js:36-42 | the scan of a line lists its entries: one per maximal block of equal positive cells, left to right |
| OrgConv.Column | src/nonogram_org_conv_functions.js:46-52 | column `v` lists cell `v` of every row, top to bottom |
| OrgConv.Scan | src/nonogram_org_conv_functions.js:34-53 | `N` lists the entries of every row and `O` those of every column |
| OrgConv.PositiveBlocksFacts | src/nonogram_org_conv_functions.js:36-42 | each listed block is a maximal block of one positive value; consecutive blocks are in order, and when they touch they hold different values |
| OrgConv.EntriesOfEncoding | src/nonogram_org_conv_functions.js:36-42 | the entries of a line are the positive blocks of any run-length encoding of it |
| OrgConv.NoEntriesWhenEmpty | src/nonogram_org_conv_functions.js:41 | a line of empty cells has no entries |
| OrgConv.ColorSymbolInjective | src/nonogram.c:335-337 | different colour indices get different alphanumeric symbols |
| OrgConv.RowEntries | src/nonogram_org_conv_functions.js:34-43 | one entry list per row, the entries of that row |
| OrgConv.ColumnEntries | src/nonogram_org_conv_functions.js:44-53 | one entry list per column, the entries of that column |
| OrgConv.Convert | src/nonogram_org_conv_functions.js:34-85 | as written the encoder always returns its paragraph of the page lines; corrected, it refuses exactly the coloured grids with a colour beyond the symbols the solver reads |
| OrgConv.EntryText | src/nonogram_org_conv_functions.js:61 | one entry: its length, and in coloured mode a `-` and its colour; defined by its body; characterised by `OrgConv.QuotedClueText` and `OrgConv.AsWrittenAgrees` |
| OrgConv.QuotedClue | src/nonogram_org_conv_functions.js:57-67 | one clue between double quotes, `0` when it has no entries; defined by its body; characterised by `OrgConv.QuotedClueText`, `OrgConv.AsWrittenAgrees` and `OrgConv.AsWrittenColorUnreadable` |
| OrgConv.GroupLine | src/nonogram_org_conv_functions.js:55-83 | the clues of a group joined by commas; defined by its body; characterised by `OrgConv.GroupLineText` |
| OrgConv.PageLines | src/nonogram_org_conv_functions.js:54-84 | the five lines of the paragraph; defined by its body; characterised by `OrgConv.PageText` and `OrgConv.PageReadsBack` |
| OrgConv.QuotedClueText | src/nonogram_org_conv_functions.js:57-67 | a corrected clue is the clue text of its tokens (a single `0` for a line without entries) |
| OrgConv.GroupLineText | src/nonogram_org_conv_functions.js:55-68 | a corrected group line followed by its newline is the group text of its clues |
| OrgConv.PageText | src/nonogram_org_conv_functions.js:54-84 | the corrected page, read as a text file, is the puzzle text of its clues |
| OrgConv.PageReadsBack | src/nonogram_org_conv_functions.js:34-85 | every clue of a corrected page fits its line when the page is coloured or its grid holds one colour; the solver reads the page back with the grid's size, its colour mode and, in order, the clues of its columns and of its rows exactly when every clue fits, and otherwise refuses a clue as incompatible |
| OrgConv.GridFits | src/nonogram_org_conv_functions.js:34-53 | every corrected clue of a coloured grid, or of a grid of one colour, passes the solver's fit check |
| OrgConv.LineFits | src/nonogram_org_conv_functions.js:36-42 | the corrected clue of a line passes the fit check for a line of that length, since two blocks of one symbol never touch |
| OrgConv.ClueTokensRuns | src/nonogram_org_conv_functions.js:57-67 | the runs the solver builds from a corrected clue are its entries, one per entry with the entry's length and colour symbol |
| OrgConv.AsWrittenAgrees | src/nonogram_org_conv_functions.js:61 | with colour indices below ten the encoder's decimal colour already is the symbol, so the two styles write the same clue |
| OrgConv.AsWrittenColorUnreadable | src/nonogram_org_conv_functions.js:61 | a clue as written whose first colour index is ten or more is refused by the solver's reader with an invalid set separator |
| OrgConv.AsWrittenPageUnreadable | src/nonogram_org_conv_functions.js:61 | the page as written of a coloured grid whose first column starts with such a colour is refused at the first column clue |
| OrgConv.AsWrittenOneCellUnreadable | src/nonogram_org_conv_functions.js:61 | a 1×1 grid of colour 11 is written `"1-10"` and its page is refused by the solver |
| Rings.CoverAll | src/nonogram.c:1193-1201 | covering members in order keeps a well-formed ring of the same size |
| Rings.UncoverAll | src/nonogram.c:1241-1249 | uncovering members last-in first-out keeps a well-formed ring of the same size |
| BwLine.Choose | nonogram.c:222-267 | (see `## Left out`) the line keeps its length |
| BwLine.TrySet | nonogram.c:269-285 | (see `## Left out`) the line keeps its length |

## Left out

- Input and output: the solvers read standard input, and the model reads a string. Printing the solutions, the statistics (`nodes_n`) and error messages is not modelled. Which error is reported is modelled.
- Memory allocation: every `malloc`/`realloc` failure path (for example src/nonogram.c:313-318 and nonogram.c:108-124) and `free` are left out. They depend on the allocator, not on the input.
- The coloured search as a whole (src/nonogram.c:576-761): the clue ordering (`compare_clues`, `qsort`), the option evaluation and choice (`evaluate_set`, `compare_sets`) and the recursion over depths are left out. One frame's locking, return value and undo are modelled (`Search`), as are the caches it uses (`Caches`). These are heuristics: they change the order of the work, not the set of solutions.
- The windows of the runs (`color_bounds_*`, `empty_bounds_*`, `finish_init_clue_sets` at src/nonogram.c:433-474): the sweep takes them as inputs satisfying `Chained`. How they shrink from frame to frame is left out.
- The sweep is modelled without its caches. A cache hit is a stored earlier result (`Caches.LookupRecord`), so it does not change the count. It does set `*len = 0` (src/nonogram.c:917), and neither the skip nor the stop happens after a hit; that case is not modelled.
- LineSweep.Sweep: its own contract only bounds the count. What it counts is stated by `Placements.SweepIsCount` and `Placements.SweepFindsPlacement`.
- LineSweep.GapLoop: its own contract only bounds the accumulator. Its value is stated by `Placements.GapLoopIsSum`.
- BwLine.Choose: its own contract only keeps the line length. What it visits is stated by `BwPlacements.ChooseVisits` and `BwPlacements.RunsPlacements`, and that it restores the line by `BwLine.ChooseUndo`. It uses the corrected start bound `LastStart` (`rows_n-len_min`, see ## Findings); the bound as written is `BwLine.AsWrittenStartOverruns`.
- BwLine.TrySet: its own contract only keeps the line length. What it visits is stated by `BwPlacements.TrySetVisits`, and that it restores the line by `BwLine.TrySetUndo`.
- BwClues.ReadSets: its own contract only bounds the values read. What the loop accepts is stated for the corrected check by `BwClues.ReadSetsCorrected`.
- BwClues.ReadClue: its own contract only keeps the position. The corrected reader is characterised by `BwClues.ReadClueCorrected`, and the reader as written by the Findings lemmas.
- Bitmap.Convert: models the program with the row loop corrected (`j < width`, see ## Findings). As written, every non-square bitmap is refused (`Bitmap.AsWrittenRefusesNonSquare`), so the program as written converts only square grids.
- Search.LockedIffAgreed: takes the colours the counted placements report for each cell as a parameter. That these are the reports the sweep makes is not proved; the link from `Placements` to the per-cell reports is not modelled.
- OrgConv.PageReadsBack: for a black-and-white page whose grid holds more than one colour it promises only that the page reads back exactly when every clue fits. Touching blocks of different colours get no gap in black and white, so such a clue can be longer than its line and is then refused as incompatible.
- The black-and-white search (nonogram.c:170-220) is modelled one frame at a time: clue selection, the decision, and the branch with its undo. The recursion as a whole and the grid printing (nonogram.c:177-188, apart from "printed once") are left out. So are the reading part of that program's `main` and its ring set-up.
- 32-bit `int` wrap-around: counts saturate through `sum_with_limit`, which is modelled. Other `int` arithmetic (`len_min`, cell indices, `-depth*2-1`, the JS numbers) is taken as unbounded. Inputs that large do not fit in memory.
- `scanf("%d")` overflow and locale: numerals are unbounded integers. `strtol` saturation at LONG_MAX is modelled; `errno` is not.
- Bitmap.ReadBitmapAsWritten: models only which inputs the reading loop as written accepts. It does not model where it stores the cells of a non-square grid (`cells[i*width+j]` with `j` up to the height) or the clues then written from them.
- The palette and the drawing commands of the grid-to-clue encoder (src/nonogram_org_conv_functions.js:2-7 and 13-33) decode an obfuscated page array `d`. The model takes the painted grid `E` and the number of colours as parameters.
- The JS encoder returns an HTML paragraph with `<br/>` between lines. The round trip reads the same lines as a text file, with a newline for each `<br/>` and one after the last line.
- Character encodings: text is a sequence of characters. `isalnum` is the ASCII letters and digits.

## Findings

| source | as written | input that shows it | evidently intended | confidence | as-written member | corrected member |
|---|---|---|---|---|---|---|
| nonogram.c:127 | `len_min` is never set before `clue->len_min += set`, so it starts from whatever the allocation held | clue `"1"` in a 3-cell line when the memory held 3 (refused); clue `"2,2"` in a 3-cell line when it held -2 (accepted) | `len_min` starts from 0 | high; not executed | BwClues.AsWrittenLenMinGarbage | BwClues.ReadClueCorrected |
| nonogram.c:101 | `scanf(...) != 1 && set < 1` rejects a value only when the scan failed AND the stale variable is below 1, so 0 and negative lengths pass | clue `"0"`: accepted with a run of length 0, and the enumeration of a 2-cell line then reaches the same all-empty line three times | `\|\|`: reject a failed scan or a value below 1 | high; not executed | BwClues.AsWrittenAcceptsNonPositive, BwClues.ZeroRunRepeats | BwClues.ReadClueCorrected |
| src/convert_bitmap.c:32 | the inner reading loop runs `j < height` | arguments `2 1` with input `10\n`: the reader wants a newline after one cell and finds `0` | `j < width` | high; not executed | Bitmap.AsWrittenRefusesNonSquare | Bitmap.ReadRender |
| src/nonogram_org_conv_functions.js:61 | the colour is written as the decimal index `O[w][y][1]-1`, while the solver reads one alphanumeric character as the colour | a 1×1 grid of colour 11 is written `"1-10"`; the solver reads colour `1` and then refuses `0` as a set separator | one symbol per colour, as the solver reads it | high; not executed | OrgConv.AsWrittenOneCellUnreadable | OrgConv.PageReadsBack |
| src/nonogram.c:866-879 | after a run matched `len` cells and failed, the gap loop jumps `len` anchors and marks the skipped cells empty without checking that they can be empty | six cells `[?, ?, B, ?, ?, ?]`, clue `A2 B1`, static windows, `A` not allowed at cell 0: the sweep counts one placement where none exists | stop the loop when a skipped cell cannot be empty | medium; not executed | Placements.AsWrittenSkipCountsBlockedGap | Placements.SweepIsCount |
| nonogram.c:258 | the bound of a later run's start is `pos+rows_n-len_min`, measured from the run's position instead of the start of the line | clue `1,1` in a 3-cell column: with the first run at cell 0, the second run is tried at cell 3, outside the column | `rows_n-len_min` | high; not executed | BwLine.AsWrittenStartOverruns | BwLine.LastStartExact |
