# pyNonogram in Dafny

A model of pyNonogram, a solver for nonogram puzzles. A puzzle is a grid of
`height` by `width` cells. Every cell is unknown (0), filled (1) or crossed
(-1). Every row and every column has a clue: the lengths of its runs of
filled cells, in order. The repository has two copies of the grid and the
solver:

- the package, in `pyNonogram/`:
  - `NonogramGrid`, a numpy array with a value-checked `set_cell`;
  - `Nonogram`, the puzzle: the `.non` file it is loaded from, the solution
    saved from a finished grid and loaded back, and the solved checks;
  - `Solver`;
- the game copy, in `src/`:
  - `Game`, whose line without a filled cell reads `[0]` instead of `[]`,
    and which adds error checks;
  - a `Solver` whose CPU path is the same algorithm with a fixed limit of
    1000 turns.

The modules follow that structure:

| file | module | what it holds |
|---|---|---|
| `results.dfy` | `Results` | `Option`, and the exceptions the source raises as an `Error` datatype |
| `lines.dfy` | `Lines` | the cell values, the run lengths of a line, and their laws |
| `candidates.dfy` | `Candidates` | the enumeration of every candidate line for a clue, in `itertools.combinations` order; `is_possible` |
| `boards.dfy` | `Boards` | a grid as a value (`Board`), an `array2` tied to it by `Snapshot`, and the cell-writing loops shared by the classes |
| `checks.dfy` | `Checks` | the solved and error checks of lines and boards, in both conventions |
| `heuristics.dfy` | `Heuristics` | what each solver step does to one line, with its soundness lemmas |
| `passes.dfy` | `Passes` | the board-level steps, each a fold of a line rule over the lines, and the loop of `run` |
| `solver.dfy` | `Solving` | the `Solver` class on the grid's array, with each method proved equal to a step of `Passes` |
| `grid.dfy` | `Grids` | the `NonogramGrid` class, and numpy's index rules |
| `text.dfy` | `Texts` | splitting, stripping and decimal numbers |
| `nonogram.dfy` | `Nonograms` | decoding a `.non` file, the solution text, and the `Nonogram` class |
| `game.dfy` | `Games` | the `Game` class |

One `Solving.Solver` class models both solvers. Its `conv` field selects the
convention of the grid behind the puzzle:

- `Package` for a `NonogramGrid`;
- `GameClass` for a `Game`.

The limit of `run` is a parameter. `DefaultLimit` (250) is the package's
default and `GameLimit` (1000) is the fixed limit of `src/solver.py`.

The solver writes the puzzle's own array, so the model is imperative:

- Each line rule (`find_full`, `fill_middle`, `fill_edges`, crossing,
  consensus) is a method that writes the array cell by cell. Its `ensures`
  says that the new board is the old one with that line replaced by a pure
  function of the old line (`Heuristics.FullLine`, `MiddleLine`,
  `ExtendFront`, `ExtendBack`, `CrossIfSolved`, `ConsensusLine`).
- Those functions are proved sound against the candidates of the clue.
  Every candidate that agrees with the line before also agrees with the
  line after.
- The board-level steps re-read the board at every line. So the later edge
  loops of `fill_edges` see the writes of the earlier ones, as numpy's row
  and column views do.

Indices follow numpy and Python list rules (`Grids.NumpyIndex`):

- an index in `[-n, n)` is accepted;
- a negative index counts from the end;
- any other index raises `IndexError`.

## Model

| member | source | states |
|---|---|---|
| Lines.SegmentsMeaning | pyNonogram/nonogram_grid.py:115-125 | every run length is at least 1; the run lengths add up to the number of filled cells; the list is empty exactly when no cell is filled |
| Lines.EmptySegmentsMeaning | src/game.py:57-68 | the runs of unknown cells: each at least 1 unless the result is [0]; [0] exactly when no cell is unknown; otherwise they add up to the number of unknown cells |
| Lines.SegmentsConventions | src/game.py:31-42 | the game's run lengths equal the package's on a line with a filled cell; on a line without one the package gives [] and the game [0] |
| Candidates.GenerateSound | pyNonogram/solver.py:43-55 | every candidate has `size` cells, all filled or crossed, and its runs are the clue's non-zero numbers in order (the clue itself when no number is 0) |
| Candidates.GenerateCount | pyNonogram/solver.py:44-46 | there are C(k + slack, k) candidates, slack = size - sum - (k - 1); a negative slack gives the empty list, not an error |
| Candidates.GenerateComplete | pyNonogram/solver.py:43-55 | the converse of `GenerateSound`: every line of `size` cells, all filled or crossed, whose runs are the clue is a candidate, and so is the all-crossed line for the clue [0] |
| Candidates.GenerateNonEmpty | pyNonogram/solver.py:45-46 | a clue has at least one candidate exactly when its slack is not negative |
| Candidates.GenerateExample | pyNonogram/solver.py:40-56 | clue [3] on five cells gives its three placements, in the order `combinations` enumerates them |
| Candidates.IsPossibleMeaning | pyNonogram/solver.py:150-153 | a candidate is possible exactly when it agrees with every known cell of the line (no position sums to 0) |
| Candidates.IsPossibleTrivial | src/solver.py:105-109 | an all-unknown line admits every candidate, and every candidate admits itself |
| Checks.EmptyBoardSolved | tests/test_nonogram.py:116-119 | a board with no filled cell is solved exactly when every clue is what an empty line reads ([] or [0]); a fresh grid with a clue asking for a filled cell is not solved |
| Checks.ErrorNotSolved | src/game.py:117-126 | a line reported as wrong does not check |
| Checks.NoFilledNoError | src/game.py:118-120 | a line without a filled cell is never reported as wrong |
| Checks.TooManyFilledIsPermanent | src/game.py:121-122 | a line with more filled cells than its clue sums to checks under no completion of its unknown cells |
| Heuristics.TightGenerate | pyNonogram/solver.py:182-193 | a clue without slack has exactly one candidate: each run followed by one crossed cell, cut to the line |
| Heuristics.FullLineMeaning | pyNonogram/solver.py:173-193 | `find_full` writes a line exactly when its clue has no slack, and then writes the line's one candidate; any other line is kept |
| Heuristics.MiddleInEveryCandidate | pyNonogram/solver.py:218-225 | for a single run r > n/2, every candidate fills the cells [n - r, r) |
| Heuristics.MiddleLineSound | pyNonogram/solver.py:218-231 | `fill_middle` fills exactly the cells [n - r, r) and keeps every other cell; a solution of the clue (under either convention) that agreed with the line still agrees with the new one |
| Heuristics.SolutionIsCandidate | pyNonogram/solver.py:20-24 | every solution of a line is in the candidate list generated for its clue |
| Heuristics.PruneKeepsSolution | pyNonogram/solver.py:121-123 | a solution that agrees with the known cells is possible, so pruning never drops it |
| Heuristics.ConsensusMeaning | pyNonogram/solver.py:71-86 | with several candidates, a cell no candidate crosses becomes filled, a cell no candidate fills becomes crossed, any other cell is kept |
| Heuristics.ConsensusSound | pyNonogram/solver.py:64-86 | a solution in the candidate list (as `SolutionIsCandidate` and `PruneKeepsSolution` keep it) that agreed with the line still agrees after `fill_from_possibilities` |
| Heuristics.CrossKeepsSegments | pyNonogram/solver.py:159-167 | crossing the unknown cells keeps the run lengths, so a solved line stays solved |
| Heuristics.CrossSound | pyNonogram/solver.py:155-167 | when a line already checks, every solution of the clue that agrees with it crosses its unknown cells |
| Heuristics.FrontSound | pyNonogram/solver.py:259-271 | when the edge cell is filled, every solution that agrees with the line has the first run there, and the cell after it crossed |
| Heuristics.BackSound | pyNonogram/solver.py:273-282 | the same for the far edge and the last run |
| Heuristics.RemoveFirst | pyNonogram/solver.py:123 | `list.remove` takes out one occurrence of the element: one fewer element, and the multiset loses exactly that one |
| Heuristics.PruneMeaning | pyNonogram/solver.py:121-123 | pruning leaves a sub-list of the old list; it never adds a copy of a candidate; every dropped candidate is impossible; every possible candidate is kept |
| Heuristics.PruneSkipsAfterRemoval | pyNonogram/solver.py:121-123 | removing while iterating skips the element after a removal: an impossible candidate survives one pass |
| Passes.PassKeepsWellFormed | pyNonogram/solver.py:169-244 | rewriting lines keeps the board's shape, so every clue still fits its line |
| Passes.Prelude | pyNonogram/solver.py:316-329 | the candidates, then `find_full`, `fill_middle`, `fill_edges`, `fill_with_crosses`, `remove_possibilities`, keep the shape and give candidate lists that fit the lines |
| Passes.Refine | pyNonogram/solver.py:337-338 | one turn of the loop keeps the shape and keeps the lists fitting the lines |
| Passes.TurnsMeaning | pyNonogram/solver.py:332-340 | the loop stops at the first solved state, or after `limit` turns when none before is solved; a limit of 0 or less makes no turn |
| Solving.Pushed | pyNonogram/solver.py:220-225 | the run pushed to the left covers [0, r) and the run pushed to the right covers [n - r, n) |
| Solving.Occurrences | pyNonogram/solver.py:71-80 | `all_occurrences[j]` holds exactly when no candidate crosses j, and `none_occurrences[j]` exactly when none fills j |
| Solving.FullLineWrite | pyNonogram/solver.py:175-193 | the cursor loop leaves line i as `FullLine` of its clue and changes no other line |
| Solving.MiddleLineWrite | pyNonogram/solver.py:218-231 | the two loops leave line i as `MiddleLine` of its clue and change no other line |
| Solving.ConsensusLineWrite | pyNonogram/solver.py:66-86 | the occurrence tables and the write loop leave line i as `ConsensusLine` of its candidates |
| Solving.CrossUnknownWrite | pyNonogram/solver.py:117 | `fill_row(y, -1, False)`: every unknown cell of line i is crossed, everything else is kept |
| Solving.CrossLineWrite | pyNonogram/solver.py:161-162 | a line that checks gets its unknown cells crossed; any other line is kept |
| Solving.FrontLineWrite | pyNonogram/solver.py:261-271 | the run written from the edge and the crossed cell after it give `ExtendFront` of the line |
| Solving.BackLineWrite | pyNonogram/solver.py:274-282 | the mirror image gives `ExtendBack`, including the probe at index -1 when the run fills the line |
| Solving.Solver.constructor | pyNonogram/solver.py:12-18 | a solver for the puzzle's grid, its clues and its convention, with empty candidate lists until they are generated |
| Solving.Solver.GenerateAllPossibilities | pyNonogram/solver.py:20-24 | the row lists are the candidates of the row clues on `width` cells, the column lists those of the column clues on `height` cells |
| Solving.Solver.FindFull | pyNonogram/solver.py:169-210 | the grid becomes `FindFullStep` of the old grid: every row, then every column |
| Solving.Solver.FillMiddle | pyNonogram/solver.py:212-244 | the grid becomes `FillMiddleStep` of the old grid |
| Solving.Solver.FillEdges | pyNonogram/solver.py:246-304 | IndexError exactly when the grid has no row or no column, with the grid unchanged; otherwise the grid becomes `FillEdgesStep`: top, bottom, left, right, each reading the grid as the previous edge left it |
| Solving.Solver.FillWithCrosses | pyNonogram/solver.py:155-167 | the grid becomes `CrossStep`: solved rows, then solved columns, get their unknown cells crossed |
| Solving.Solver.FillFromPossibilities | pyNonogram/solver.py:58-105 | the grid becomes `ConsensusStep` of the two lists: rows first, then columns, whose writes overwrite |
| Solving.Solver.PruneLine | pyNonogram/solver.py:120-123 | list i becomes `Prune` of it against the line; the other axis's lists are untouched |
| Solving.Solver.RemoveLine | pyNonogram/solver.py:113-123 | a line that checks has its list emptied and its unknown cells crossed; any other line has its list pruned and its cells kept |
| Solving.Solver.RemoveHalf | src/solver.py:112-129 | one axis of `_remove_possibilities`: the board is crossed line by line and the lists become `PrunedLists` |
| Solving.Solver.RemovePossibilities | pyNonogram/solver.py:107-133 | grid and lists become `RemoveStep` of the old ones: rows, then columns on the board the rows left |
| Solving.Solver.Run | pyNonogram/solver.py:306-340 | IndexError exactly for a grid without rows or columns; otherwise the number of turns is `Turns` from the prelude's state and the final state is that many refinements of it |
| Solving.Solver.Prepare | src/solver.py:269-277 | the steps before the loop give `Prelude` of the old grid |
| Solving.Solver.Refinements | pyNonogram/solver.py:332-338 | the loop makes `Turns` turns and ends in `Iterate` of its start state |
| Solving.Solver.IsSolved | pyNonogram/solver.py:332 | the loop's test is `Solved` of the grid under the solver's convention |
| Solving.Solver.Refinement | src/solver.py:278-282 | one turn is `Refine`: `fill_from_possibilities`, then `remove_possibilities` |
| Solving.GeneratePossibilities | src/solver.py:47-65 | the loops build `GenerateAll`: for every clue, its candidates in enumeration order |
| Solving.InitKwargs | src/solver.py:11-22 | the only failure is the GPU warning; the GPU setting kept is the keyword's value, off when not given |
| Solving.InitDefaults | src/solver.py:12-22 | without keywords, warnings are on and the GPU off |
| Solving.InitWarning | src/solver.py:16-20 | the warning is raised exactly when the GPU keyword is given, warnings are not turned off and the puzzle has fewer than 1000 cells |
| Grids.NumpyIndex | pyNonogram/nonogram_grid.py:45 | an index is accepted exactly in [-n, n), and it names the entry it is congruent to modulo n |
| Grids.NegativeIndex | pyNonogram/nonogram_grid.py:57 | index -1 names the last cell: x - width and y - height read the same cell as x and y |
| Grids.SetCellErrors | pyNonogram/nonogram_grid.py:43-45 | ValueError exactly for a value other than -1, 0, 1, checked before the indices; IndexError exactly for a valid value at a bad index |
| Grids.SetThenGet | tests/test_nonogram_grid.py:41-45 | after `set_cell`, `get_cell` there reads the value, and every other cell reads as before |
| Grids.SetCellKeepsCells | pyNonogram/nonogram_grid.py:43-45 | `set_cell` keeps every cell -1, 0 or 1 |
| Grids.FillLineMeaning | pyNonogram/nonogram_grid.py:89-105 | with overwriting the line becomes all `value`; without, only its unknown cells do; other lines are unchanged |
| Grids.FillLineErrors | pyNonogram/nonogram_grid.py:89-105 | when a fill raises IndexError and when ValueError, in both directions |
| Grids.FillLineIdempotent | pyNonogram/nonogram_grid.py:79-105 | filling the same line twice with the same value is filling it once |
| Grids.FillCrossesUnknown | pyNonogram/solver.py:117 | `fill_row(y, -1, False)` is the crossing of unknown cells the solver reasons with |
| Grids.SegmentsPipeline | pyNonogram/nonogram_grid.py:117-124 | the `maximum`/`join`/`split('0')`/`filter`/`len` pipeline computes the run lengths of filled cells |
| Grids.NonogramGrid.constructor | pyNonogram/nonogram_grid.py:12-30 | a height-by-width grid with every cell 0 |
| Grids.NonogramGrid.SetCell | pyNonogram/nonogram_grid.py:32-45 | the grid becomes `SetCellOf`; on ValueError or IndexError it is unchanged |
| Grids.NonogramGrid.GetCell | pyNonogram/nonogram_grid.py:47-57 | the cell at (x, y), or IndexError |
| Grids.NonogramGrid.GetRow | pyNonogram/nonogram_grid.py:59-67 | row y in increasing x, or IndexError |
| Grids.NonogramGrid.GetCol | pyNonogram/nonogram_grid.py:69-77 | column x in increasing y, or IndexError |
| Grids.NonogramGrid.FillRow | pyNonogram/nonogram_grid.py:79-91 | the grid becomes `FillLineOf` along the row; on an error it is unchanged; values -1, 0, 1 keep the grid valid |
| Grids.NonogramGrid.FillCol | pyNonogram/nonogram_grid.py:93-105 | the same along the column |
| Grids.NonogramGrid.GetRowSegments | pyNonogram/nonogram_grid.py:107-125 | raises exactly when `get_row` does; otherwise the run lengths of the row |
| Grids.NonogramGrid.GetColSegments | pyNonogram/nonogram_grid.py:127-141 | the same for the column |
| Texts.SplitJoin | pyNonogram/nonogram.py:105 | splitting a joined text at its separator gives back the pieces, when no piece holds the separator |
| Texts.ParseInt | pyNonogram/nonogram.py:108 | `int` of a text succeeds exactly when, after stripping white space and one sign, it is groups of digits joined by single underscores; any failure is ValueError |
| Texts.ParseNat | pyNonogram/nonogram.py:108 | succeeds exactly when `int` does with a value of at least 0, and gives that value; otherwise ValueError |
| Texts.ParseDecimal | pyNonogram/nonogram.py:108 | `int` of a number's decimal text is the number, and of that text with a minus sign its negation |
| Texts.ParseDigitChar | pyNonogram/nonogram.py:120 | `int` of one character succeeds exactly for a digit, and gives its value |
| Texts.ParseIntAccepts | pyNonogram/nonogram.py:108 | `int` accepts "-1", "+2", "1_0" and " 7\r" as -1, 2, 10 and 7 |
| Texts.ParseIntSeparators | pyNonogram/nonogram.py:108 | `int` treats the ASCII separators 0x1c to 0x1f as white space around the number |
| Texts.ParseIntRefuses | pyNonogram/nonogram.py:108 | `int` refuses "1__0", "_1", "1_", "-" and " " |
| Texts.ChunksOfConcat | pyNonogram/nonogram.py:118 | cutting rows of `width` characters out of their concatenation gives back the rows |
| Nonograms.Field | pyNonogram/nonogram.py:92-117 | `split(':')[1]` raises exactly when the line has no ':' |
| Nonograms.ParseNumbers | pyNonogram/nonogram.py:108 | `list(map(int, items))` succeeds exactly when every item is a number, and then decodes each item; a failure is ValueError |
| Nonograms.ParseClueList | pyNonogram/nonogram.py:105-114 | one clue per space-separated item, each decoded, or the first failure, which is ValueError |
| Nonograms.ParseDigits | pyNonogram/nonogram.py:120 | `list(map(int, chunk))` succeeds exactly when every character is a digit, and then holds each digit's value |
| Nonograms.ParseRows | pyNonogram/nonogram.py:119-120 | one digit row per chunk, each digit decoded, or the first failure, which is ValueError |
| Nonograms.SolutionChunks | pyNonogram/nonogram.py:118 | `zip(*[iter(s)]*width)`: no chunk for a width of 0 or less; otherwise chunks of `width` characters covering the text except fewer than `width` left over |
| Nonograms.ParseSolution | pyNonogram/nonogram.py:117-124 | every decoded row has exactly `width` digits; no rows is no solution; a failure is ValueError |
| Nonograms.ParseFile | pyNonogram/nonogram.py:88-124 | a file of other than nine lines is a format error; every solution row has the puzzle's width |
| Nonograms.ParseFileMeaning | pyNonogram/nonogram.py:88-124 | a file decodes exactly when each of its nine lines decodes as its field and the width and height are not negative, and then every field is its line decoded; a negative width or height is ValueError (pyNonogram/nonogram.py:162-169) |
| Nonograms.ParseClueText | tests/test_nonogram.py:58-59 | a clue written with commas decodes to itself |
| Nonograms.ParseCluesText | pyNonogram/nonogram.py:104-114 | clues written with spaces and commas decode to themselves |
| Nonograms.ParseSolutionText | pyNonogram/nonogram.py:117-120 | the text `save_solution` builds from a finished grid decodes to the grid's digits, one row per grid row |
| Nonograms.SaveLoadRoundTrip | pyNonogram/nonogram.py:184-192 | writing the saved digits of a finished board with `load_solution`'s mapping (1 to filled, 0 to crossed) restores the board, whatever the grid held before |
| Nonograms.SavedTextNotLoadable | pyNonogram/nonogram.py:209-214 | the flat text `save_solution` leaves in the solution field cannot be loaded: with two columns or more the second cell raises IndexError, and nothing is written |
| Nonograms.CheckLineAtMeaning | pyNonogram/nonogram.py:224-232 | with one clue per line, checking a line is comparing its run lengths with its clue |
| Nonograms.CheckAllMeaning | pyNonogram/nonogram.py:256-264 | with one clue per line, `check_all` never raises and says whether every row and every column checks |
| Nonograms.CheckAllRaises | pyNonogram/nonogram.py:249-264 | `check_all` raises only when a clue list is shorter than its axis |
| Nonograms.Nonogram.constructor | pyNonogram/nonogram.py:37-51 | nothing loaded, not solved, no solution, no grid |
| Nonograms.Nonogram.Store | pyNonogram/nonogram.py:91-126 | author, date, picture, difficulty, width, height, clues and solution all become the decoded file's; `solved` is cleared when there is no solution and otherwise kept |
| Nonograms.Nonogram.LoadAsWritten | pyNonogram/nonogram.py:91-129 | the outcome is the decoding's error, if any; on success every field (author, date, picture, difficulty, width, height, clues, solution) is the decoded one, the grid is fresh and all zero, and `solved` is false when there is no solution and otherwise kept |
| Nonograms.Nonogram.Load | pyNonogram/nonogram.py:91-129 | the same, with `solved` set exactly when the file has a solution |
| Nonograms.Nonogram.LoadGrid | pyNonogram/nonogram.py:162-169 | NotLoaded when not loaded; ValueError (numpy's negative dimension) when the width or height is negative; otherwise a fresh height-by-width grid of zeros; no other field changes |
| Nonograms.Nonogram.SaveSolution | pyNonogram/nonogram.py:171-196 | a board with no unknown cell is saved as its row-major '1'/'0' text and marked solved; otherwise RuntimeError at the first unknown cell, with the text written before it; a puzzle not loaded gets an empty solution text and raises TypeError; author, date, picture, difficulty, size, clues and grid never change |
| Nonograms.Nonogram.LoadSolution | pyNonogram/nonogram.py:198-214 | raises when not loaded, or when there is no solution marked solved; otherwise every cell gets its digit (1 filled, 0 crossed), or IndexError at the first missing digit with the cells before it written |
| Nonograms.Nonogram.WriteSolutionCell | pyNonogram/nonogram.py:211-214 | one pass of the loops' body: a missing entry is reported with the grid unchanged; otherwise the cell gets its digit as `Apply` says |
| Nonograms.Nonogram.CheckRow | pyNonogram/nonogram.py:216-232 | `check_row(y)` as `CheckLineAt`: the row's run lengths equal its clue, or IndexError; AttributeError on a puzzle not loaded, which has no grid |
| Nonograms.Nonogram.CheckCol | pyNonogram/nonogram.py:234-247 | the same for column x |
| Nonograms.Nonogram.CheckAll | pyNonogram/nonogram.py:249-264 | the rows, then the columns, stopping at the first that does not check; TypeError on a puzzle not loaded |
| Nonograms.Nonogram.IsSolved | pyNonogram/nonogram.py:266-272 | with one clue per line, the puzzle is `Solved`; TypeError on a puzzle not loaded |
| Nonograms.ReadDigit | pyNonogram/nonogram.py:211-214 | `solution[y][x]` compared with 1 and then 0: filled exactly for 1, crossed exactly for 0, nothing for a larger digit, IndexError exactly for a missing entry |
| Nonograms.ReadSolution | pyNonogram/nonogram.py:211-214 | `solution[y][x]` decoded: 1 filled, 0 crossed, another digit writes nothing, a missing entry raises IndexError |
| Nonograms.LoadThenLoadSolutionAsWritten | pyNonogram/nonogram.py:121-126 | as written, `load` then `load_solution` on a file with a solution always raises "no solution" |
| Nonograms.LoadThenLoadSolution | tests/test_nonogram.py:67-76 | with `load` marking a file with a solution as solved, the calls succeed and every cell holds its decoded digit |
| Games.CheckErrorAtRaises | src/game.py:117-137 | `check_row_error`/`check_col_error` raise IndexError exactly for an index outside [-n, n) along lines that have cells; along lines of no cells they return False for every index |
| Games.SetCellAgrees | src/game.py:9-10 | with a value -1, 0 or 1 the game's `set_cell` is the grid's |
| Games.FillLineAgrees | src/game.py:21-29 | with a value -1, 0 or 1 the game's fills are the grid's; with another value and overwriting, the grid raises ValueError where the game does not: the game writes the line for an index in [-n, n) and raises IndexError for any other |
| Games.RunsAgree | src/game.py:31-55 | the game's run lengths are the grid's on a line with a filled cell; a line without one reads [0] in the game and [] in the grid |
| Games.ConventionsAgree | src/game.py:70-77 | the conventions decide a line alike unless its clue is [] or [0]; an empty line satisfies [0] in the game and [] in the package; [] never checks in the game |
| Games.NonZeroDropZero | src/game.py:38-39 | removing one zero keeps the non-zero entries |
| Games.Game.constructor | src/game.py:5-7 | a height-by-width grid of zeros for the given clues |
| Games.Game.SetCell | src/game.py:9-10 | the cell is written with any value, or IndexError with the grid unchanged |
| Games.Game.GetCell | src/game.py:12-13 | the cell at (x, y), or IndexError |
| Games.Game.GetRow | src/game.py:15-16 | row y, or IndexError |
| Games.Game.GetCol | src/game.py:18-19 | column x, or IndexError |
| Games.Game.FillRow | src/game.py:21-24 | the grid becomes `GameFillLineOf` along the row: the whole row, or only its unknown cells |
| Games.Game.FillCol | src/game.py:26-29 | the same along the column |
| Games.Game.Runs | src/game.py:31-68 | the run lengths of `RunsAt`: never empty, and either [0] or all positive |
| Games.Game.GetRowSegments | src/game.py:31-42 | the run lengths of filled cells of row y, [0] for none |
| Games.Game.GetColSegments | src/game.py:44-55 | the same for column x |
| Games.Game.GetRowSegmentsEmpty | src/game.py:57-68 | the run lengths of unknown cells of row y, [0] for none |
| Games.Game.CheckRow | src/game.py:70-77 | the row's run lengths equal its clue, in length and number by number |
| Games.Game.CheckCol | src/game.py:79-86 | the same for column x |
| Games.Game.CheckAll | src/game.py:88-97 | true exactly when the board is `Solved` in the game's convention |
| Games.Game.IsSolved | src/game.py:99-100 | the same |
| Games.Game.CheckRowError | src/game.py:117-126 | `False` for every index when rows have no cells (numpy's empty row at any index); otherwise IndexError for a bad index, no error for a row without a filled cell, and an error exactly when the runs add up to more than the clue or one run is longer than the longest clue number |
| Games.Game.CheckColError | src/game.py:128-137 | the same for column x, `False` for every index when columns have no cells |
| Games.Game.CheckError | src/game.py:139-147 | true exactly when some row or some column is wrong |
| Games.SameRuns | src/game.py:72-77 | the comparison loop is true exactly when the two lists are equal |
| Games.AnyLonger | src/game.py:123-125 | true exactly when some run is longer than the bound |
| Games.AllPass | src/game.py:94-97 | true exactly when no check failed |
| Games.DropZeros | src/game.py:38-39 | the removal loop leaves the non-zero entries, in order |
| Games.SolvedFromResults | src/game.py:88-97 | the board is solved exactly when no row or column result is false |
| Games.ErrorFromResults | src/game.py:139-147 | the board is wrong exactly when some row or column result is true |

## Findings

| source | as written | input that shows it | evidently intended | confidence | as-written member | corrected member |
|---|---|---|---|---|---|---|
| pyNonogram/nonogram.py:121-126 | `load` sets `solved` only to False, when the file has no solution; `load_solution` demands `solved` | any `.non` file with a solution line, loaded into a fresh `Nonogram` and followed by `load_solution()`, as in tests/test_nonogram.py:67-76 | a file with a solution marks the puzzle solved, so `load_solution` writes it into the grid | high, not executed | Nonograms.LoadThenLoadSolutionAsWritten | Nonograms.LoadThenLoadSolution |

## Left out

- File and console I/O are not modelled. The decoded lines of a `.non` file are the input of `ParseFile`, `Load` and `LoadAsWritten`. Not modelled:
  - the `os.path` checks and the `.non` suffix check;
  - `open`/`readlines`;
  - `load_random`, whose random choice of file has no model;
  - the file appends of both `save_solution` methods;
  - `Nonogram.print` and `Game.__str__`;
  - every `print` of progress in `run`.
- Nonograms.Nonogram.SaveSolution: the two exceptions `save_solution` raises first, for no path and for a path that is not a file (pyNonogram/nonogram.py:178-182), are not modelled, because the model has no path.
- `Game.save_solution` (src/game.py:102-115) builds the same '1'/'0' text as the package's; only the package's is modelled, as `Nonograms.Nonogram.SaveSolution`.
- The GPU/torch paths of src/solver.py are not modelled: `init_pytorch`, the tensor conversion in `generate_all_possibilities`, the unfinished `_remove_possibilities_gpu` and `is_possible_gpu`, and the `__main__` block. `remove_possibilities` is modelled on its CPU branch only.
- The `max_step` variable of src/solver.py is computed and never used; it is left out.
- `Game.biggest_empty_in_row` only prints. The scraper, browser and display modules, main.py, setup.py and the example scripts are glue, not logic. None of these are modelled.
- `Game.__init__` inherits its fields from `src/nonogram.py`, which is not part of this model. The game's clues are given to its constructor.
- `NonogramGrid` stores int8 and ignores a requested dtype. The model keeps unbounded integers. `set_cell` only admits -1, 0 and 1, so no stored value can wrap.
- `Game.set_cell` stores any integer in a numpy int array. The model does not wrap values outside 64 bits.
- Nonograms.Nonogram.Load: a file that fails to decode leaves the object unchanged in the model. Python assigns the fields one line at a time (pyNonogram/nonogram.py:91-120), so a failure part-way leaves the fields before the failing line assigned, a clue list or solution half converted, and `is_loaded` and the old grid as they were. A negative width or height is assigned with every other field before `load_grid` raises. The model does not promise those partial states.
- Nonograms.Nonogram.LoadAsWritten: the same as `Load` for a file that fails to decode.
- Texts.ParseNat: a negative clue number or solution digit, which Python's `int` accepts, is refused with a ValueError. The model's clues and digits are natural numbers; a negative clue would only feed the solver lines it cannot place.
- Texts.ParseInt: digits and white space outside ASCII, which Python's `int` also accepts, are not modelled; ASCII space, tab, newline, carriage return, vertical tab, form feed and the separators 0x1c to 0x1f are.
- Solving.Solver.constructor: calling `fill_from_possibilities` or `remove_possibilities` before `generate_all_possibilities` raises AttributeError in the source, because `__init__` never creates the candidate lists. The model starts with empty lists instead and raises no error there.
- Solving.Solver.constructor: the solver requires `WellFormed` clues. There must be one clue per line, no clue may be empty, and no clue number may be longer than its line. The source has no such check:
  - with an empty clue, `fill_edges` raises IndexError at `[0]` or `[-1]` once that line's edge cell is filled;
  - with a clue number longer than its line, `fill_middle` raises IndexError in its `left[i]` loop;
  - with such a number, `fill_edges` either raises outside its `try` or writes at wrapped negative indices.

  The model does not follow those runs.
- Generation does not report an infeasible clue. A negative slack gives no candidate, as written (`Candidates.GenerateCount`). An empty list is also what `remove_possibilities` leaves for a solved line, and the model keeps both meanings as the source does.
- `fill_middle` rewrites an unknown cell with 0, which changes nothing. The model leaves such a cell as it is.
- Python's `run(limit=None)` would fail at `limit > counter`. The model takes an integer limit.
- Solving.Solver.FillEdges: only a grid without rows or columns raises, as the model states. Other exceptions in the edge loops are caught by the source and have no cause in a well-formed puzzle.
