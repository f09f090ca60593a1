# Sudoku solver: a verified model

This project models the `Sudoku` class of `assignment1_1000000.py`. The class
is a recursive exhaustive-search Sudoku solver with optional pruning
("backtracking"). Each object holds one N×N grid. N is the grid's size and a
0 marks an empty cell. The solver reads rows, columns and √N×√N boxes out of
the grid and checks whether each group repeats a digit. It fills the grid in
place by a depth-first search that writes a candidate, recurses, and clears
the cell again when the recursion fails.

The project has four modules:

- `SudokuGrid` (`sudoku_grid.dfy`). The grid as a value (`Board`), the row,
  column and box views, and the box arithmetic of `get_box_index` and
  `get_box`. The box size B is explicit, and the grid side is B·B.
- `SudokuRules` (`sudoku_rules.dfy`). It models `is_set_correct`,
  `check_cell`, and the condition `check_sudoku` decides. Each of them is
  related to the Sudoku rule stated cell by cell: no two cells that share a
  row, a column or a box hold the same non-zero value.
- `SudokuSearch` (`sudoku_search.dfy`). The search of `step`, `next_step` and
  `clean_up`, written as a function `Run` on grid values. `Run` takes an
  explicit `Frame` (where the search stands) and the test that decides
  whether a written candidate is kept. The module also holds the lemmas
  about what the search guarantees.
- `SudokuSolver` (`sudoku.dfy`). The class `Sudoku`. Its grid is an
  `array2<int>` written in place. `Step`, `NextStep` and `Solve` are
  proved to return, and to leave in the array, exactly what `Run`
  describes. `CleanUp` is proved to empty exactly its one cell.
  `CheckSudoku` is proved to decide exactly `SudokuCorrect`.

## Behaviour of the code as written

The model follows the code where the code and its own comments and
docstrings differ.

- **The candidate test.** The comment on the test in `step` says the cell is
  checked "if backtracking is enabled" (`assignment1_1000000.py:191`). The
  docstrings of `step` and `solve` (`:175`, `:244`) describe `backtracking`
  as the switch between exhaustive search and backtracking. The test as
  written, `backtracking or self.check_cell(row, col)`, does the reverse:
  - With `backtracking=True`, no candidate is ever checked. The first
    candidate, 1, is always accepted, so `solve` always succeeds and writes 1
    into every empty cell it visits. Filled cells are skipped.
  - With `backtracking=False`, every candidate is pruned by `check_cell`.

  `Accept` models this test as written. `SolveOutcome` and `Solve` state both
  consequences.
- **Only even columns are visited.** `step` calls `next_step(row, col + 1)`
  (`assignment1_1000000.py:187`, `:192`), and `next_step` adds one more column
  (`:214-215`). So the search moves two columns at a time. Starting from
  (0, 0) it only visits even columns, and it never writes an odd column.
  - `next_step` calls `step(row, col + 1)` only while `col + 1 < size`.
    Otherwise it moves to `step(row + 1, 0)` (`:216-217`). On every grid
    side, the search therefore goes on at (row + 1, 0) after the last even
    column below size.
  - `step(row, size)` is never reached from `solve`, so the `col == size`
    branch (`:183-184`) is unreachable from there. The model keeps the
    branch as written.

  `Visits`, `Ahead` and `VisitsFromStart` describe the cells the search
  reaches.
- **No final validation.** Reaching `row == size` returns `True`
  (`:180-181`). Nothing checks the finished grid, so a "solved" grid need not
  satisfy the Sudoku rule. In pruning mode it does stay correct when it
  started correct (`RunKeepsCorrect`).
- **Grid size.** A grid given to `set_grid` must be B·B on a side with B ≥ 1,
  and its cells must lie in 0..B·B. The code takes `int(np.sqrt(size))` as
  the box size. The model keeps that box size as a field `boxSize`, with
  `size == boxSize * boxSize`.

## Model

| member | source | states |
|---|---|---|
| `SudokuSolver.Sudoku.Valid` | assignment1_1000000.py:24-26 | the class invariant: the grid is size×size with size = boxSize·boxSize and boxSize ≥ 1, and every cell holds 0 or a digit 1..size |
| `SudokuSolver.Sudoku.Cells` | assignment1_1000000.py:24-26 | the grid's contents as a value: a size×size board whose cell (r, c) is the array's cell (r, c) |
| `SudokuSolver.Sudoku.constructor` | assignment1_1000000.py:24-26 | a new object holds a fresh all-zero grid of side boxSize·boxSize (9 by default) and satisfies the class invariant |
| `SudokuSolver.Sudoku.SetGrid` | assignment1_1000000.py:40-48 | the object takes the given array itself (no copy), and the array's side becomes the size |
| `SudokuGrid.Place` | assignment1_1000000.py:190 | writing one cell changes that cell to the value and leaves every other cell and the grid's shape as they were |
| `SudokuGrid.PlaceUndo` | assignment1_1000000.py:190-194 | writing a value and then writing back the old content restores the grid exactly |
| `SudokuGrid.Row` | assignment1_1000000.py:51-60 | the row view has N entries, and entry c is the cell (i, c) |
| `SudokuGrid.Col` | assignment1_1000000.py:62-71 | the column view has N entries, and entry k is the cell (k, j) |
| `SudokuGrid.BoxIndex` | assignment1_1000000.py:73-85 | the box number is below B·B, and its base-B digits are the box row r / B and the box column c / B |
| `SudokuGrid.BoxOrigin` | assignment1_1000000.py:96-98 | the box's top-left cell lies on multiples of B, and the whole B×B box fits inside the grid |
| `SudokuGrid.BoxCell` | assignment1_1000000.py:99 | position k of a box's flattened view is a cell inside the grid |
| `SudokuGrid.Box` | assignment1_1000000.py:87-99 | the flattened box view has B·B entries, and entry k is the cell at row origin + k / B and column origin + k % B |
| `SudokuGrid.CellInOwnBox` | assignment1_1000000.py:84-99 | every cell lies inside the B×B block of the box `get_box_index` gives it |
| `SudokuGrid.BoxCellIndex` | assignment1_1000000.py:84-99 | each cell of box b has box index b, so the boxes tile the grid |
| `SudokuGrid.CellInBoxAt` | assignment1_1000000.py:84-99 | the cell (r, c) appears in its own box's flattened view at position (r % B)·B + c % B |
| `SudokuRules.NonZero` | assignment1_1000000.py:115 | dropping the zeros keeps exactly the non-zero values and never lengthens the list |
| `SudokuRules.NonZeroMultiset` | assignment1_1000000.py:115 | dropping the zeros keeps every non-zero value as many times as it occurs, and removes every zero |
| `SudokuRules.IsSetCorrect` | assignment1_1000000.py:102-116 | the definition: the non-zero entries are as many as the set of their values. It has no contract of its own; `IsSetCorrectIff` states what it means |
| `SudokuRules.ElementsCountIffDistinct` | assignment1_1000000.py:116 | a list is as long as the set of its values exactly when no value occurs twice |
| `SudokuRules.NonZeroDistinctIff` | assignment1_1000000.py:115-116 | the non-zero entries are pairwise distinct exactly when no non-zero value repeats in the group |
| `SudokuRules.IsSetCorrectIff` | assignment1_1000000.py:102-116 | `is_set_correct` holds exactly when no non-zero value repeats; zeros may repeat any number of times |
| `SudokuRules.ClearKeepsSetCorrect` | assignment1_1000000.py:107 | emptying a cell of a correct group keeps the group correct, so zeros never make a group incorrect |
| `SudokuRules.EmptySetCorrect` | assignment1_1000000.py:107 | a group of empty cells is correct |
| `SudokuRules.SetCorrectExample` | assignment1_1000000.py:102-116 | a 9-cell row with distinct digits and repeated zeros is correct |
| `SudokuRules.SetIncorrectExample` | assignment1_1000000.py:102-116 | a 9-cell row that repeats the digit 5 is incorrect |
| `SudokuRules.CheckCell` | assignment1_1000000.py:118-135 | the definition: an empty cell passes, and a filled cell needs its row, its column and its own box correct. It has no contract of its own; `CheckCellIff` and `ConflictFailsCheckCell` state what it means |
| `SudokuRules.SudokuCorrect` | assignment1_1000000.py:148-155 | the condition `check_sudoku` decides: every row, every column and each of the B·B boxes is correct. It has no contract of its own; `SudokuCorrectIffNoConflicts` and `SudokuCorrectIffEveryCell` state what it means |
| `SudokuRules.CheckCellIff` | assignment1_1000000.py:118-135 | an empty cell always passes `check_cell`; a filled cell passes exactly when its row, its column and its box each repeat no non-zero value |
| `SudokuRules.RowRepeatIncorrect` | assignment1_1000000.py:132 | a non-zero value twice in one row makes that row incorrect |
| `SudokuRules.ColRepeatIncorrect` | assignment1_1000000.py:133 | a non-zero value twice in one column makes that column incorrect |
| `SudokuRules.BoxPosition` | assignment1_1000000.py:134 | a cell's position inside its own flattened box is below B·B and names that cell |
| `SudokuRules.BoxHoldsCell` | assignment1_1000000.py:134 | the box of a cell holds that cell's value at the cell's position |
| `SudokuRules.BoxRepeatIncorrect` | assignment1_1000000.py:134 | a non-zero value in two different cells of one box makes that box incorrect |
| `SudokuRules.ConflictFailsCheckCell` | assignment1_1000000.py:118-135 | if a filled cell's value repeats in its row, column or box, `check_cell` on that cell fails |
| `SudokuRules.IncorrectGroupHasConflict` | assignment1_1000000.py:148-155 | an incorrect row, column or box contains two cells that share a group and hold the same non-zero value |
| `SudokuRules.SudokuCorrectIffNoConflicts` | assignment1_1000000.py:137-155 | the group-wise condition of `check_sudoku` holds exactly when no two cells that share a row, column or box hold the same non-zero value |
| `SudokuRules.SudokuCorrectIffEveryCell` | assignment1_1000000.py:137-155 | `check_sudoku`'s condition holds exactly when `check_cell` passes at every cell |
| `SudokuRules.CorrectBelowGrow` | assignment1_1000000.py:148-154 | one more correct row/column pair, or one more correct box, extends what the loops have checked |
| `SudokuRules.SudokuCorrectByParts` | assignment1_1000000.py:148-155 | the grid is correct exactly when all row/column pairs and all boxes are correct |
| `SudokuRules.PlaceKeepsCorrect` | assignment1_1000000.py:190-191 | in a correct grid, writing a non-zero value that passes `check_cell` leaves the grid correct |
| `SudokuSolver.Sudoku.CheckSudoku` | assignment1_1000000.py:137-155 | returns exactly whether every row, column and box is correct; it changes nothing (no modifies clause) |
| `SudokuSolver.Sudoku.CheckGroups` | assignment1_1000000.py:148-155 | the two loops with early exit return exactly `SudokuCorrect` of the grid |
| `SudokuSearch.Accept` | assignment1_1000000.py:191 | the test `backtracking or check_cell(row, col)`, as written. It has no contract of its own; `RunBacktrackingFillsOnes` and `RunKeepsCorrect` state its consequences |
| `SudokuSearch.Run` | assignment1_1000000.py:180-217 | the search as written; its own contract states only that the grid keeps its N×N shape (its meaning is in the lemmas below) |
| `SudokuSearch.Attempt` | assignment1_1000000.py:189-196 | one iteration of the candidate loop, as written; its own contract states only the shape of the grid |
| `SudokuSearch.TryingUnfold` | assignment1_1000000.py:189-194 | one loop iteration either keeps the candidate and `next_step` succeeds, or it goes on with the next candidate from the very grid it started with |
| `SudokuSearch.RunRestores` | assignment1_1000000.py:180-217 | a search that fails leaves the grid exactly as it found it |
| `SudokuSearch.TryingRestores` | assignment1_1000000.py:189-196 | a candidate loop that fails leaves the cell empty and the grid unchanged |
| `SudokuSearch.RunFrame` | assignment1_1000000.py:180-217 | the search never overwrites a filled cell or a cell it does not visit, writes only 1..N, and on success has filled every visited empty cell |
| `SudokuSearch.TryingFrame` | assignment1_1000000.py:189-196 | the same frame facts for one candidate loop |
| `SudokuSearch.TryingSucceeded` | assignment1_1000000.py:190-193 | the frame facts of a successful `next_step` carry over to the `step` that called it |
| `SudokuSearch.RunBacktrackingFillsOnes` | assignment1_1000000.py:191 | when every candidate is kept, as with `backtracking=True`, the search succeeds and writes 1 into every visited empty cell and nothing else |
| `SudokuSearch.TryingFillsOne` | assignment1_1000000.py:189-193 | when every candidate is kept, the first candidate 1 succeeds at once |
| `SudokuSearch.OnesAfterFirstTrial` | assignment1_1000000.py:190-193 | 1 written at the current cell, followed by 1s from `next_step` on, fills every cell the loop visits |
| `SudokuSearch.RunKeeps` | assignment1_1000000.py:180-217 | any grid property that survives every accepted placement holds of the grid the search leaves, however the search ends |
| `SudokuSearch.TryingKeeps` | assignment1_1000000.py:189-196 | the same for one candidate loop |
| `SudokuSearch.AcceptedPlacementsKeepCorrect` | assignment1_1000000.py:191 | every placement `check_cell` accepts keeps a correct grid correct |
| `SudokuSearch.RunKeepsCorrect` | assignment1_1000000.py:191 | with `backtracking=False`, a grid that `check_sudoku` accepts is still accepted after the search |
| `SudokuSearch.VisitsFromStart` | assignment1_1000000.py:187-217 | from (0, 0) the search visits exactly the cells in even columns |
| `SudokuSearch.SolveOutcome` | assignment1_1000000.py:236-249 | from (0, 0): odd columns and filled cells are never changed, and written values are in 1..N. Success fills every empty even-column cell, and failure restores the grid. Backtracking mode always succeeds and writes 1s. Pruning mode keeps a correct grid correct |
| `SudokuSolver.Sudoku.Step` | assignment1_1000000.py:158-196 | the in-place method returns, and leaves in the array, exactly what `Run` gives from `step(row, col)`, keeping the class invariant |
| `SudokuSolver.Sudoku.TryNumber` | assignment1_1000000.py:189-194 | one pass of the candidate loop in place: on success it matches `Run`; on failure the grid is back to what it was and the loop goes on with the next candidate |
| `SudokuSolver.Sudoku.NextStep` | assignment1_1000000.py:198-217 | the in-place method matches `Run` from `next_step(row, col)` |
| `SudokuSolver.Sudoku.Write` | assignment1_1000000.py:190 | assigning one array cell changes the grid exactly as `Place` does |
| `SudokuSolver.Sudoku.CleanUp` | assignment1_1000000.py:220-234 | empties the cell, changes nothing else, and always answers false |
| `SudokuSolver.Sudoku.Solve` | assignment1_1000000.py:236-249 | matches `Run` from (0, 0), with every property of `SolveOutcome` stated on the array: failure restores the grid, backtracking always succeeds with 1s in the empty even-column cells, odd columns and filled cells stay, and pruning keeps a correct grid correct |

## Left out

- `__repr__` (`assignment1_1000000.py:28-37`), the imports and the module's
  random generator are not modelled. They are formatting and unused state.
- numpy details are not modelled. The grid of `__init__` holds floats,
  `np.sqrt` works in floating point, and the views `get_row`, `get_col` and
  `get_box` alias the array. The model uses integer cells, a separate
  `boxSize` field, and views returned as sequence values.
- Grids whose side is not a perfect square, or is 0, and cells outside
  0..size are excluded by the class invariant. On such grids the code's box
  arithmetic does not describe a Sudoku.
- Running time and Python's recursion depth limit are not modelled.
- SudokuSolver.Sudoku.constructor: takes the box size B (default 3), not the
  side `size` (default 9) that `__init__` takes, and builds a B·B×B·B grid.
  So `Sudoku(4)` is 4×4 in the source but 16×16 here. The box size must be
  known as an integer, and the model does not compute `int(np.sqrt(size))`.
- SudokuSolver.Sudoku.CheckSudoku: reads the array into a grid value once and
  runs the loops over that value, rather than slicing the array on each
  iteration. The result is the same, since nothing writes the grid during
  the check.
- SudokuSolver.Sudoku.TryNumber: one pass of `step`'s `for num` loop, factored
  out as its own method. SudokuSolver.Sudoku.Write factors out the single
  cell assignment `self.grid[row, col] = num`.
- SudokuSearch.Run: its own contract states only that the grid keeps its
  shape. It is the reference definition of the search, and what it
  guarantees is stated by the lemmas about it.
- SudokuSearch.Attempt: the same, for one iteration of the candidate loop.
