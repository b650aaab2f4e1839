# Sudoku backtracking solver — verified model

This project models the solving core of a Sudoku visualiser written in
TypeScript: the validator `isValid`, the completeness test `isSolved` and the
in-place backtracking search `solveSudokuSmarter`, all in
`src/SudokuSolver.ts`.

The grid of `src/Sudoku.tsx` nests three levels deep. It has three bands
(`rows`). Each band has three `sections` (3x3 blocks). Each section has nine
`cells`, stored row-major. The model flattens this into 81 positions in
band -> section -> cell order (`Board.Index`). That is the order in which the
solver collects cells, and the order in which it scans for the first empty one.
A value of 0 stands for an empty cell.

- `Board.dfy` holds the layout:
  - positions and global row/column/block coordinates;
  - the column and row gathers that `isValid` uses;
  - the list of empty cells and the empty-cell count, which is the solver's
    termination measure.
- `Validator.dfy` models `isValid` and `isSolved` as functions. `isValid` runs the
  27 unit checks in the source's order: blocks, then columns, then rows; the
  first failure decides. The lemmas prove that it is exactly "no block, global
  row or global column repeats a non-empty value" (`Consistent`).
- `Solver.dfy` models `solveSudokuSmarter` as the class `SudokuSolver`. The class
  owns the grid as an `array<int>` and the cells' `possibleValues` lists as a
  sequence. Specification functions describe what the candidate pass computes:
  - `Candidates` is the trial loop over 1..9;
  - `StateAt` is the grid after the first k cells of the pass, with forced
    singletons committed;
  - `PassLists` is the list each cell had when the pass reached it.

  The methods follow the source's loops and in-place updates. `Solve` recurses
  with `decreases` on the number of empty cells.

`Solve` proves the following:
- a success leaves the grid solved, with every value held on entry kept;
- a failure leaves the grid exactly as on entry;
- an invalid input fails;
- a solved input is returned unchanged;
- the `possibleValues` lists of cells filled on entry are untouched;
- completeness: a failure means that no solved grid extends the input.

Completeness holds because forced singletons never exclude a solution and
branching on one cell covers all of them.

Three facts about the code shape the model:
- every failure is the same `undefined` result: there is no separate
  invalid-input or cancelled outcome;
- the `preset` flag is never read: given values are protected only by being
  non-empty on entry;
- candidate lists are not restored on return.

The code of the row gather (`src/SudokuSolver.ts:188`) is modelled as written;
the index table in the comment above it does not match that code.

## Model

| member | source | states |
|---|---|---|
| Board.Index | src/Sudoku.tsx:3-22 | every (band, section, cell) triple names one of the 81 positions |
| Board.IndexRoundTrip | src/Sudoku.tsx:3-22 | Index and the (band, section, cell) decomposition are inverse bijections between the nested shape and the 81 positions |
| Board.CoordinatesInRange | src/Sudoku.tsx:3-22 | every position lies in a block, a global row and a global column numbered 0..8 |
| Board.ColumnCell | src/SudokuSolver.ts:136-156 | the cell read as the k-th entry of column c, cell (k%3)*3 + c%3 of section c/3 in band k/3, is a grid position |
| Board.RowCell | src/SudokuSolver.ts:171-190 | the cell read as the k-th entry of row r, cell k%3 + (r%3)*3 of section k/3 in band r/3, is a grid position |
| Board.ColumnGather | src/SudokuSolver.ts:134-160 | as k runs over 0..8 the column gather visits exactly the nine cells of global column c, one per global row, each once |
| Board.RowGather | src/SudokuSolver.ts:169-194 | as k runs over 0..8 the row gather visits exactly the nine cells of global row r, one per global column, each once |
| Board.SectionOf | src/Sudoku.tsx:3-22 | the block of a position, band-major (i / 9); it lies in 0..8 by CoordinatesInRange |
| Board.RowOf | src/Sudoku.tsx:3-22 | the global row 3 * band + cell / 3; it lies in 0..8 by CoordinatesInRange, and RowGather shows the row gather reads exactly the cells with a given RowOf |
| Board.ColOf | src/Sudoku.tsx:3-22 | the global column 3 * section + cell % 3; it lies in 0..8 by CoordinatesInRange, and ColumnGather shows the column gather reads exactly the cells with a given ColOf |
| Board.EmptyCount | src/SudokuSolver.ts:19 | the number of empty cells, the recursion's measure; FillingDecreases shows it drops with every recursive call |
| Board.FillingDecreases | src/SudokuSolver.ts:74-83 | filling cells never adds an empty cell, and filling an empty one strictly lowers the empty count, so each recursive call has fewer empty cells |
| Board.AscendingLess | src/SudokuSolver.ts:18-19 | in the strictly ascending visiting order an earlier cell has a smaller position than every later one |
| Board.EmptyCellsFrom | src/SudokuSolver.ts:18-19 | lists, strictly ascending, exactly the empty positions from `from` on |
| Board.EmptyCells | src/SudokuSolver.ts:18-19 | the cells empty on entry, in visiting order (ListsEmptyCells): every member is empty, the list is strictly ascending, and every empty cell is in it |
| Validator.NonEmpty | src/SudokuSolver.ts:121-124 | the filter of empty values never lengthens a unit |
| Validator.NonEmptyMembers | src/SudokuSolver.ts:123 | the filter keeps exactly the non-zero values of the unit |
| Validator.ToSet | src/SudokuSolver.ts:125 | the set of a unit's values has at most as many elements as the unit |
| Validator.ToSetMembers | src/SudokuSolver.ts:125 | the set holds exactly the values of the sequence |
| Validator.DistinctCount | src/SudokuSolver.ts:125-127 | set size equals length exactly when no element repeats |
| Validator.OccursIff | src/SudokuSolver.ts:121-127 | the recursive occurrence test agrees with sequence membership |
| Validator.NoRepeatsIffNoClash | src/SudokuSolver.ts:121-127 | the recursive duplicate test of a unit holds exactly when no two positions hold the same non-empty value |
| Validator.SizeTestAgrees | src/SudokuSolver.ts:121-127 | the source's comparison of filtered length with set size agrees, in both directions, with the duplicate test the model evaluates |
| Validator.NonEmptyDistinct | src/SudokuSolver.ts:121-125 | the filtered values are pairwise distinct exactly when no two positions of the unit clash |
| Validator.SizeTest | src/SudokuSolver.ts:121-127 | the per-unit test as the source writes it, filtered length equal to set size; SizeTestAgrees proves it equal to NoRepeats |
| Validator.SectionValues | src/SudokuSolver.ts:118-122 | the nine values of section b in storage order; SectionsCheck gives their meaning |
| Validator.ColumnValues | src/SudokuSolver.ts:134-160 | the nine values the column gather collects for column c, in gather order; ColumnGather and ColumnsCheck give their meaning |
| Validator.RowValues | src/SudokuSolver.ts:169-194 | the nine values the row gather collects for row r, in gather order; RowGather and RowsCheck give their meaning |
| Validator.UnitValues | src/SudokuSolver.ts:117-201 | unit u in checking order: sections, then columns, then rows; UnitsSplit |
| Validator.AllNoRepeats | src/SudokuSolver.ts:119-200 | the unit checks with the first failure deciding (the `every` and the early returns at 130-132, 164-166 and 198-200); AllNoRepeatsIff |
| Validator.IsValid | src/SudokuSolver.ts:117-204 | `isValid`; exactly Consistent, by ValidIffConsistent, and kept by emptying cells, by ValidDownward |
| Validator.IsSolved | src/SudokuSolver.ts:206-210 | `isSolved`: filled and valid; exactly filled and Consistent, by SolvedIff |
| Validator.Units | src/SudokuSolver.ts:117-204 | the validator inspects 27 units |
| Validator.AllNoRepeatsIff | src/SudokuSolver.ts:119-130 | the short-circuiting `every` over units holds exactly when every unit passes |
| Validator.UnitsSplit | src/SudokuSolver.ts:117-204 | isValid holds exactly when all nine sections, all nine gathered columns and all nine gathered rows pass the duplicate test |
| Validator.SectionsCheck | src/SudokuSolver.ts:118-132 | all sections pass exactly when no block holds a non-empty value twice |
| Validator.ColumnsCheck | src/SudokuSolver.ts:134-167 | all gathered columns pass exactly when no global column holds a non-empty value twice |
| Validator.RowsCheck | src/SudokuSolver.ts:169-201 | all gathered rows pass exactly when no global row holds a non-empty value twice |
| Validator.ConsistentSplit | src/SudokuSolver.ts:117-204 | the reference definition splits into its block, column and row parts |
| Validator.ValidIffConsistent | src/SudokuSolver.ts:117-204 | isValid holds exactly when no block, global column or global row holds the same non-empty value twice; empty cells are ignored |
| Validator.SolvedIff | src/SudokuSolver.ts:206-210 | isSolved holds exactly when every cell is filled and no unit repeats a value; isSolved implies isValid |
| Validator.ValidDownward | src/SudokuSolver.ts:117-204 | emptying cells keeps a valid grid valid |
| Validator.ConsistentDownward | src/SudokuSolver.ts:117-204 | a grid that a consistent grid extends is consistent |
| Solver.CandidatesBelow | src/SudokuSolver.ts:24-34 | the list after the values below n have been tried; content by CandidatesBelowMember, order by CandidatesBelowAscending |
| Solver.Tried | src/SudokuSolver.ts:25-33 | one iteration of the trial loop: v is appended exactly when placing it validates |
| Solver.Candidates | src/SudokuSolver.ts:22-34 | the `possibleValues` list the trial loop builds; content by CandidateMember, order and range by CandidatesAscending |
| Solver.CandidatesBelowMember | src/SudokuSolver.ts:24-34 | after trying the values below n the list holds exactly the values v in 1..n-1 whose placement keeps the grid valid |
| Solver.CandidatesBelowAscending | src/SudokuSolver.ts:24-34 | that list is strictly ascending within 1..n-1 |
| Solver.CandidateMember | src/SudokuSolver.ts:22-34 | a value is a candidate of a cell exactly when it is in 1..9 and placing it keeps the grid valid |
| Solver.CandidatesAscending | src/SudokuSolver.ts:22-34 | a cell's candidate list is strictly ascending within 1..9 |
| Solver.StateAt | src/SudokuSolver.ts:21-45 | the grid after the pass has handled its first k cells has 81 cells |
| Solver.StateAtFacts | src/SudokuSolver.ts:40-43 | the pass keeps every cell in 0..9, changes only cells that were empty, and leaves the cells it has not reached empty |
| Solver.StateAtStep | src/SudokuSolver.ts:40-43 | proof hint, a one-step unfolding of StateAt: the k-th cell of the pass takes its candidate exactly when it has one, and nothing else changes |
| Solver.PassLists | src/SudokuSolver.ts:21-34 | one list per cell handled so far |
| Solver.PassListsStep | src/SudokuSolver.ts:21-34 | proof hint, a one-step unfolding of PassLists: handling one more cell appends its candidate list, computed on the grid as the pass left it |
| Solver.PassListsIndex | src/SudokuSolver.ts:21-34 | the j-th list is the candidate list of the j-th cell in the grid as it stood when the pass reached that cell |
| Solver.PassListMeaning | src/SudokuSolver.ts:21-45 | after the pass each cell's list is strictly ascending within 1..9 and holds exactly the values valid at that point, earlier forced singletons included |
| Solver.SolutionValueIsCandidate | src/SudokuSolver.ts:24-34 | a solution's value at a cell is among that cell's candidates in every grid the solution extends |
| Solver.PassKeepsSolutions | src/SudokuSolver.ts:40-43 | forcing singletons is sound: every solution of the input extends the grid at every stage of the pass |
| Solver.UnsolvableIfInvalid | src/SudokuSolver.ts:76-79 | an invalid grid has no solution, so skipping a candidate that invalidates the grid loses none |
| Solver.StuckPassUnsolvable | src/SudokuSolver.ts:36-39 | a cell without candidates at its point in the pass means the input has no solution |
| Solver.InvalidPassUnsolvable | src/SudokuSolver.ts:47-50 | a grid left invalid by the pass means the input has no solution |
| Solver.BranchCovers | src/SudokuSolver.ts:74-92 | every solution of the input takes one of the branching cell's candidates there and solves the post-pass grid with that value placed |
| Solver.ExhaustedUnsolvable | src/SudokuSolver.ts:94-98 | if no candidate of the branching cell leads to a solution of the post-pass grid, the input has none |
| Solver.ClearingRestores | src/SudokuSolver.ts:36-37 | emptying the cells empty on entry restores the input from any grid that extends it |
| Solver.SudokuSolver.constructor | src/Sudoku.tsx:3-22 | the solver owns a fresh copy of the grid, and every candidate list starts empty |
| Solver.SudokuSolver.ComputePossibleValues | src/SudokuSolver.ts:22-34 | the empty cell's list becomes exactly its candidate list; the grid is unchanged afterwards, as is every other cell's list |
| Solver.SudokuSolver.ClearCells | src/SudokuSolver.ts:37 | exactly the listed cells become empty; every other cell keeps its value |
| Solver.SudokuSolver.SettleCell | src/SudokuSolver.ts:22-43 | reports stuck exactly when the cell has no candidate; commits a single candidate and empties the list, otherwise keeps the whole list and leaves the cell empty |
| Solver.SudokuSolver.ComputeCandidates | src/SudokuSolver.ts:21-45 | fails, with the grid as on entry, exactly when some cell has no candidate when reached; otherwise the grid is the pass's result and every cell is settled with its pass list |
| Solver.SudokuSolver.FirstEmpty | src/SudokuSolver.ts:61-72 | the result is an empty cell and every earlier position in band -> section -> cell order is filled |
| Solver.SudokuSolver.Branch | src/SudokuSolver.ts:74-92 | tries the cell's candidates in list order: on success the cell holds the t-th candidate and none of the earlier candidates leads to a solution, so with the ascending list the least solvable candidate is taken; success leaves a solved grid extending the entry grid; failure restores the grid, and no candidate leads to a solution |
| Solver.SudokuSolver.BranchOnFirstEmpty | src/SudokuSolver.ts:61-98 | branches on the first empty cell with the list the pass computed; on failure the empty-on-entry cells are cleared and the input is unsolvable |
| Solver.SudokuSolver.Solve | src/SudokuSolver.ts:14-107 | success: solved and every value held on entry kept; failure: grid as on entry and no solution exists; invalid input fails; solved input returned unchanged; lists of filled cells untouched |

## Left out

- The `store.dispatch(setSudoku(cloneDeep(...)))` progress snapshots and the `setTimeout` pause (src/SudokuSolver.ts:15-16, 53, 88): they are UI side effects and async scheduling, and the model is synchronous.
- `sudokuPrettyPrint` (src/SudokuSolver.ts:212-280): unused debug formatting.
- src/SudokuSolver.tsx, the rendering in src/Sudoku.tsx, the reducer and the store wiring: they are not part of the solving core, and the draft solver in src/SudokuSolver.tsx is not this model.
- Values outside 0..9: a cell holds an int in 0..9, and `undefined` is written as 0, since both are falsy in the source.
- The `preset` flag: the solver never reads it.
- Solver.SudokuSolver.Solve: the scan's continuation past the first empty cell (the further iterations of src/SudokuSolver.ts:61-101) and the final clear at lines 104-106 are not written as code. The guard at line 97 always fires once the candidates of the first empty cell run out, because `valueSet` is false at every loop exit (proved by the loop invariant in Branch). An empty cell exists after the solved check because the grid is valid and not solved.
- Solver.SudokuSolver.Solve: does not state what the candidate lists of cells empty on entry hold on return, because the source does not restore them.
- Validator.NoRepeats: the model evaluates the duplicate test in recursive form. Validator.SizeTestAgrees proves it equivalent to the set-size comparison the source makes.
- Board.EmptyCellsFrom and Solver.CandidatesBelow: their termination measures include the grid length (always 81) only to keep the verifier from unrolling them on literal arguments. This does not change their values.
