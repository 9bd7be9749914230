# Sudoku CSP solver

This project models the Sudoku solver of `a3/` as a constraint-satisfaction search, and proves properties of the model:

- **`Entry`** is one cell of the 9×9 grid. It holds:
  - the cell's `value` (0 while unassigned);
  - a sorted candidate list `possibilities`;
  - the list `assigned` of values already tried at that cell.
- **`Board`** holds the 81 cells, row by row. It offers:
  - one-hop constraint propagation on assignment (`Update`, `PropogateConstraints`);
  - the approximate repair of candidates on backtrack (`RestoreConstraints`, `Reset`);
  - the minimum-remaining-values choice with a most-constraining tie-break (`MostConstrainedEntry`);
  - the least-constraining-value choice with forward checking (`LeastConstrainingValue`, `ForwardCheck`);
  - the unit checks `IsComplete` and `IsValid`, built on `AllDiff` and `ValidRBC`.
- **`Solve`** is the search loop. It keeps an undo stack `moves` and stops after at most 10000 assignments.

The modules follow the program's structure:

| module | file | what it holds |
|---|---|---|
| `Entries` | entries.dfy | The cell as a datatype, and each `Entry` method as a function from the old cell to the new one. Python's `list.remove`, `sorted` after `append`, and list comprehension are written out. |
| `Geometry` | geometry.dfy | Rows, columns, boxes and neighbour lists, as lists of grid positions (`9 * row + col`). |
| `Grids` | grids.dfy | The grid (`seq<Entry>` of 81 cells) and its invariants: cells sit at their coordinates, and candidates are ascending digits never already tried. |
| `Consistency` | consistency.dfy | `AllDiff`, `ValidRBC`, `IsComplete` and `IsValid`, with their set-based meaning. |
| `Propagation` | propagation.dfy | `Update`/`PropogateConstraints`, `RestoreConstraints`, `Reset` and board construction as functions of the grid, plus their effect on every cell. |
| `Heuristics` | heuristics.dfy | `ForwardCheck`, `LeastConstrainingValue` and `MostConstrainedEntry` as functions of the grid, with what they choose. |
| `SudokuBoard` | board.dfy | The class `Board` over `array<Entry>`. Each method updates cells in place with the source's loops, and is proved to end in the state the matching function describes. |
| `SudokuSolver` | solver.dfy | One pass of `Solve`'s loop as `Step`, the whole loop as `Run`, and the method `Solve` on a `Board`, proved to end as `Run` does. |

Cell coordinates follow the code rather than its comments. The board builds `spaces[r][c]` with `j == r` and `i == c`, and every caller reads the row from `entry.j`. A cell that the solver or the board refers to is named by its grid position. On a well-formed grid, `__eq__` (equal coordinates) holds exactly between a cell and itself (`Grids.SameIsSamePosition`).

A pass of `Solve` can end in `moves.pop()` on an empty stack. That raises an error in the source, and the model has an explicit outcome for it, `EmptyPop`.

## Model

| member | source | states |
|---|---|---|
| Entries.Blank | a3/SudokuObjects.py:12-18 | A fresh unassigned cell offers exactly the digits 1..9, has tried nothing, and satisfies the cell invariant |
| Entries.IndexOf | a3/SudokuObjects.py:27 | The index `list.remove` deletes is the first occurrence of the value |
| Entries.ListRemove | a3/SudokuObjects.py:27 | `list.remove` shortens the list by one |
| Entries.Filter | a3/SudokuObjects.py:50 | The comprehension keeps exactly the elements not excluded, and keeps an ascending list ascending |
| Entries.InsertSorted | a3/SudokuObjects.py:44-45 | Appending then sorting adds exactly the one value (as a multiset) |
| Entries.InsertSortedAscending | a3/SudokuObjects.py:44-45 | On an ascending list without the value, the insertion stays strictly ascending |
| Entries.WithoutMembers | a3/SudokuObjects.py:25-27 | Dropping a value keeps exactly the other elements, in their order, and keeps ascending lists ascending |
| Entries.ListRemoveIsWithout | a3/SudokuObjects.py:27 | On an ascending list, `list.remove` drops exactly that value and keeps the rest in order |
| Entries.WithoutNotIn | a3/SudokuObjects.py:26-27 | Removing an absent value leaves the list unchanged |
| Entries.ListRemoveAscending | a3/SudokuObjects.py:25-27 | `list.remove` on the candidate list keeps it ascending and drops exactly the value |
| Entries.Remove | a3/SudokuObjects.py:25-27 | Only the candidates change; an absent value changes nothing; a present value is dropped with the order of the rest kept; the cell invariant is kept |
| Entries.Reset | a3/SudokuObjects.py:30-32 | The candidates become the given list and the tried list is emptied; value and coordinates are kept |
| Entries.Update | a3/SudokuObjects.py:35-39 | A non-zero value is assigned, candidates are emptied and the value is appended to the tried list; 0 changes nothing; the invariant is kept |
| Entries.AddPossibility | a3/SudokuObjects.py:42-45 | A value already offered or already tried changes nothing; otherwise the candidates gain exactly that value; the invariant is kept |
| Entries.Restore | a3/SudokuObjects.py:48-50 | The cell becomes unassigned and offers exactly the given values not tried there; the tried list is kept |
| Entries.RemoveIdempotent | a3/SudokuObjects.py:25-27 | Removing a value twice is removing it once |
| Entries.TriedValueNotReoffered | a3/SudokuObjects.py:41-50 | A value tried at a cell is re-offered neither by `AddPossibility` nor by `Restore` |
| Geometry.FindRow | a3/SudokuObjects.py:91-92 | A row is nine positions on the board |
| Geometry.FindColumn | a3/SudokuObjects.py:94-95 | A column is nine positions on the board |
| Geometry.BoxFrom | a3/SudokuObjects.py:80-89 | A box is nine positions on the board |
| Geometry.FindBoxFrom | a3/SudokuObjects.py:97-105 | The box search returns nine positions on the board |
| Geometry.FindBox | a3/SudokuObjects.py:97-105 | `FindBox` returns nine positions on the board |
| Geometry.FindNeighbours | a3/SudokuObjects.py:110-114 | The neighbour list is row, then column, then box: 27 positions with repeats, the cell itself included |
| Geometry.Units | a3/SudokuObjects.py:74-89 | The 27 units, each nine positions on the board |
| Geometry.FindBoxIsBoxOf | a3/SudokuObjects.py:97-105 | `FindBox(r, c)` is the box whose corner is `(r - r % 3, c - c % 3)` |
| Geometry.RowMembers | a3/SudokuObjects.py:91-92 | `FindRow(i, _)` holds exactly the positions of row `i` |
| Geometry.ColumnMembers | a3/SudokuObjects.py:94-95 | `FindColumn(_, j)` holds exactly the positions of column `j` |
| Geometry.BoxMembers | a3/SudokuObjects.py:80-89 | The box from a corner holds exactly the positions in that 3×3 block |
| Geometry.BoxOfMembers | a3/SudokuObjects.py:97-105 | `FindBox(r, c)` holds exactly the positions in the block of `(r, c)` |
| Geometry.NeighbourMembers | a3/SudokuObjects.py:110-114 | A position is a neighbour of a cell iff it shares a row, column or box with it |
| Grids.PlacedCell | a3/SudokuObjects.py:71 | Every cell of a placed grid has in-range coordinates that lead back to its slot |
| Grids.SameIsSamePosition | a3/SudokuObjects.py:55-56 | `__eq__` on coordinates holds exactly between a cell and itself |
| Consistency.NoRepeatIff | a3/SudokuObjects.py:306-308 | The `found` scan of `AllDiff` succeeds iff the list has no repeat and meets nothing already found |
| Consistency.AllDiffIff | a3/SudokuObjects.py:306-308 | `AllDiff` holds iff the list has no repeat and its elements are exactly 1..9 |
| Consistency.ValidFromIff | a3/SudokuObjects.py:311-319 | The `ValidRBC` scan succeeds iff no non-zero value repeats and none was found before |
| Consistency.IsCompleteIff | a3/SudokuObjects.py:240-253 | `IsComplete` holds iff every row, column and box holds each of 1..9 exactly once (a unit's values are read by `Grids.Values`, the comprehension `[i.value for i in row]` at lines 242, 246, 250) |
| Consistency.IsValidIff | a3/SudokuObjects.py:255-277 | `IsValid` holds iff no unit repeats a non-zero value and no unassigned cell is without candidates (unit values through `Grids.Values`) |
| Consistency.CompleteIsValid | a3/SudokuObjects.py:240-277 | A complete board is valid |
| Consistency.DigitsCovered | a3/SudokuObjects.py:306-308 | Nine distinct digits from 1..9 are all of 1..9, so a unit holding digits without repeats passes `AllDiff` |
| Propagation.RemoveFrom | a3/SudokuObjects.py:210-211 | The propagation loop changes only candidates and keeps the board invariant |
| Propagation.UpdateGrid | a3/SudokuObjects.py:124-126 | `Board.Update` keeps every cell at its coordinates and keeps the board invariant |
| Propagation.RemoveFromEffect | a3/SudokuObjects.py:207-211 | After the loop over the listed cells, each listed cell has the value removed and every other cell is unchanged |
| Propagation.PropagateEffect | a3/SudokuObjects.py:207-211 | `PropogateConstraints` removes the cell's value from exactly the cells sharing a unit with it |
| Propagation.PropagateAt | a3/SudokuObjects.py:207-211 | The same, for one cell |
| Propagation.UpdateEffect | a3/SudokuObjects.py:124-126 | `Board.Update(r, c, v)` with v ≠ 0 assigns the cell, removes `v` from every cell in its row, column and box, and changes no other cell |
| Propagation.UpdateZeroOnBlank | a3/SudokuObjects.py:124-126 | Updating an unassigned cell with 0 changes nothing |
| Propagation.UpdateIgnoresOwnCandidates | a3/SudokuObjects.py:124-126 | The board after `Update` does not depend on the candidates the updated cell had |
| Propagation.HeldNearbyIff | a3/SudokuObjects.py:230-235 | The inner `inNeighbour` loop finds the value iff some cell other than the restored one, sharing a unit with the square, holds it |
| Propagation.HeldNearbyOnValues | a3/SudokuObjects.py:230-235 | That test reads only the cells' values |
| Propagation.RestoreFrom | a3/SudokuObjects.py:221-236 | The neighbour loop of `RestoreConstraints` changes no value or tried list, leaves the restored cell alone, and yields ascending digits |
| Propagation.RestoreGrid | a3/SudokuObjects.py:216-237 | `RestoreConstraints` keeps the board invariant |
| Propagation.RestoreStepGrid | a3/SudokuObjects.py:221-236 | One pass of the neighbour loop extends what the loop has re-offered so far |
| Propagation.RestoreStepCandidates | a3/SudokuObjects.py:221-226 | One pass of the neighbour loop strikes out exactly the values that neighbour holds |
| Propagation.RestoreFromEffect | a3/SudokuObjects.py:221-236 | Over the whole neighbour list, the loop re-offers and strikes out as stated for each neighbour |
| Propagation.NeighbourValues | a3/SudokuObjects.py:110-114 | A non-self entry of the neighbour list holds `x` iff a peer of the cell holds `x` |
| Propagation.RestoreEffect | a3/SudokuObjects.py:216-237 | After `RestoreConstraints`, the cell is unassigned with its tried list kept and offers exactly the digits other than its old value, not tried and held by no peer; a peer gains the old value back exactly when it is unassigned, has neither offered nor tried it, and no other peer of its own holds it; every other cell is unchanged |
| Propagation.RestoreAllKept | a3/SudokuObjects.py:216-237 | The restored cell gets the candidates the loop collected |
| Propagation.RestoreAllGrid | a3/SudokuObjects.py:221-236 | Every other cell ends as the neighbour loop left it |
| Propagation.RestoreOwnCell | a3/SudokuObjects.py:216-237 | The restored cell's part of `RestoreEffect` |
| Propagation.RestoreOthers | a3/SudokuObjects.py:221-236 | The other cells' part of `RestoreEffect` |
| Propagation.RestoredAt | a3/SudokuObjects.py:227-236 | One other cell's part of `RestoreEffect` |
| Propagation.ResetFrom | a3/SudokuObjects.py:135-137 | The loop of `Reset` keeps the candidate list ascending digits |
| Propagation.ResetStart | a3/SudokuObjects.py:131-133 | `Reset` starts from every digit except the cell's own value |
| Propagation.ResetGrid | a3/SudokuObjects.py:129-139 | `Reset` keeps the board invariant |
| Propagation.ResetFromMembers | a3/SudokuObjects.py:135-137 | The loop keeps exactly the starting values held by no listed cell other than the reset one |
| Propagation.ResetEffect | a3/SudokuObjects.py:129-139 | `Reset` keeps the cell's value, empties its tried list, offers exactly the digits other than its value held by no peer, and changes no other cell |
| Propagation.InitialGrid | a3/SudokuObjects.py:67-71 | A new board has a blank cell at every position, and is well formed and settled |
| Propagation.ConstructTo | a3/SudokuObjects.py:298-302 | Construction keeps the board well formed |
| Propagation.ConstructStep | a3/SudokuObjects.py:300-302 | One `Update` of construction extends what the cells built so far satisfy |
| Propagation.InitialBuilt | a3/SudokuObjects.py:296 | A new board satisfies that for no cell built yet |
| Propagation.ConstructToEffect | a3/SudokuObjects.py:298-302 | After the first `t` updates, the first `t` cells are built as stated |
| Propagation.BuiltCells | a3/SudokuObjects.py:298-302 | A fully built board is settled, holds the given values, and offers each blank cell exactly the digits no peer was given |
| Propagation.ConstructGivens | a3/SudokuObjects.py:295-303 | `ConstructBoard` holds the given values, has tried each given, tried nothing at blanks, and offers a blank cell exactly the digits no peer was given |
| Heuristics.ForwardCheckMeaning | a3/SudokuObjects.py:279-287 | Forward checking accepts v ≠ 0 iff, once v is placed, no unit repeats a non-zero value and no other unassigned cell is left without candidates |
| Heuristics.CountHolding | a3/SudokuObjects.py:154-157 | The count never exceeds the number of listed cells |
| Heuristics.CountHoldingIgnoresOwn | a3/SudokuObjects.py:154-157 | The count does not read the candidates of the cell being valued |
| Heuristics.LCVFrom | a3/SudokuObjects.py:149-161 | The loop leaves an ascending sub-list of the candidates |
| Heuristics.LCV | a3/SudokuObjects.py:143-163 | `LeastConstrainingValue` keeps the board invariant (what it changes and returns: `Heuristics.LCVEffect`) |
| Heuristics.ForwardCheckIgnoresOwnCandidates | a3/SudokuObjects.py:279-287 | Forward checking does not read the candidates of the checked cell, so pruning them mid-loop does not change later checks |
| Heuristics.LCVFromDrops | a3/SudokuObjects.py:149-152 | A candidate the loop drops failed forward checking |
| Heuristics.LCVFromDropsDropped | a3/SudokuObjects.py:149-152 | The same, after a failing candidate |
| Heuristics.LCVFromPrefix | a3/SudokuObjects.py:149-152 | The loop never touches the candidates before its iteration index |
| Heuristics.LCVFromPrefixDropped | a3/SudokuObjects.py:149-152 | The same, after a failing candidate |
| Heuristics.LCVFromResult | a3/SudokuObjects.py:149-161 | The loop returns its starting choice, or a candidate at or after its index that passes forward checking |
| Heuristics.LCVFromResultDropped | a3/SudokuObjects.py:149-152 | The same, after a failing candidate |
| Heuristics.LCVFromResultWeighed | a3/SudokuObjects.py:154-161 | The same, after a passing candidate |
| Heuristics.LCVEffect | a3/SudokuObjects.py:143-163 | Other cells are untouched; only failing candidates are dropped; a returned value is a remaining candidate that passes forward checking (the passing candidates are the set `Heuristics.Accepted`, taken on the board before the loop) |
| Heuristics.LCVSkipsSecond | a3/SudokuObjects.py:149-152 | When the first candidate fails, the second is skipped: it stays a candidate but is not returned |
| Heuristics.FirstLeast | a3/SudokuObjects.py:159-161 | It picks the first candidate with the strictly least count |
| Heuristics.LCVAllPassFrom | a3/SudokuObjects.py:149-161 | With every candidate passing, the loop keeps the list and returns the first least-count candidate |
| Heuristics.LCVAllPassTaken | a3/SudokuObjects.py:159-161 | The same, when the current candidate beats the best so far |
| Heuristics.LCVAllPassPassed | a3/SudokuObjects.py:159-161 | The same, when it does not |
| Heuristics.LCVAllPass | a3/SudokuObjects.py:143-163 | With every candidate passing, nothing is pruned, and the result is the first candidate offered by the fewest other listed neighbours (repeats counted); `None` only without candidates |
| Heuristics.LCVFromLeast | a3/SudokuObjects.py:149-161 | From any index, the loop ends with the first candidate of least count, below the best count so far, among the candidates it looks at (`Heuristics.Visited`) that pass forward checking; when none is below, it keeps the best so far |
| Heuristics.LCVNothing | a3/SudokuObjects.py:143-163 | Whichever candidates fail, `LeastConstrainingValue` returns nothing iff no candidate it looks at passes forward checking. It looks at the first candidate, then at each next one unless it dropped the one before (`Heuristics.Visited`) |
| Heuristics.LCVLeast | a3/SudokuObjects.py:143-163 | A returned value is a candidate the loop looks at. Its count (`Heuristics.Offers`) is at most that of every looked-at candidate passing forward checking, and strictly below that of each such candidate before it |
| Heuristics.UnassignedCount | a3/SudokuObjects.py:193-196 | The count never exceeds the number of listed cells |
| Heuristics.UnassignedNeighbours | a3/SudokuObjects.py:191-196 | A cell's tie-break score is at most 27 |
| Heuristics.ScanFrom | a3/SudokuObjects.py:170-177 | The first scan returns a position on the board |
| Heuristics.TiesFrom | a3/SudokuObjects.py:179-184 | The ties list only grows, by appending positions |
| Heuristics.TieBreakFrom | a3/SudokuObjects.py:187-201 | The tie-break returns a position on the board |
| Heuristics.MostConstrained | a3/SudokuObjects.py:169-203 | `MostConstrainedEntry` returns a position on the board |
| Heuristics.ScanStarving | a3/SudokuObjects.py:170-175 | The scan stops early iff some unassigned cell has no candidates, and then at the first such cell |
| Heuristics.ScanSmallest | a3/SudokuObjects.py:170-177 | Without such a cell, the scan ends on the first cell with the fewest non-zero candidates |
| Heuristics.TiesMembers | a3/SudokuObjects.py:179-184 | The ties list holds exactly the start and the cells tied on that candidate count |
| Heuristics.TiesOrder | a3/SudokuObjects.py:179-184 | The ties list is the scan's cell followed by the other tied cells in row-major order |
| Heuristics.TieBreakBest | a3/SudokuObjects.py:187-201 | Because of `>=`, the tie-break keeps a cell with the maximal score, and no later listed cell has that score |
| Heuristics.MostConstrainedStarved | a3/SudokuObjects.py:170-175 | When some unassigned cell has no candidates, the result is the first such cell in row-major order |
| Heuristics.MostConstrainedTies | a3/SudokuObjects.py:170-184 | Otherwise the ties list starts with the scan's cell, and holds exactly the cells with its candidate count |
| Heuristics.MostConstrainedSmallest | a3/SudokuObjects.py:169-203 | Otherwise, if any cell has candidates, the result has the fewest, and among those it has the most unassigned neighbours |
| Heuristics.MostConstrainedLast | a3/SudokuObjects.py:179-201 | Every tied cell after the result in the ties list has strictly fewer unassigned neighbours: the last maximum wins |
| Heuristics.TieBreakLast | a3/SudokuObjects.py:187-201 | The same on the ties list itself |
| Heuristics.TieBreakMost | a3/SudokuObjects.py:187-201 | The tie-break picks a tied cell with the most unassigned neighbours, and later tied cells have fewer (the scores are listed by `Heuristics.Scores`) |
| Heuristics.MostConstrainedAllEmpty | a3/SudokuObjects.py:170-177 | With no candidates anywhere and no starved cell, the result is the last cell |
| SudokuBoard.ValidRBC | a3/SudokuObjects.py:311-319 | `ValidRBC` returns true iff no non-zero value occurs twice |
| SudokuBoard.Board.constructor | a3/SudokuObjects.py:67-71 | A new board is the blank grid |
| SudokuBoard.Board.Copy | a3/SudokuObjects.py:280 | A deep copy has fresh cells equal to the original's |
| SudokuBoard.Board.Remove | a3/SudokuObjects.py:117-118 | Exactly the one cell has the value removed |
| SudokuBoard.Board.Update | a3/SudokuObjects.py:124-126 | The board ends as `UpdateGrid` says (see `Propagation.UpdateEffect`) |
| SudokuBoard.Board.PropogateConstraints | a3/SudokuObjects.py:207-211 | The board ends as `Propagate` says (see `Propagation.PropagateEffect`) |
| SudokuBoard.Board.Restore | a3/SudokuObjects.py:120-121 | The board ends as `RestoreConstraints` leaves it |
| SudokuBoard.Board.InNeighbour | a3/SudokuObjects.py:230-235 | The inner loop's flag is the `HeldNearby` test (see `Propagation.HeldNearbyIff`) |
| SudokuBoard.Board.RestoreNeighbour | a3/SudokuObjects.py:222-236 | One pass of the neighbour loop ends as `RestoreStep` says |
| SudokuBoard.Board.RestoreConstraints | a3/SudokuObjects.py:216-237 | The board ends as `RestoreGrid` says (see `Propagation.RestoreEffect`) |
| SudokuBoard.Board.Reset | a3/SudokuObjects.py:129-139 | The board ends as `ResetGrid` says (see `Propagation.ResetEffect`) |
| SudokuBoard.Board.IsComplete | a3/SudokuObjects.py:240-253 | The result is the `IsComplete` predicate (see `Consistency.IsCompleteIff`) |
| SudokuBoard.Board.IsValid | a3/SudokuObjects.py:255-277 | The result is the `IsValid` predicate (see `Consistency.IsValidIff`) |
| SudokuBoard.Board.ForwardCheck | a3/SudokuObjects.py:279-287 | The result is forward checking on a copy, and the live board is untouched (see `Heuristics.ForwardCheckMeaning`) |
| SudokuBoard.Board.CountOffering | a3/SudokuObjects.py:154-157 | The count is `CountHolding` over the whole neighbour list |
| SudokuBoard.Board.Weigh | a3/SudokuObjects.py:159-161 | The best choice is replaced exactly when the count is strictly lower |
| SudokuBoard.Board.FilterCandidate | a3/SudokuObjects.py:150-152 | A candidate that fails forward checking is removed from the live list, and only then |
| SudokuBoard.Board.LCVPass | a3/SudokuObjects.py:149-161 | One pass of the loop keeps the loop's remaining result unchanged |
| SudokuBoard.Board.LeastConstrainingValue | a3/SudokuObjects.py:143-163 | The board and the result are as `LCV` says (see `Heuristics.LCVEffect`, `Heuristics.LCVAllPass`) |
| SudokuBoard.Board.CountUnassigned | a3/SudokuObjects.py:191-196 | The count is the cell's tie-break score |
| SudokuBoard.Board.MostConstrainedEntry | a3/SudokuObjects.py:169-203 | The result is `MostConstrained` (see `Heuristics.MostConstrainedStarved`, `Heuristics.MostConstrainedSmallest`, `Heuristics.MostConstrainedLast`) |
| SudokuBoard.ConstructRow | a3/SudokuObjects.py:300-302 | One row of construction ends as `ConstructTo` says |
| SudokuBoard.ConstructBoard | a3/SudokuObjects.py:295-303 | The new board is `Construct` of the 81 values (see `Propagation.ConstructGivens`) |
| SudokuSolver.Backtrack | a3/SudokuSolver.py:32-38 | Backtracking fails (`EmptyPop`, board unchanged) iff the stack is empty; otherwise it pops exactly the latest move and keeps the count |
| SudokuSolver.Step | a3/SudokuSolver.py:17-54 | A pass that leaves the loop leaves a well-formed board |
| SudokuSolver.Run | a3/SudokuSolver.py:17-56 | The loop always ends, on a well-formed board |
| SudokuSolver.BacktrackInv | a3/SudokuSolver.py:32-38 | Backtracking keeps the loop invariant |
| SudokuSolver.PopGrid | a3/SudokuSolver.py:34-37 | Restoring and maybe resetting the popped cell unassigns it, keeps the board well formed and settled, and keeps every other assigned cell |
| SudokuSolver.LCVInv | a3/SudokuSolver.py:42 | Choosing a value keeps the loop invariant |
| SudokuSolver.AssignInv | a3/SudokuSolver.py:50-54 | Assigning a candidate keeps the loop invariant |
| SudokuSolver.StepInv | a3/SudokuSolver.py:17-54 | Each pass keeps the invariant (stack of distinct assigned cells, no longer than the count, count at most 10000), and either pushes one move and counts one assignment, or pops one move |
| SudokuSolver.RunBounds | a3/SudokuSolver.py:17-56 | A returned count lies between the starting count and 10000 |
| SudokuSolver.RunSolves | a3/SudokuSolver.py:17-56 | A returned count below 10000 means the board is complete and valid |
| SudokuSolver.StepReturns | a3/SudokuSolver.py:19-30 | A pass returns either the current count on a complete board, or exactly 10000 (give up) |
| SudokuSolver.RunComplete | a3/SudokuSolver.py:17-22 | An already complete board gives 0 and is left untouched |
| SudokuSolver.StepKeepsGivens | a3/SudokuSolver.py:26-54 | An assigned cell not on the stack keeps its value through a pass, and is not pushed |
| SudokuSolver.AssignKeeps | a3/SudokuSolver.py:50-54 | Assigning another cell keeps such a cell's value |
| SudokuSolver.BacktrackKeeps | a3/SudokuSolver.py:32-38 | Backtracking keeps such a cell's value |
| SudokuSolver.RunKeepsGivens | a3/SudokuSolver.py:17-56 | The given cells keep their values to the end |
| SudokuSolver.AssignValid | a3/SudokuSolver.py:42-54 | After every assignment the board satisfies `IsValid` |
| SudokuSolver.AssignPassed | a3/SudokuSolver.py:50-52 | Assigning a value that passed forward checking before pruning gives a valid board |
| SudokuSolver.BacktrackLIFO | a3/SudokuSolver.py:32-38 | Backtracking pops the latest move and unassigns that cell; every other cell keeps its value; cells outside its units are untouched |
| SudokuSolver.BacktrackCandidates | a3/SudokuSolver.py:32-38 | The popped cell is reset (tried list emptied, every digit no peer holds) exactly when the chosen cell still has no candidates after the restore; otherwise it is restored |
| SudokuSolver.PeerHoldsOnValues | a3/SudokuSolver.py:34-37 | Whether a peer holds a value depends only on the other cells' values |
| SudokuSolver.RepeatedGivenCrashes | a3/SudokuSolver.py:32-48 | A board whose givens repeat a value in some unit fails on its first pass with `EmptyPop` |
| SudokuSolver.RepeatBlocksForwardCheck | a3/SudokuSolver.py:42-48 | On such a board no value passes forward checking |
| SudokuSolver.FilledComplete | a3/SudokuObjects.py:240-253 | A board whose cells all hold digits, with no digit repeated in a shared row, column or box, is complete |
| SudokuSolver.BlankNotComplete | a3/SudokuObjects.py:240-253 | A board with an unassigned cell is not complete |
| SudokuSolver.RowHolds | a3/SudokuObjects.py:240-243 | Each row of a complete board holds every digit |
| SudokuSolver.OneBlankFilled | a3/SudokuObjects.py:124-126 | On a puzzle with one empty cell and no repeats, assigning the digit no peer holds gives a well-formed complete board holding the puzzle's numbers and that digit |
| SudokuSolver.OneBlankCandidates | a3/SudokuObjects.py:295-303 | On such a puzzle, `ConstructBoard` leaves the empty cell offering exactly that digit |
| SudokuSolver.OneBlankBoard | a3/SudokuObjects.py:295-303 | The board built from such a puzzle is well formed and settled, is not complete, and its only empty cell offers exactly that digit |
| SudokuSolver.OnlyCellWithCandidates | a3/SudokuObjects.py:169-203 | When every other cell is assigned without candidates, `MostConstrainedEntry` picks the one cell with candidates |
| SudokuSolver.LCVOnlyCandidate | a3/SudokuObjects.py:143-163 | When a cell's only candidate passes forward checking, `LeastConstrainingValue` prunes nothing and returns it |
| SudokuSolver.AssignAt | a3/SudokuSolver.py:52-54 | An assignment from an empty stack updates the cell at its row and column, pushes it, and counts 1 |
| SudokuSolver.AssignOnlyCandidate | a3/SudokuSolver.py:17-54 | On such a board, the first pass assigns the empty cell its only candidate |
| SudokuSolver.OneBlankSolves | a3/SudokuSolver.py:13-56 | `Solve` on the board `ConstructBoard` builds from a puzzle with one empty cell and no repeats returns 1. It leaves a complete board holding the puzzle's numbers, with the empty cell holding the one digit no peer holds |
| SudokuSolver.Backup | a3/SudokuSolver.py:32-38 | The board and stack end as `Backtrack` says |
| SudokuSolver.Pass | a3/SudokuSolver.py:17-54 | One pass on the board ends as `Step` says |
| SudokuSolver.TryValue | a3/SudokuSolver.py:40-54 | The part of a pass that chooses a value, and assigns it or backtracks, ends as `Step` says |
| SudokuSolver.Solve | a3/SudokuSolver.py:13-56 | The outcome and final board are those of `Run` from the given board with an empty stack and no assignments (see `RunBounds`, `RunSolves`, `RunComplete`, `RunKeepsGivens`) |

## Left out

- File reading and token splitting in `ConstructBoard`, the `sudoku` driver, `runner.py`, the `print` calls and `__repr__`. These are I/O and formatting. The model's `ConstructBoard` takes the 81 integers in row-major order.
- `copy.deepcopy` in `ForwardCheck`: cells are values, so checking works on the grid value and the live board is not touched.
- The identity of `Entry` objects: the solver's `entry` and the cells on `moves` are grid positions. A cell's later state is read from its slot, as the live object would be.
- The `Board(other)` constructor that aliases `spaces`, and the `Entry(value != 0)` constructor branch. Neither is used by the solver.
- `Entry.__contains__` and `Entry.__ne__` are not members of their own. The solver reads `entry.possibilities` directly, and `!=` between cells is the negation of `Entries.Same`.
- `Rows`, `Columns`, `Boxes`, `FindRow`, `FindColumn` and `FindBox` return lists of positions rather than lists of cells. `FindEntry(r, c)` is not a member of its own: a cell is read by indexing the grid at `9 * r + c`. `Units` lists rows, then columns, then boxes, in the order the board visits them.
- SudokuSolver.Solve: requires a settled, well-formed board, meaning every assigned cell offers no candidates. `Propagation.ConstructGivens` proves that every board `ConstructBoard` builds is like that.
- SudokuBoard.Board.RestoreConstraints: the source's `possibilities.remove(entry.value)` raises `ValueError` when the cell is unassigned. The model makes "the cell holds a digit" a precondition, and the solver's invariant proves it for every popped move.
- Repeated givens: one can expect a puzzle whose givens repeat a value to end as exhausted. The code instead calls `moves.pop()` on an empty stack, because the give-up test needs `assignments > 0`. The model follows the code, with outcome `EmptyPop` (`SudokuSolver.RepeatedGivenCrashes`).
- SudokuSolver.Solve: the source returns an integer, or raises on an empty pop. The model returns an `Outcome`: `Returned(count)` or `EmptyPop`.
- Forward checks inside `LeastConstrainingValue` are taken against the board as it was before the loop. This does not weaken the model: pruning only touches the cell's own candidates, which forward checking does not read (`Heuristics.ForwardCheckIgnoresOwnCandidates`).
