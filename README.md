# Sudoku solver by constraint propagation and backtracking

This project models the core of a small Python Sudoku solver and proves properties of it in Dafny.

The solver keeps a board of 81 cells. Each cell holds:

- a committed value, where 0 means unset;
- the set of values it still allows;
- a speculative "tryout" value.

Propagation (`process_allowed_values`) sweeps the board in row-major order. At each cell it forbids the values committed in the cell's row, then its column, then its square. A cell left with one allowed value commits it. A cell left with none raises `NoValidSolutions`. The sweep repeats while it commits something new.

The search (`try_variants` in `main.py`) works as follows:

- It propagates.
- If no cell is unset, it returns the board.
- Otherwise it takes the first unset cell. For each allowed value of that cell, it copies the board, sets the value on the copy and recurses.
- A branch that raises `NoValidSolutions` moves the search on to the next value.

## How the model is laid out

- `Cells` (cells.dfy) covers the cell.
  - `CellState` is a cell's three fields as a value.
  - `Assign`, `Forbid` and `ForbidEach` are what `set_value` and `forbid_values` do to such a value.
  - `class Cell` has the three fields and the methods that update them in place. Each method is proved equal to the value-level function.
- `Groups` (groups.dfy) covers the board's geometry.
  - It has the coordinates and the row-major order of the cell dictionary.
  - It has the rows, columns and squares as coordinate lists, built the way the `Row`, `Column` and `Square` constructors build their tuples.
  - It proves which cells are peers, meaning cells that share a group.
- `Grids` (grids.dfy) covers a board as a value, `map<Coord, CellState>`.
  - It defines what a solution is, and when a board change loses no solution (`Preserves`).
  - It defines the fixpoint propagation aims at (`Settled`), and proves that a sweep over a settled board changes nothing.
  - It proves what one visit of a cell in a sweep does.
- `Copies` (copies.dfy) covers `Sudoku.copy` as a function on board values, with its properties.
- `Tryouts` (tryouts.dfy) covers the group checks `is_valid` and `is_tryout_valid` and the three tryout operations. It proves that a board passes the group checks exactly when its numbers form a solution.
- `Board` (sudoku.dfy) covers `class Sudoku`.
  - The class holds a constant map from coordinates to distinct `Cell` objects. The cells change in place and the dictionary never does.
  - Every method states its effect through `State()`, the board's value, in terms of the functions above.
  - The constructor establishes `Valid()` and every method keeps it. `Valid()` says the board is well formed and every committed value equals its tryout value.
- `Search` (search.dfy) covers `try_variants` and the driver's `try_variants(sdk.copy())`. Both are methods that recurse over real `Sudoku` objects.

Python exceptions become values:

- `Result<T>` and `Outcome` carry a `Failure`.
- `ValueNotAllowed` is the `ValueError` of `set_value`.
- `BadTryoutValues` is the `ValueError` of the tryout projection.
- `NoValidSolutions` is `Sudoku.NoValidSolutions`.

Each operation returns at the point where the source raises. Every `Err` produced by propagation, copying or search is proved to mean that no solution extends the board.

In a sweep, each `forbid_values` call reads its group's values from the board as the previous call left it. Only the visited cell changes during a visit, and `forbid_values` never removes a cell's own value. So the three calls can be specified by the values of the *other* members of each group, taken before the visit (`Grids.Visit`). `Grids.FreshStep` proves that the fresh reads the code performs give the same result.

## Model

| member | source | states |
|---|---|---|
| Cells.Cell.constructor | sudoku.py:4-8 | a new cell is unset, allows 1..9 and has tryout value 0 |
| Cells.Assign | sudoku.py:16-20 | an explicit value is accepted exactly when it is 0 or allowed; on acceptance value and tryout both become it and the allowed set is unchanged, otherwise ValueError |
| Cells.Cell.SetValue | sudoku.py:13-20 | the cell's new fields and the outcome are those of `Assign`; a rejected value leaves the cell unchanged |
| Cells.Cell.CommitTryout | sudoku.py:13-15 | `set_value()` copies the tryout value into the value and changes nothing else |
| Cells.Forbid | sudoku.py:28-41 | the allowed set loses the forbidden values except 0 and the cell's own value; a single survivor is committed with its tryout and the result tells whether the cell was unset; an empty set is exactly the NoValidSolutions case; otherwise nothing else changes |
| Cells.Cell.ForbidValues | sudoku.py:28-41 | the in-place update and the returned flag are exactly `Forbid` of the old state |
| Cells.ForbidShrinks | sudoku.py:29-30 | forbidding only shrinks the allowed set, keeps every unforbidden value, never drops an allowed own value, and ignores 0 |
| Cells.ForbidKeepsCommitted | sudoku.py:28-37 | a consistent committed cell keeps its value, reports no new commit and stays consistent; an unset cell stays unset or commits one of its allowed values |
| Cells.ForbidReportsNewCommit | sudoku.py:31-37 | the call returns True exactly when it turns an unset cell into a committed one |
| Cells.ForbidKeepsCandidate | sudoku.py:28-41 | a legal candidate that is not forbidden survives, the call does not raise, and any value it commits is that candidate |
| Cells.ForbidOwnValue | sudoku.py:29 | also forbidding the cell's own value changes nothing |
| Cells.OwnValueMasksClash | sudoku.py:29-37 | an unset cell left with only 3 commits 3 and reports True; forbidding a peer's 3 on it afterwards removes nothing and raises nothing, so the clash goes unnoticed |
| Cells.ForbidEachSteps | sudoku.py:63-65 | a run of three calls is the three calls in sequence, stopping at the first exception and or-ing the flags |
| Cells.ForbidEachMonotone | sudoku.py:62-65 | a run of calls on one cell only shrinks its allowed set, never unsets it, commits only allowed values, keeps value and tryout in step, keeps a consistent committed value, and raises only NoValidSolutions |
| Cells.ForbidEachProgress | sudoku.py:59-65 | a run reports True exactly when it commits an unset cell; a run that reports False leaves set and unset cells as they were |
| Cells.ForbidEachKeepsCandidate | sudoku.py:62-65 | a legal candidate forbidden by no call survives the run, the run does not raise, and any committed value is that candidate |
| Cells.ForbidEachQuiet | sudoku.py:62-65 | a quiet run on a consistent cell keeps its value, leaves none of the forbidden values (other than its own) allowed, and leaves an unset cell at least two candidates |
| Cells.ForbidSettled | sudoku.py:28-41 | the converse of `ForbidEachQuiet` for one call: on a consistent cell that allows none of the forbidden values but its own, and keeps two candidates while unset, `forbid_values` changes nothing and returns False |
| Cells.ForbidEachSettled | sudoku.py:62-65 | the same for a whole run of calls: the cell is unchanged and the run reports no new commit |
| Groups.RowMajorEnumerates | sudoku.py:49-52 | the insertion order lists each of the 81 cells exactly once |
| Groups.Row | sudoku.py:171-178 | row n is nine distinct cells, exactly those with row number n |
| Groups.Column | sudoku.py:180-187 | column n is nine distinct cells, exactly those with column number n |
| Groups.Square | sudoku.py:189-198 | square (sr, sc) is nine distinct cells, exactly those of the sr-th band and sc-th stack |
| Groups.SquareOf | sudoku.py:76-79 | the square of cell (r, c) contains it and exactly the cells of its 3x3 block |
| Groups.GroupAt | sudoku.py:53-56 | each of the 27 groups, in the chained order rows, columns, squares, is nine distinct cells |
| Groups.CellGroups | sudoku.py:53-55 | a cell lies in its own row, column and square and in no other row, column or square |
| Groups.PeersAreGroupMates | sudoku.py:63-65 | the cells whose values a visit reads are exactly the cell itself and its peers |
| Grids.FreshGrid | sudoku.py:47-52 | a new board has all 81 cells fresh, well formed, consistent and in range |
| Grids.NonZeroValuesSpec | sudoku.py:137-138 | `NonZeroValues` models `get_non_zero_values_set`; the set excludes 0 and holds exactly the values committed on the group's members |
| Grids.NonZeroValuesFrame | sudoku.py:137-138 | the set depends only on the members' values |
| Grids.AssignAt | sudoku.py:81-82 | setting an allowed digit on a cell (equal to its value if it has one) narrows the board, removes the cell from the unset cells, and keeps every solution with that digit there |
| Grids.SettledExcludesPeerValues | sudoku.py:58-65 | on the fixpoint no cell allows a value committed on a peer, unless it is the cell's own value |
| Grids.PeerValueForbidden | sudoku.py:63-65 | a value committed on a peer is among the values a visit of the cell forbids |
| Grids.ForbidAtMonotone | sudoku.py:28-41 | one call on the board changes only that cell, never unsets it, and only shrinks its allowed set |
| Grids.ForbidAtWellFormed | sudoku.py:28-41 | one call keeps the board well formed |
| Grids.VisitGroup | sudoku.py:63-65 | the k-th group read in a visit contains the cell, and its other members are peers |
| Grids.OtherValuesSpec | sudoku.py:63-65 | the values of a group's other members are the nonzero values committed on them |
| Grids.FreshGroupValues | sudoku.py:63-65 | a group's value set is its other members' values plus the cell's own value |
| Grids.OtherValuesFrame | sudoku.py:63-65 | the other members' values do not depend on the visited cell |
| Grids.FreshReadAgrees | sudoku.py:63-65 | forbidding the group read afresh equals forbidding the other members' values from before the visit |
| Grids.FreshStep | sudoku.py:63-65 | one statement of the sweep, reading afresh mid-visit, yields the visit's specified board and flag |
| Grids.OtherValuesSafe | sudoku.py:63-65 | no solution extending the board puts on the cell a value of another member of its groups |
| Grids.VisitSetsSafe | sudoku.py:63-65 | all three sets a visit forbids are safe for every solution |
| Grids.ForbidEachAtSound | sudoku.py:62-65 | forbidding safe sets loses no solution, and an exception means there was none |
| Grids.ForbidEachAtNarrows | sudoku.py:62-65 | a run of calls on a cell narrows the board, and only at that cell |
| Grids.ForbidEachAtQuiet | sudoku.py:62-65 | a quiet run keeps every value and leaves the cell disjoint from what was forbidden |
| Grids.VisitSound | sudoku.py:62-65 | `Visit` models one iteration of the sweep (three `forbid_values` calls); a visit loses no solution; if it raises, it raises NoValidSolutions and the board had no solution |
| Grids.VisitNarrows | sudoku.py:62-65 | a visit only narrows the board, and only at the visited cell |
| Grids.VisitUnset | sudoku.py:59-65 | a visit that reports True strictly reduces the unset cells, and one that reports False keeps them |
| Grids.VisitQuietSettles | sudoku.py:62-65 | a quiet visit of a consistent cell keeps all values and leaves the cell settled |
| Grids.VisitSettled | sudoku.py:62-65 | conversely, visiting a settled consistent cell leaves the whole board unchanged and reports no new commit |
| Grids.VisitKeepsSettled | sudoku.py:62-65 | a quiet visit keeps every other settled cell settled |
| Grids.SettledByOtherValues | sudoku.py:62-65 | excluding the other members' values from the visit's start makes the cell settled on the final board |
| Grids.GroupExcluded | sudoku.py:62-65 | the same for one group |
| Grids.QuietVisitExtends | sudoku.py:60-65 | in a sweep with no new commit, the cells visited so far stay settled and one more becomes settled |
| Grids.SettledUpToAll | sudoku.py:60-61 | a sweep that settles all 81 cells leaves the board at the fixpoint, where the loop stops |
| Grids.UnsetFrom | sudoku.py:90-91 | lists unset cells at or after a row-major position, strictly in row-major order |
| Grids.UnsetFromComplete | sudoku.py:90-91 | it misses no unset cell at or after that position |
| Grids.UnsetCoordsSpec | sudoku.py:90-91 | `UnsetCoords` models `get_udefined_cells`; it lists exactly the unset cells, once each, and its first entry is the first unset cell in row-major order |
| Copies.CopyCellSpec | sudoku.py:111-114 | copying one cell keeps the allowed set (plus a disallowed own value) and the committed value, commits a lone candidate, resets the tryout, raises ValueError for a value outside 0..9 and NoValidSolutions for an unset cell with nothing allowed, and keeps every legal candidate |
| Copies.CopyCellShape | sudoku.py:111-114 | the shape part of the above |
| Copies.CopyUnsetShape | sudoku.py:111-114 | the same for an unset source cell |
| Copies.CopySetShape | sudoku.py:111-114 | the same for a committed source cell |
| Copies.CopyCellCandidates | sudoku.py:111-114 | a legal candidate of the source cell survives in the copy |
| Copies.CopyCommitted | sudoku.py:112-114 | a copied committed digit stays committed |
| Copies.CopyKeepsCandidates | sudoku.py:112-114 | candidates of the source survive in the copy |
| Copies.CellCopies | sudoku.py:111-114 | there is one copy per cell of the board |
| Copies.CopyFromStep | sudoku.py:111-114 | each loop iteration either stores the cell's copy or stops with its error |
| Copies.CopyFromErr | sudoku.py:111-114 | the first failing cell's error is the copy's error |
| Copies.CopyFromSpec | sudoku.py:110-114 | after k iterations, the copy succeeds exactly when the first k cells' copies do; it then holds them, with fresh cells after them; on failure the error is one of theirs |
| Copies.CopyAllSpec | sudoku.py:109-115 | the whole copy succeeds exactly when every cell's copy does, then holds each cell's copy; otherwise it fails with a failing cell's error |
| Copies.CellCopiesSpec | sudoku.py:111-114 | every cell's copy has the properties of `CopyCellSpec` |
| Copies.CopyShapeFrom | sudoku.py:109-115 | a successful copy keeps committed values, agrees tryouts with values, keeps consistency, and implies values in 0..9 |
| Copies.CopiedShape | sudoku.py:109-115 | the same for a board holding the copied cells |
| Copies.CopyPreservesFrom | sudoku.py:109-115 | the copy loses no solution; a failed copy means there was none, and with values in range it is NoValidSolutions |
| Copies.CopySound | sudoku.py:109-115 | `CopyGrid` models `copy()`; it keeps every solution and committed value, adds no unset cell and resets tryouts; a failure means no solution |
| Copies.CopyFaithfulFrom | sudoku.py:109-115 | on a consistent board, the copy succeeds exactly when no cell is empty; it then has the same allowed sets and values, except that a lone candidate is committed |
| Copies.CopyAllCells | sudoku.py:109-115 | a successful copy holds every cell's copy |
| Copies.CopiedCellsOf | sudoku.py:109-115 | a board made of successful cell copies holds the copied cells |
| Copies.CopiedFaithful | sudoku.py:109-115 | such a board has the original's allowed sets and values (with lone candidates committed) |
| Copies.CopyFaithful | sudoku.py:109-115 | the faithfulness of `copy()` on a consistent board, as in `CopyFaithfulFrom` |
| Copies.CopyKeepsUnsetCandidate | sudoku.py:109-115 | an allowed value of an unset cell stays allowed in the copy, and any value committed there is that value |
| Copies.CopyCandidateFrom | sudoku.py:109-115 | the same, stated for the cell copies |
| Tryouts.IsValidSpec | sudoku.py:156-160 | `IsValid` models `is_valid` (every digit 1..9 occurs and every value lies in 1..9); it holds exactly when the group's values are the set 1..9 |
| Tryouts.IsTryoutValidSpec | sudoku.py:162-166 | `IsTryoutValid` models `is_tryout_valid` (nine distinct tryout values, all in 1..9); it holds exactly when the group's tryout values are the set 1..9 |
| Tryouts.NineDigits | sudoku.py:164-165 | nine numbers within 1..9 as a set are all of 1..9 |
| Tryouts.GroupSetCard | sudoku.py:128-132 | a group's value set has at most as many members as the group has cells, exactly as many when the values are pairwise different, and fewer when two are equal |
| Tryouts.GroupMatesArePeers | sudoku.py:171-198 | two positions of one group are peers |
| Tryouts.PeerShareGroup | sudoku.py:171-198 | every pair of peers shares one of the 27 groups |
| Tryouts.CompleteGroupsSolve | sudoku.py:101-103 | if every group holds 1..9, the assignment is a solution |
| Tryouts.CompletePeersDiffer | sudoku.py:101-103 | if every group holds 1..9, peers differ |
| Tryouts.CompleteGroupDistinct | sudoku.py:162-166 | a group holding 1..9 on nine cells holds each digit once |
| Tryouts.SolutionCompletesGroups | sudoku.py:101-103 | in a solution every group holds 1..9 |
| Tryouts.GroupsCompleteIffSolution | sudoku.py:101-103 | an assignment is a solution exactly when every group holds 1..9 |
| Tryouts.TryoutSolvesSpec | sudoku.py:101-103 | `TryoutSolves` models `check_if_tryout_solves_it` (every group passes `is_tryout_valid`); it holds exactly when the tryout values form a solution |
| Tryouts.AllValidSpec | sudoku.py:156-160 | every group passes `is_valid` exactly when the committed values form a solution |
| Tryouts.SetTryoutsSpec | sudoku.py:98-99 | over distinct cells, the i-th cell gets the i-th tryout and nothing else changes |
| Tryouts.ProjectTryoutsSpec | sudoku.py:93-99 | `ProjectTryouts` models `project_tryout_values_to_undefined_cells`; it fails with ValueError exactly when the list length differs from the number of unset cells; otherwise the i-th unset cell in row-major order gets the i-th value and no value, allowed set or committed cell changes |
| Tryouts.CommitTryoutsSpec | sudoku.py:105-107 | `CommitTryouts` models `set_values_from_tryouts`; it leaves committed cells alone and fills each unset cell with its tryout; the result is a solution with no unset cell exactly when the tryouts solved the board |
| Tryouts.ProjectThenCommit | sudoku.py:93-107 | projecting a list and then committing puts the i-th value on the i-th unset cell and keeps every committed value |
| Board.NewCells | sudoku.py:49-52 | the dictionary has one fresh cell per coordinate, each a distinct object |
| Board.AddRow | sudoku.py:50-52 | one row of fresh, distinct cells is added |
| Board.Sudoku.constructor | sudoku.py:47-56 | a new board is valid and its state is the fresh board |
| Board.Sudoku.ForbidCell | sudoku.py:28-41 | `forbid_values` on one cell changes the board exactly as `ForbidAt` says |
| Board.Sudoku.ForbidGroup | sudoku.py:63-65 | one statement of the sweep, reading its group afresh, changes the board exactly as the visit's specification says |
| Board.Sudoku.VisitCell | sudoku.py:62-65 | the three statements of one sweep step change the board exactly as `Visit` says |
| Board.Sudoku.ProcessAllowedValues | sudoku.py:58-65 | propagation narrows the board and loses no solution; a raise means the board had no solution; a normal return on a consistent board leaves every cell settled; and on a board that is already settled and consistent it returns normally and changes nothing (the fixpoint is idempotent) |
| Board.Sudoku.SetCellValue | sudoku.py:81-82 | the call succeeds exactly when `Assign` accepts the value; success updates exactly that cell, and ValueError leaves the board unchanged |
| Board.Sudoku.GetCellValue | sudoku.py:84-85 | the value is 0 exactly on an unset cell, and a digit on a board in range |
| Board.Sudoku.GetSignature | sudoku.py:87-88 | the signature is the three-digit number whose digits are the first three values of row 1 |
| Board.Sudoku.Copy | sudoku.py:109-115 | the source board is unchanged, and the fresh copy's state or error is exactly `CopyGrid` |
| Board.Sudoku.FillFrom | sudoku.py:111-114 | the copy loop fills the fresh board exactly as `CopyGrid` says, or stops with its error |
| Board.Sudoku.CopyCellFrom | sudoku.py:112-114 | one iteration gives exactly `CopyCell` on that cell and touches no other cell |
| Board.Sudoku.ProjectTryoutValues | sudoku.py:93-99 | the board changes, or fails, exactly as `ProjectTryouts` says |
| Board.Sudoku.WriteTryouts | sudoku.py:98-99 | the loop writes the i-th value into the i-th listed cell's tryout |
| Board.Sudoku.CheckIfTryoutSolvesIt | sudoku.py:101-103 | the check holds exactly when the tryout values form a solution |
| Board.Sudoku.SetValuesFromTryouts | sudoku.py:105-107 | the new state is exactly `CommitTryouts` of the old one |
| Search.BranchSpec | main.py:15-16 | setting the value on the copy succeeds, leaves fewer unset cells and keeps committed values; a branch without solution rules that value out for the cell |
| Search.TryValue | main.py:15-21 | one value tried on a copy leaves the board unchanged; it either finds a fully committed board keeping the committed values, reaches a dead end (no solution has that value there), or re-raises a copy error (no solution at all) |
| Search.TryAll | main.py:14-23 | the loop over allowed values returns the first branch found; exhausting the values means the board had no solution |
| Search.TryVariants | main.py:4-23 | the input board is propagated in place, which only narrows it and keeps its solutions; a raise means the board had no solution, and is NoValidSolutions on a board in range; the input board itself is the result exactly when propagation leaves no cell unset, otherwise the result is a new board; a result has every cell committed and keeps the input's committed values, and on a consistent input it is consistent and settled |
| Search.SolveCopy | main.py:49 | solving a copy leaves the loaded board unchanged, with the same guarantees as `TryVariants` |

## Left out

- Reading `p096_sudoku.txt` and building the boards (main.py:28-45) is not modelled. It is file I/O. The only board operation it uses, `set_cell_value`, is modelled.
- Printing, summing the signatures and writing `output.txt` (main.py:50-63) are not modelled. They are output only. `get_signature` itself is modelled.
- The `__repr__` methods of `Cell`, `Sudoku` and `CellSet` are not modelled. They only render strings.
- `CellSet.get_values` and `CellSet.is_valid_so_far` are not modelled. No operation of the solver calls them.
- `get_values_set` and `get_non_zero_values_set` are modelled as value sets over a group's coordinates (`Tryouts.ValuesSet`, `Grids.NonZeroValues`), not as methods of a group object.
- Grids.NonZeroValuesSpec: only the default branch of `get_non_zero_values_set` (committed values, sudoku.py:137-138) is modelled. The `tryout=True` branch (sudoku.py:135-136), which collects nonzero tryout values, is not, because no operation of the solver calls it: the sweep asks only for committed values (sudoku.py:63-65).
- The `CellSet` objects themselves are not modelled, and neither is their unused back-reference to the board. The rows, columns and squares are coordinate lists read against the board's cell map. Aliasing between a group's tuple and the board's dictionary is therefore by construction.
- `get_cell`, `get_row`, `get_column` and `get_square_of_a_cell` become direct lookups of `cells[(r, c)]` and of `Groups.Row`, `Groups.Column` and `Groups.SquareOf`.
- `Cell.get_value`, `Cell.value_is_set` and `Cell.get_allowed_values` become field reads. Sets are values in Dafny, so the defensive copy of `get_allowed_values` is implicit.
- The order in which `try_variants` iterates over a Python set of allowed values (main.py:14) is left unspecified. The model picks any remaining value, so its results hold for every order.
- Search.TryVariants: it does not promise that the returned board is a solution, because the code does not ensure it.
  - `forbid_values` never forbids a cell's own value.
  - So when a cell commits a value on its row's call that its column or square already holds, the duplicate is never detected.
  - Such a fully committed board is returned as it is (`Cells.OwnValueMasksClash` shows the masking on one cell).
  - The clash can only arise on a branch that has no solution. But `try_variants` returns the first branch that ends fully committed (main.py:14-21). A branch tried early that has no solution can therefore end with duplicates, and that board is then returned as the answer even for a puzzle that does have a solution.
  - What is proved: a raise means no solution exists; a result is fully committed and keeps the committed values; and on a consistent input the result is settled.
- Board.Sudoku.ProcessAllowedValues: the fixpoint it reaches is stated with the same exception as `forbid_values` (sudoku.py:29): a cell's allowed set excludes its peers' values only up to the cell's own value, so a clash with a peer holding the same value is not excluded. The "every cell settled" clause is proved only for a board whose committed values are all among their allowed sets. On the path through `set_values_from_tryouts` a committed value can lie outside its allowed set; when that set shrinks to one value the cell is committed again to it without reporting a new value (sudoku.py:31-35), and the model makes no claim about the fixpoint there.
- Search.SolveCopy: it does not promise that the returned board is a solution, for the same reason as `Search.TryVariants`.
- A `ValueError` raised inside the recursive call of `try_variants` is never caught. The model proves it cannot occur: the branch value is allowed on the copy. The only error a child passes up is `NoValidSolutions`.
