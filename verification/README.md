# SudokuJS engine in Dafny

A model of the Sudoku engine in `src/sudoku.ts`, with proofs about it. The
engine has four operations: generate a puzzle at a given difficulty, solve a
board in place, list every cell's candidate digits, and suggest a single-cell
hint. They rest on the placement check `isValid`, a Fisher–Yates `shuffle`,
and two backtracking searches.

The board is an `array2<int>` of nine rows and nine columns. The source's
`null` cell is encoded as `Empty` (0), and a filled cell holds its digit.
Code that mutates in place is modelled by methods on arrays:
- the shuffle swaps array elements;
- the searches write a cell and reset it on backtrack;
- the carver empties cells.

`isValid`, `getCandidates` and `getSudokuHint` only read the board. They are
methods with the source's loops, each proved against a reference definition:
- `Absent`: the digit is in none of the cell's row, column and box;
- `AbsentDigitsFrom` / `CandidateList`: a cell's candidates;
- `BestSoFar`: the first cell with the fewest candidates.

Modules, one file each:
- `SudokuBoard` (`board.dfy`): the board predicates, `IsValid`, and the row-major scan for the first empty cell.
- `Shuffling` (`shuffle.dfy`): `RandomBelow`, `Shuffle` and `GenerateShuffledNumbers`.
- `Backtracking` (`backtracking.dfy`): `FillBoard`, `SolveSudokuHelper` and `SolveSudoku`.
- `Carver` (`carver.dfy`): `Difficulty`, `RemoveNumbers` and `GenerateSudoku`.
- `Candidates` (`candidates.dfy`): `GetCandidates`.
- `Hints` (`hints.dfy`): `GetSudokuHint`.

Randomness is a nondeterministic choice. `RandomBelow(n)` stands for
`Math.floor(Math.random() * n)` and may return any integer in `[0, n)`. A
shuffle returns, as a ghost value, the list of swaps it drew. Its result is
exactly that swap schedule applied to the input.

How the searches terminate: each descent fills the first empty cell, and all
earlier cells stay filled. So the row-major index of the first empty cell
(`FirstEmptyFrom`) strictly grows, and it is bounded by 81.

## Model

| member | source | states |
|---|---|---|
| `SudokuBoard.IsValid` | src/sudoku.ts:12-23 | returns true exactly when `num` occurs nowhere in the row, the column or the 3×3 box of (row, col); reads the board only |
| `SudokuBoard.ScanCoversUnits` | src/sudoku.ts:13-21 | the nine steps of the scan, each comparing a row cell, a column cell and the box cell `3*(row/3)+x/3, 3*(col/3)+x%3`, together cover every cell sharing a unit with (row, col) |
| `SudokuBoard.FirstEmpty` | src/sudoku.ts:40-43 | the row-major scan of both searches: finds an empty cell with every earlier cell filled, or reports that the board is full |
| `SudokuBoard.FirstEmptyIndex` | src/sudoku.ts:42-46 | when all cells before (row, col) are filled, the first empty index is (row, col) while it is empty and lies beyond it once filled: the termination measure of the searches |
| `Shuffling.RandomBelow` | src/sudoku.ts:27 | the drawn index lies in `[0, n)` |
| `Shuffling.Swap` | src/sudoku.ts:28 | exchanging two elements keeps the length and the multiset of elements |
| `Shuffling.ApplySwapsPermutes` | src/sudoku.ts:25-31 | any swap schedule permutes: the multiset of elements is unchanged |
| `Shuffling.ApplySwapsKeepsDistinct` | src/sudoku.ts:25-31 | swapping never introduces a repeated element |
| `Shuffling.Shuffle` | src/sudoku.ts:25-31 | Fisher–Yates: for i from the last index down to 1 it swaps i with some j in [0, i]; the array ends as that schedule applied to its old contents, and is a permutation of them |
| `Shuffling.DigitsPermutationInRange` | src/sudoku.ts:34 | a rearrangement of 1..9 has nine elements, each a digit |
| `Shuffling.GenerateShuffledNumbers` | src/sudoku.ts:33-36 | returns a permutation of 1..9 |
| `Backtracking.FillBoard` | src/sudoku.ts:38-57 | given cells are never overwritten; on failure the board is exactly as on entry; on success no cell is empty, every formerly empty cell holds a digit that no peer holds, and a conflict-free board stays conflict-free; a full board succeeds at once |
| `Backtracking.TryFill` | src/sudoku.ts:44-50 | one try of the loop: place the digit only if `IsValid` allows it, recurse, and reset the cell to empty when the recursion fails; same outcome contract as `FillBoard` |
| `Backtracking.SolveSudokuHelper` | src/sudoku.ts:91-109 | the same contract as `FillBoard`, trying the digits 1..9 in ascending order |
| `Backtracking.TrySolve` | src/sudoku.ts:96-102 | one try of the solver's loop, with the contract of `TryFill` |
| `Backtracking.SolveSudoku` | src/sudoku.ts:111-114 | returns the same board; givens kept; an unsolved board comes back unchanged; a solved board keeps a conflict-free start conflict-free; a full board is unchanged |
| `Carver.BaseRemovals` | src/sudoku.ts:70-76 | the base removal counts 42/45/50/54/57 leave room for the ±2 adjustment within the 81 positions |
| `Carver.AllCellsEnumerates` | src/sudoku.ts:60-65 | the row-major position list names every cell exactly once |
| `Carver.ListPositions` | src/sudoku.ts:60-65 | the pushed positions are (0,0), (0,1), …, (8,8) in that order |
| `Carver.ShuffledCells` | src/sudoku.ts:66 | after the shuffle the positions are still 81 distinct board cells |
| `Carver.DistinctPrefixCard` | src/sudoku.ts:78 | the first n entries of a list without repeats name exactly n positions |
| `Carver.ClearPositions` | src/sudoku.ts:78-81 | the emptied set is exactly the first `count` positions, `count` distinct cells, and every other cell is left as it was |
| `Carver.RemoveNumbers` | src/sudoku.ts:59-82 | empties a set of base−2 to base+2 distinct cells and leaves every other cell unchanged |
| `Carver.GenerateSudoku` | src/sudoku.ts:84-89 | a fresh 9×9 board, conflict-free, every filled cell a digit; unless the fill failed and the board is blank, the number of empty cells is the difficulty's base ± 2 |
| `Candidates.Delete` | src/sudoku.ts:129-138 | `Set.delete` on the insertion-ordered set: removes exactly `v` and keeps the order ascending |
| `Candidates.AbsentDigitsFrom` | src/sudoku.ts:124-143 | reference list of an empty cell's candidates: strictly ascending, holding exactly the digits absent from its row, column and box, at most nine of them |
| `Candidates.AscendingUnique` | src/sudoku.ts:143 | two strictly ascending lists with the same elements are equal, so sorting the pruned set changes nothing |
| `Candidates.LinesAndBoxAbsent` | src/sudoku.ts:127-140 | the row-and-column pass and the box pass together check exactly the cells of `Absent` |
| `Candidates.CellCandidates` | src/sudoku.ts:124-143 | starting from 1..9 and deleting every value seen in the row, the column and the box yields exactly the reference candidate list |
| `Candidates.GetCandidates` | src/sudoku.ts:119-151 | a 9×9 grid: an empty cell's ascending candidate digits, or a filled cell's own value; the board is not modified |
| `Candidates.BlankBoardCandidates` | src/sudoku.ts:119-151 | on an all-empty board every cell's candidates are 1..9 |
| `Hints.ScanPrefix` | src/sudoku.ts:163-171 | the cell-by-cell running-minimum update of the source's loop; the cell it holds after n cells is one of those n cells |
| `Hints.ScanPrefixIsBest` | src/sudoku.ts:160-171 | the running-minimum scan holds nothing exactly when no cell scanned so far is eligible, and otherwise the first cell with the strictly fewest candidates |
| `Hints.ScanForHint` | src/sudoku.ts:159-174 | over a candidate grid: the sentinel exactly when no empty cell has a candidate, otherwise the first such cell in row-major order with the fewest candidates, paired with its first candidate |
| `Hints.SmallestCandidate` | src/sudoku.ts:168 | an eligible cell's first candidate is its smallest one, and `isValid` holds for it |
| `Hints.GetSudokuHint` | src/sudoku.ts:156-175 | the sentinel (-1, -1, -1) exactly when no empty cell has a candidate; otherwise the first empty cell with the fewest candidates and its smallest candidate, which is absent from its row, column and box |
| `Hints.FullBoardHasNoHint` | src/sudoku.ts:174 | a full board has no eligible cell, so it gets the sentinel |

## Left out

- The distribution of `Math.random` (src/sudoku.ts:27, 68). Each draw is an arbitrary value in its range, so nothing is claimed about uniformity.
- Completeness of `fillBoard` on a blank board. This needs a backtracking completeness argument and the existence of a full grid. `Carver.GenerateSudoku` states its empty-cell bound only for the case where the fill succeeded, with a blank board as the alternative.
- Completeness of the solver. `Backtracking.SolveSudokuHelper` does not prove that a solvable board is always solved, only what holds when it reports success or failure.
- `Backtracking.FillBoard` and `Backtracking.SolveSudokuHelper`: "every digit passed `isValid` when it was placed" is stated on the final board instead. Each formerly empty cell ends holding a digit that no other cell of its row, column or box holds.
- Text rendering: `toString`, `join` and `parseInt` (src/sudoku.ts:143, 145, 168). A candidate string is its list of digits, and a filled cell's string is the one-element list of its value. A value outside 1..9 would render as more than one character; the model does not follow that.
- The lexicographic default sort of `Array.from(set).sort()`. The pruned set is proved strictly ascending, and for single digits lexicographic order is numeric order, so the sort is not modelled as a separate step.
- The board as an array of row arrays. It is a single `array2`, so rows cannot alias one another.
- The source repeats the row-major search for the first null cell inside `fillBoard` and `solveSudokuHelper`. Both searches here call one method, `SudokuBoard.FirstEmpty`. The loop body that places a digit and recurses is the helper `TryFill` / `TrySolve`.
- A cell holding the number 0. The source tests for `null` only, so a 0 there counts as a filled cell; here 0 is `Empty`. Cells are meant to hold 1..9 or `null`, so this differs only on invalid boards.
- `SudokuBoard.IsValid` requires `num != Empty`. 0 encodes `null`, and the source never asks about `null`.
- An invalid difficulty: the enumeration is closed, and the source has no error path for it.
- "A board with exactly one empty cell gets a hint naming that cell and the unique digit missing from it". This rests on a counting argument over a conflict-free board and is not proved. `Hints.GetSudokuHint` does name the cell, and its smallest candidate, whenever that cell has a candidate.
- `index.ts`, the demo driver that prints results, is not part of this model.
