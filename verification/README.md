# Sudoku solver: placement check, empty-cell scan and backtracking search

This project models the logic of a browser Sudoku solver (`script.js`).
The page keeps one 9×9 board of integers, where 0 marks an empty cell.
The model covers the four pieces of logic in that file:

- `isValid(board, num, row, col)` decides whether `num` may go at `(row, col)`.
  One pass scans the row and the column together.
  A second pass scans the 3×3 box whose corner is `(floor(row/3)*3, floor(col/3)*3)`.
- `findEmptyCell(board)` returns the first 0 cell in row-major order, or `null`.
- `solve(board)` is the backtracking search.
  It takes the first empty cell and tries the digits 1 to 9 in ascending order, keeping those that pass `isValid`.
  It recurses, stops at the first success, and writes 0 back into the cell when a branch fails.
- The input handler accepts a typed digit only if it is in 1..9 and passes `isValid`.
  Otherwise the board is left unchanged.

The board is an immutable value (`Boards.Board`, nine rows of nine `int`s).
The program's in-place writes become functions that return the board as the program would leave it.
`Solver.Outcome` pairs `solve`'s boolean with that board.
On a failed branch, `solve` writes 0 back into the board that the failed recursive call returns.
So the fact that a failed search gives back the original board is proved, not assumed.
Because the model passes the board as a value, `isValid` cannot change it.
This is how the model states that the check is read-only.
The search's termination measure is the set of empty cells, whose size is the number of zeros.
Each placement removes exactly one cell from that set (`Boards.EmptiesFill`).

Two behaviours of the code are worth stating plainly:

- `isValid` also compares against `board[row][col]` itself (line 133), so a cell that already holds `num` fails the check.
  `solve` only checks empty cells, so the search is unaffected.
  The input handler, however, rejects a digit that is typed again into the cell that already holds it (`Input.RepeatedEntryRejected`).
- `solve` never checks the givens against one another.
  A full board is reported solved and left as it is, even when it repeats digits (`Puzzles.FullBoardWithRepeatsSolved`).

Module layout: `Boards` (board, positions, peers), `Validator` (`isValid`), `EmptyCell` (`findEmptyCell`), `Solver` (`solve`), `Input` (the input handler's decision) and `Puzzles` (the program's starting puzzle).

## Model

| member | source | states |
|---|---|---|
| Boards.Set | script.js:109 | writing a cell gives that cell the new value and leaves every other cell unchanged |
| Boards.SetRestore | script.js:109-113 | placing a digit and then writing the cell's old value back (0 for an empty cell) restores the whole board |
| Boards.EmptiesFill | script.js:107-110 | filling an empty cell with a non-zero digit removes exactly that cell from the set of empty cells, so the recursion's measure strictly decreases |
| Boards.BoxStart | script.js:138-139 | the box corner `floor(x/3)*3` is a multiple of 3 in 0..6 and lies within 2 below `x` |
| Validator.LineScan | script.js:132-136 | the row-and-column loop from index `i` succeeds exactly when no index from `i` on holds `num` in the row or in the column |
| Validator.BoxScan | script.js:140-146 | the nested box loops resumed at a cell succeed exactly when no box cell at or after it, in row-major order, holds `num` |
| Validator.IsValid | script.js:131-148 | the check holds exactly when `num` is absent from the row, the column and the 3×3 box of `(row, col)`; it fails whenever the cell itself already holds `num` |
| Validator.IsValidPeers | script.js:131-148 | the check holds exactly when neither the cell nor any of its 20 peers (same row, column or box) holds `num` |
| Validator.UniqueIffValidWhenCleared | script.js:108-109 | a filled cell's digit repeats in none of its peers exactly when that digit would pass the check again with the cell set back to 0 |
| EmptyCell.ScanFrom | script.js:121-127 | the nested scan resumed at `(i, j)` returns nothing exactly when no cell from there on is 0, and otherwise the first 0 cell from there on |
| EmptyCell.FindEmptyCell | script.js:120-129 | returns nothing exactly when the board has no 0 cell; otherwise a cell holding 0 with no 0 cell before it in row-major order |
| EmptyCell.FindEmptyCellUnique | script.js:120-129 | any 0 cell with no 0 cell before it in row-major order is the cell the scan returns |
| Solver.Solve | script.js:98-118 | on success the board is full, keeps every given, and every cell the search filled holds a digit 1..9 that none of its peers repeats; on failure the board is the input board; a board with no 0 is solved at once and left unchanged |
| Solver.TryDigits | script.js:107-117 | the digit loop at an empty cell, resumed at `num`, either completes the board as `Solve` promises or gives the board back unchanged, because each failed branch writes 0 back |
| Solver.PlacementSound | script.js:107-112 | a digit that passed the check, followed by a successful search on the board with that digit placed, yields a completion of the board before the placement |
| Solver.CompletionDigitValid | script.js:107-108 | the digit that any completion puts in an empty cell passes the check on the current board |
| Solver.CompletionAfterPlacement | script.js:109-110 | placing in an empty cell the digit a completion gives it leaves a board of which that completion is still a completion |
| Solver.SolveComplete | script.js:98-118 | if the board has any completion, the search succeeds; so a reported failure means no completion exists |
| Solver.TryDigitsComplete | script.js:107-117 | if a completion puts a digit of at least `num` in the cell, the digit loop resumed at `num` succeeds |
| Solver.SolveIffCompletable | script.js:98-118 | the search succeeds exactly when the board has a completion |
| Solver.SolveConsistent | script.js:98-118 | when the givens are already free of repeats, a successful search ends with a finished Sudoku, every cell 1..9 with no repeated digit in any row, column or box |
| Solver.SolveIdempotent | script.js:99-102 | solving the board a successful search returned succeeds again at once, with the same board |
| Input.HandleInput | script.js:41-51 | an entry is accepted exactly when it parsed to a number in 1..9 that is absent from the cell's row, column and box; an accepted entry changes that cell only; a rejected entry leaves the board unchanged |
| Input.RepeatedEntryRejected | script.js:43 | typing the digit the cell already holds is rejected, because the check compares the cell with itself |
| Input.HandleInputKeepsConsistent | script.js:43-49 | accepted entries never introduce a repeated digit: a board free of repeats stays free of repeats |
| Puzzles.ClassicRejectsFive | script.js:131-136 | on the starting puzzle, 5 may not go at `(0, 1)`, since row 0 holds 5 at column 0 |
| Puzzles.ClassicAcceptsFour | script.js:131-148 | on the starting puzzle, 4 may go at `(0, 2)` |
| Puzzles.ClassicSolved | script.js:98-118 | the search succeeds on the program's starting puzzle (lines 8-18), because its well-known solution is a completion; the given 9 at `(8, 8)` is kept |
| Puzzles.FullBoardWithRepeatsSolved | script.js:99-102 | a full board made only of 1s repeats digits, yet the search reports it solved and leaves it unchanged |

## Left out

- Page construction, rendering, error banners and event wiring (`createBoard`, `updateBoard`, `showErrorMessage`, `hideErrorMessage`, the listeners at lines 150-153): browser I/O with no logic to verify.
- `solveSudoku` and `resetBoard` (lines 62-68, 82-96): they only call `solve`, show an alert, or rebuild the page. The reset puzzle is `Puzzles.Classic`.
- `parseInt` on the cell's text (line 42): the parsed entry is an `Option<int>`, where `None` stands for `NaN`.
- Input.HandleInput: the page only attaches the handler to cells that were empty in the starting puzzle (lines 28-35). The model accepts any in-range cell.
- Validator.IsValid: requires `row` and `col` in 0..8. The program only calls it from `solve` and from the handler, always with in-range positions. An out-of-range row would make JavaScript throw.
- Solver.Solve: which completion is returned (the first in row-major, ascending-digit order) is not stated. The model is a deterministic function that fixes the cell order (`EmptyCell.FindEmptyCell`) and the digit order (`Solver.TryDigits`).
- Puzzles.ClassicSolved: the value 4 at `(0, 2)` of the solved starting puzzle is not stated. It would need the puzzle's solution to be unique, and the model proves only that a completion exists and that the search therefore succeeds.
