/**
 The backtracking solver `solve(board)`. It takes the first empty cell in
 row-major order and tries the digits 1..9 in ascending order, keeping those
 that pass the placement check. After each placement it recurses, stops at
 the first success, and writes 0 back into the cell when a branch fails.

 The program mutates one board in place; here every call returns the board
 as it leaves it, so the write-back of 0 is applied to the board handed back
 by the failed recursive call.
 */
module Solver {
  import opened Boards
  import opened Validator
  import opened EmptyCell

  /** What `solve` returns, together with the state it leaves the board in. */
  datatype Outcome = Outcome(solved: bool, board: Board)

  /**
   `g` is a completion of `b` in the sense the solver guarantees: `g` is full,
   keeps every filled cell of `b`, and each cell empty in `b` holds a digit
   1..9 that none of its peers in `g` repeats.
   */
  predicate Completes(b: Board, g: Board) {
    && IsFull(g)
    && Extends(b, g)
    && forall i, j | 0 <= i < Size && 0 <= j < Size && b[i][j] == 0 :: 1 <= g[i][j] <= 9 && Unique(g, i, j)
  }

  /**
   The search from the board `b`. On success the board is a completion of
   `b`; on failure it is `b` again; a board with no empty cell is solved at
   once and left untouched.
   */
  function Solve(b: Board): (r: Outcome)
    ensures r.solved ==> Completes(b, r.board)
    ensures !r.solved ==> r.board == b
    ensures IsFull(b) ==> r == Outcome(true, b)
    decreases Empties(b), 10
  {
    match FindEmptyCell(b)
    case None => Outcome(true, b)
    case Some(p) => TryDigits(b, p.row, p.col, 1)
  }

  /**
   The digit loop at the empty cell (row, col), resumed at digit `num`
   (`num == 10` is the loop's exit, where the call reports failure).
   */
  function TryDigits(b: Board, row: int, col: int, num: int): (r: Outcome)
    requires InBounds(row, col) && b[row][col] == 0 && 1 <= num <= 10
    ensures r.solved ==> Completes(b, r.board)
    ensures !r.solved ==> r.board == b
    decreases Empties(b), 10 - num
  {
    if num > 9 then Outcome(false, b)
    else if IsValid(b, num, row, col) then
      var placed := Set(b, row, col, num);
      EmptiesFill(b, row, col, num);
      var r := Solve(placed);
      if r.solved then
        PlacementSound(b, row, col, num, r.board);
        r
      else
        SetRestore(b, row, col, num);
        TryDigits(Set(r.board, row, col, 0), row, col, num + 1)
    else TryDigits(b, row, col, num + 1)
  }

  /**
   A digit that passed the check at (row, col), followed by a completion of
   the board with that digit placed, gives a completion of the board before
   the placement.
   */
  lemma PlacementSound(b: Board, row: int, col: int, num: int, g: Board)
    requires InBounds(row, col) && b[row][col] == 0 && 1 <= num <= 9
    requires IsValid(b, num, row, col)
    requires Completes(Set(b, row, col, num), g)
    ensures Completes(b, g)
  {
    var placed := Set(b, row, col, num);
    assert g[row][col] == num;
    IsValidPeers(b, num, row, col);
    forall k, l | 0 <= k < Size && 0 <= l < Size && Peers(row, col, k, l)
      ensures g[k][l] != num
    {
      if placed[k][l] == 0 {
        assert Peers(k, l, row, col);
      }
    }
  }

  /**
   A completion assigns the first empty cell a digit that passes the check
   on the board before the placement.
   */
  lemma CompletionDigitValid(b: Board, g: Board, row: int, col: int)
    requires Completes(b, g) && InBounds(row, col) && b[row][col] == 0
    ensures IsValid(b, g[row][col], row, col)
  {
    var v := g[row][col];
    assert Unique(g, row, col);
    forall k, l | 0 <= k < Size && 0 <= l < Size && Peers(row, col, k, l)
      ensures b[k][l] != v
    {
      if b[k][l] != 0 {
        assert g[k][l] == b[k][l];
      }
    }
    IsValidPeers(b, v, row, col);
  }

  /** A completion of `b` still completes `b` with its own digit placed at (row, col). */
  lemma CompletionAfterPlacement(b: Board, g: Board, row: int, col: int)
    requires Completes(b, g) && InBounds(row, col) && b[row][col] == 0
    ensures Completes(Set(b, row, col, g[row][col]), g)
  {
  }

  /**
   Completeness: when the board has a completion, the search succeeds. So a
   failed search means no completion exists.
   */
  lemma {:induction false} SolveComplete(b: Board, g: Board)
    requires Completes(b, g)
    ensures Solve(b).solved
    decreases Empties(b), 10
  {
    match FindEmptyCell(b)
    case None =>
    case Some(p) =>
      assert 1 <= g[p.row][p.col];
      TryDigitsComplete(b, p.row, p.col, 1, g);
  }

  /** The digit loop succeeds when it has not yet passed the digit some completion uses. */
  lemma {:induction false} TryDigitsComplete(b: Board, row: int, col: int, num: int, g: Board)
    requires InBounds(row, col) && b[row][col] == 0 && 1 <= num <= 10
    requires Completes(b, g) && num <= g[row][col]
    ensures TryDigits(b, row, col, num).solved
    decreases Empties(b), 10 - num
  {
    var v := g[row][col];
    assert v <= 9;
    var placed := Set(b, row, col, num);
    EmptiesFill(b, row, col, num);
    if num == v {
      CompletionDigitValid(b, g, row, col);
      CompletionAfterPlacement(b, g, row, col);
      SolveComplete(placed, g);
    } else if IsValid(b, num, row, col) {
      var r := Solve(placed);
      if !r.solved {
        SetRestore(b, row, col, num);
        TryDigitsComplete(b, row, col, num + 1, g);
      }
    } else {
      TryDigitsComplete(b, row, col, num + 1, g);
    }
  }

  /** The search succeeds exactly when the board has a completion. */
  lemma SolveIffCompletable(b: Board)
    ensures Solve(b).solved <==> exists g :: Completes(b, g)
  {
    if exists g :: Completes(b, g) {
      var g :| Completes(b, g);
      SolveComplete(b, g);
    }
  }

  /**
   On a board whose givens are already consistent, a successful search ends
   with a finished Sudoku.
   */
  lemma SolveConsistent(b: Board)
    requires Consistent(b)
    ensures Solve(b).solved ==> IsSolution(Solve(b).board)
  {
  }

  /** Solving is idempotent: a solved board is solved again at once, unchanged. */
  lemma SolveIdempotent(b: Board)
    ensures Solve(b).solved ==> Solve(Solve(b).board) == Solve(b)
  {
  }
}
