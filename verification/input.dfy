/**
 The accept/reject decision of the cell-input handler. The text of the cell
 has already been parsed; an unparsable entry arrives as `None`. A digit is
 written into the board only when it lies in 1..9 and passes the placement
 check; otherwise the board is left as it was.
 */
module Input {
  import opened Boards
  import opened Validator

  /** Whether the entry was accepted, and the board after it. */
  datatype Edit = Edit(accepted: bool, board: Board)

  function HandleInput(b: Board, value: Option<int>, row: int, col: int): (r: Edit)
    requires InBounds(row, col)
    ensures r.accepted <==>
              && value.Some?
              && 1 <= value.value <= 9
              && !InRow(b, value.value, row) && !InCol(b, value.value, col) && !InBox(b, value.value, row, col)
    ensures r.accepted ==>
              && r.board[row][col] == value.value
              && forall i, j | 0 <= i < Size && 0 <= j < Size && !(i == row && j == col) :: r.board[i][j] == b[i][j]
    ensures !r.accepted ==> r.board == b
  {
    match value
    case None => Edit(false, b)
    case Some(v) =>
      if v < 1 || v > 9 || !IsValid(b, v, row, col) then Edit(false, b)
      else Edit(true, Set(b, row, col, v))
  }

  /**
   Entering the digit the cell already holds is rejected, because the
   placement check compares the cell with itself.
   */
  lemma RepeatedEntryRejected(b: Board, v: int, row: int, col: int)
    requires InBounds(row, col) && b[row][col] == v
    ensures !HandleInput(b, Some(v), row, col).accepted
  {
  }

  /** Accepted entries never introduce a repeated digit into a consistent board. */
  lemma HandleInputKeepsConsistent(b: Board, value: Option<int>, row: int, col: int)
    requires InBounds(row, col) && Consistent(b)
    ensures Consistent(HandleInput(b, value, row, col).board)
  {
  }
}
