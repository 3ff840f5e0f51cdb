/**
 The empty-cell scan `findEmptyCell(board)`: the first cell holding 0 in
 row-major order, or `None` (the program's `null`) when the board is full.
 */
module EmptyCell {
  import opened Boards

  /**
   The nested scan resumed at cell (i, j): finish row i from column j, then
   go on with row i + 1 from column 0.
   */
  function ScanFrom(b: Board, i: int, j: int): (r: Option<Pos>)
    requires 0 <= i <= Size && 0 <= j <= Size
    ensures r.None? <==> forall k, l | 0 <= k < Size && 0 <= l < Size && AtOrAfter(k, l, i, j) :: b[k][l] != 0
    ensures r.Some? ==>
              && InBounds(r.value.row, r.value.col)
              && AtOrAfter(r.value.row, r.value.col, i, j)
              && b[r.value.row][r.value.col] == 0
              && forall k, l | 0 <= k < Size && 0 <= l < Size && AtOrAfter(k, l, i, j) && !AtOrAfter(k, l, r.value.row, r.value.col) ::
                   b[k][l] != 0
    decreases Size - i, Size - j
  {
    if i == Size then None
    else if j == Size then ScanFrom(b, i + 1, 0)
    else if b[i][j] == 0 then Some(Pos(i, j))
    else ScanFrom(b, i, j + 1)
  }

  /**
   `None` exactly when no cell is 0; otherwise a cell holding 0 with no
   cell holding 0 before it in row-major order.
   */
  function FindEmptyCell(b: Board): (r: Option<Pos>)
    ensures r.None? <==> IsFull(b)
    ensures r.Some? ==>
              && InBounds(r.value.row, r.value.col)
              && b[r.value.row][r.value.col] == 0
              && forall k, l | 0 <= k < Size && 0 <= l < Size && !AtOrAfter(k, l, r.value.row, r.value.col) :: b[k][l] != 0
  {
    ScanFrom(b, 0, 0)
  }

  /** The cell found is the only empty cell with no empty cell before it. */
  lemma FindEmptyCellUnique(b: Board, p: Pos)
    requires InBounds(p.row, p.col) && b[p.row][p.col] == 0
    requires forall k, l | 0 <= k < Size && 0 <= l < Size && !AtOrAfter(k, l, p.row, p.col) :: b[k][l] != 0
    ensures FindEmptyCell(b) == Some(p)
  {
  }
}
