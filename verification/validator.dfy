/**
 The placement check `isValid(board, num, row, col)`: may `num` go at
 (row, col) without repeating a digit in its row, its column or its 3x3 box?
 The scan is modelled as written: one pass over the row and the column
 together, then a row-major pass over the box. The cell (row, col) itself is
 part of all three scans, so a cell that already holds `num` fails.
 */
module Validator {
  import opened Boards

  predicate InRow(b: Board, num: int, row: int)
    requires 0 <= row < Size
  {
    exists j | 0 <= j < Size :: b[row][j] == num
  }

  predicate InCol(b: Board, num: int, col: int)
    requires 0 <= col < Size
  {
    exists i | 0 <= i < Size :: b[i][col] == num
  }

  /** `num` occurs in the box whose top-left corner is (BoxStart(row), BoxStart(col)). */
  predicate InBox(b: Board, num: int, row: int, col: int)
    requires InBounds(row, col)
  {
    exists i, j | BoxStart(row) <= i < BoxStart(row) + BoxSide && BoxStart(col) <= j < BoxStart(col) + BoxSide ::
      b[i][j] == num
  }

  /**
   The first loop of the check, from index `i` on: it fails at the first
   index whose row cell or column cell holds `num`.
   */
  function LineScan(b: Board, num: int, row: int, col: int, i: int): (ok: bool)
    requires InBounds(row, col) && 0 <= i <= Size
    ensures ok <==> forall k | i <= k < Size :: b[row][k] != num && b[k][col] != num
    decreases Size - i
  {
    if i == Size then true
    else if b[row][i] == num || b[i][col] == num then false
    else LineScan(b, num, row, col, i + 1)
  }

  /**
   The nested box loops, resumed at cell (i, j): rows sr..sr+2, and in
   each row columns sc..sc+2, failing at the first cell that holds `num`.
   */
  function BoxScan(b: Board, num: int, sr: int, sc: int, i: int, j: int): (ok: bool)
    requires 0 <= sr <= Size - BoxSide && 0 <= sc <= Size - BoxSide
    requires sr <= i <= sr + BoxSide && sc <= j <= sc + BoxSide
    ensures ok <==> forall k, l | sr <= k < sr + BoxSide && sc <= l < sc + BoxSide && AtOrAfter(k, l, i, j) ::
                      b[k][l] != num
    decreases sr + BoxSide - i, sc + BoxSide - j
  {
    if i == sr + BoxSide then true
    else if j == sc + BoxSide then BoxScan(b, num, sr, sc, i + 1, sc)
    else if b[i][j] == num then false
    else BoxScan(b, num, sr, sc, i, j + 1)
  }

  /**
   The placement check. It holds exactly when `num` is absent from the row,
   the column and the box of (row, col); in particular it fails whenever
   (row, col) itself already holds `num`.
   */
  function IsValid(b: Board, num: int, row: int, col: int): (ok: bool)
    requires InBounds(row, col)
    ensures ok <==> !InRow(b, num, row) && !InCol(b, num, col) && !InBox(b, num, row, col)
    ensures b[row][col] == num ==> !ok
  {
    LineScan(b, num, row, col, 0) && BoxScan(b, num, BoxStart(row), BoxStart(col), BoxStart(row), BoxStart(col))
  }

  /**
   The check fails exactly when some cell that is (row, col) or one of its
   peers holds `num`.
   */
  lemma IsValidPeers(b: Board, num: int, row: int, col: int)
    requires InBounds(row, col)
    ensures IsValid(b, num, row, col) <==>
              b[row][col] != num &&
              forall k, l | 0 <= k < Size && 0 <= l < Size && Peers(row, col, k, l) :: b[k][l] != num
  {
    if IsValid(b, num, row, col) {
      forall k, l | 0 <= k < Size && 0 <= l < Size && Peers(row, col, k, l)
        ensures b[k][l] != num
      {
        if k != row && l != col {
          SameBoxStart(row, k);
          SameBoxStart(col, l);
        }
      }
    } else {
      if InBox(b, num, row, col) {
        var k, l :| BoxStart(row) <= k < BoxStart(row) + BoxSide && BoxStart(col) <= l < BoxStart(col) + BoxSide &&
                    b[k][l] == num;
        SameBoxStart(row, k);
        SameBoxStart(col, l);
      }
    }
  }

  /**
   A filled cell is unique among its peers exactly when its digit would pass
   the check again on the board with that cell cleared.
   */
  lemma UniqueIffValidWhenCleared(g: Board, i: int, j: int)
    requires InBounds(i, j) && g[i][j] != 0
    ensures Unique(g, i, j) <==> IsValid(Set(g, i, j, 0), g[i][j], i, j)
  {
    IsValidPeers(Set(g, i, j, 0), g[i][j], i, j);
  }
}
