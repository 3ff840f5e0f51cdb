/**
 The 9x9 Sudoku board shared by the validator, the empty-cell scan and the
 backtracking solver. A board is a value: the program's in-place writes
 become functions that return the updated board.
 */
module Boards {

  /** Side of the board, and side of one of its nine boxes. */
  const Size := 9
  const BoxSide := 3

  /** An optional value; `None` plays the role of JavaScript's `null`/`NaN`. */
  datatype Option<T> = None | Some(value: T)

  predicate IsGrid(b: seq<seq<int>>) {
    |b| == Size && forall i | 0 <= i < Size :: |b[i]| == Size
  }

  /**
   A board: nine rows of nine integers, 0 marking an empty cell. Cell values
   are not range-checked on entry, just as the program never checks them.
   */
  type Board = b: seq<seq<int>> | IsGrid(b) witness seq(Size, _ => seq(Size, _ => 0))

  /** A (row, column) position on the board. */
  datatype Pos = Pos(row: int, col: int)

  predicate InBounds(row: int, col: int) {
    0 <= row < Size && 0 <= col < Size
  }

  /** Write `v` into one cell; every other cell keeps its value. */
  function Set(b: Board, row: int, col: int, v: int): (r: Board)
    requires InBounds(row, col)
    ensures r[row][col] == v
    ensures forall i, j | InBounds(i, j) && !(i == row && j == col) :: r[i][j] == b[i][j]
  {
    b[row := b[row][col := v]]
  }

  /** Writing a cell and then writing back its old value gives the board back. */
  lemma SetRestore(b: Board, row: int, col: int, v: int)
    requires InBounds(row, col)
    ensures Set(Set(b, row, col, v), row, col, b[row][col]) == b
  {
    var r := Set(Set(b, row, col, v), row, col, b[row][col]);
    forall i | 0 <= i < Size
      ensures r[i] == b[i]
    {
      assert forall j | 0 <= j < Size :: r[i][j] == b[i][j];
    }
  }

  /** The empty cells of a board; its size is the number of zeros. */
  ghost function Empties(b: Board): set<Pos> {
    set i, j | 0 <= i < Size && 0 <= j < Size && b[i][j] == 0 :: Pos(i, j)
  }

  /** Filling an empty cell with a non-zero value removes exactly that cell from the empties. */
  lemma EmptiesFill(b: Board, row: int, col: int, v: int)
    requires InBounds(row, col) && b[row][col] == 0 && v != 0
    ensures Empties(Set(b, row, col, v)) == Empties(b) - {Pos(row, col)}
    ensures Empties(Set(b, row, col, v)) < Empties(b)
  {
  }

  /** Cell (k, l) comes at or after cell (i, j) in row-major order. */
  predicate AtOrAfter(k: int, l: int, i: int, j: int) {
    k > i || (k == i && l >= j)
  }

  predicate IsFull(b: Board) {
    forall i, j | 0 <= i < Size && 0 <= j < Size :: b[i][j] != 0
  }

  /** `g` agrees with `b` on every cell `b` has filled. */
  predicate Extends(b: Board, g: Board) {
    forall i, j | 0 <= i < Size && 0 <= j < Size && b[i][j] != 0 :: g[i][j] == b[i][j]
  }

  /**
   Top-left coordinate of the box containing row (or column) `x`: the
   program's `Math.floor(x / 3) * 3`; for `x >= 0` floor division and
   Dafny's division agree.
   */
  function BoxStart(x: int): (s: int)
    requires 0 <= x < Size
    ensures s % BoxSide == 0 && 0 <= s <= Size - BoxSide
    ensures s <= x < s + BoxSide
  {
    x / BoxSide * BoxSide
  }

  /** Two rows (or columns) lie in the same band of boxes exactly when they share a box start. */
  lemma SameBoxStart(x: int, y: int)
    requires 0 <= x < Size && 0 <= y < Size
    ensures BoxStart(x) == BoxStart(y) <==> BoxStart(x) <= y < BoxStart(x) + BoxSide
  {
  }

  /** Distinct cells that share a row, a column or a 3x3 box. */
  predicate Peers(i: int, j: int, k: int, l: int)
    requires InBounds(i, j) && InBounds(k, l)
  {
    && !(i == k && j == l)
    && (i == k || j == l || (BoxStart(i) == BoxStart(k) && BoxStart(j) == BoxStart(l)))
  }

  /** No peer of cell (i, j) holds the value that (i, j) holds. */
  predicate Unique(g: Board, i: int, j: int)
    requires InBounds(i, j)
  {
    forall k, l | 0 <= k < Size && 0 <= l < Size && Peers(i, j, k, l) :: g[k][l] != g[i][j]
  }

  /** Every filled cell holds a digit 1..9 that no peer repeats. */
  predicate Consistent(g: Board) {
    forall i, j | 0 <= i < Size && 0 <= j < Size && g[i][j] != 0 :: 1 <= g[i][j] <= 9 && Unique(g, i, j)
  }

  /** A finished Sudoku: full and consistent. */
  predicate IsSolution(g: Board) {
    IsFull(g) && Consistent(g)
  }

  /** Row `i` repeats no value. */
  predicate RowDistinct(g: Board, i: int)
    requires 0 <= i < Size
  {
    forall j1, j2 | 0 <= j1 < j2 < Size :: g[i][j1] != g[i][j2]
  }

  /** Column `j` repeats no value. */
  predicate ColDistinct(g: Board, j: int)
    requires 0 <= j < Size
  {
    forall i1, i2 | 0 <= i1 < i2 < Size :: g[i1][j] != g[i2][j]
  }

  /** The box with top-left corner (r, c) repeats no value. */
  predicate BoxDistinct(g: Board, r: int, c: int)
    requires 0 <= r <= Size - BoxSide && 0 <= c <= Size - BoxSide
  {
    forall k1, l1, k2, l2 |
        && r <= k1 < r + BoxSide && c <= l1 < c + BoxSide
        && r <= k2 < r + BoxSide && c <= l2 < c + BoxSide
        && !(k1 == k2 && l1 == l2) ::
      g[k1][l1] != g[k2][l2]
  }

  /** A cell whose row, column and box repeat nothing is unique among its peers. */
  lemma DistinctUnique(g: Board, i: int, j: int)
    requires InBounds(i, j)
    requires RowDistinct(g, i) && ColDistinct(g, j) && BoxDistinct(g, BoxStart(i), BoxStart(j))
    ensures Unique(g, i, j)
  {
  }

  /** None of the nine boxes repeats a value. */
  predicate BoxesDistinct(g: Board) {
    && BoxDistinct(g, 0, 0) && BoxDistinct(g, 0, 3) && BoxDistinct(g, 0, 6)
    && BoxDistinct(g, 3, 0) && BoxDistinct(g, 3, 3) && BoxDistinct(g, 3, 6)
    && BoxDistinct(g, 6, 0) && BoxDistinct(g, 6, 3) && BoxDistinct(g, 6, 6)
  }

  /**
   A board whose rows, columns and boxes each repeat nothing has every cell
   unique among its peers.
   */
  lemma LinesDistinctUnique(g: Board)
    requires forall i | 0 <= i < Size :: RowDistinct(g, i)
    requires forall j | 0 <= j < Size :: ColDistinct(g, j)
    requires BoxesDistinct(g)
    ensures forall i, j | 0 <= i < Size && 0 <= j < Size :: Unique(g, i, j)
  {
    forall i, j | 0 <= i < Size && 0 <= j < Size
      ensures Unique(g, i, j)
    {
      assert BoxDistinct(g, BoxStart(i), BoxStart(j));
      DistinctUnique(g, i, j);
    }
  }
}
