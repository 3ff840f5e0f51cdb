/**
 The puzzle the program starts from (and returns to on reset), with the
 concrete facts the model proves about it.
 */
module Puzzles {
  import opened Boards
  import opened Validator
  import opened Solver

  /** The initial and reset puzzle of the program. */
  function Classic(): Board {
    [[5, 3, 0, 0, 7, 0, 0, 0, 0],
     [6, 0, 0, 1, 9, 5, 0, 0, 0],
     [0, 9, 8, 0, 0, 0, 0, 6, 0],
     [8, 0, 0, 0, 6, 0, 0, 0, 3],
     [4, 0, 0, 8, 0, 3, 0, 0, 1],
     [7, 0, 0, 0, 2, 0, 0, 0, 6],
     [0, 6, 0, 0, 0, 0, 2, 8, 0],
     [0, 0, 0, 4, 1, 9, 0, 0, 5],
     [0, 0, 0, 0, 8, 0, 0, 7, 9]]
  }

  /** The well-known solution of that puzzle. */
  function ClassicSolution(): Board {
    [[5, 3, 4, 6, 7, 8, 9, 1, 2],
     [6, 7, 2, 1, 9, 5, 3, 4, 8],
     [1, 9, 8, 3, 4, 2, 5, 6, 7],
     [8, 5, 9, 7, 6, 1, 4, 2, 3],
     [4, 2, 6, 8, 5, 3, 7, 9, 1],
     [7, 1, 3, 9, 2, 4, 8, 5, 6],
     [9, 6, 1, 5, 3, 7, 2, 8, 4],
     [2, 8, 7, 4, 1, 9, 6, 3, 5],
     [3, 4, 5, 2, 8, 6, 1, 7, 9]]
  }

  /** A 5 cannot go at (0, 1): row 0 already has a 5 at column 0. */
  lemma ClassicRejectsFive()
    ensures !IsValid(Classic(), 5, 0, 1)
  {
  }

  /** A 4 can go at (0, 2). */
  lemma ClassicAcceptsFour()
    ensures IsValid(Classic(), 4, 0, 2)
  {
  }

  /** A full board whose every cell is 1: it breaks every Sudoku rule. */
  function AllOnes(): Board {
    seq(Size, _ => seq(Size, _ => 1))
  }

  /**
   The search never checks the givens against one another: a full board
   is reported solved and left as it is, even when it repeats digits.
   */
  lemma FullBoardWithRepeatsSolved()
    ensures !Consistent(AllOnes())
    ensures Solve(AllOnes()) == Outcome(true, AllOnes())
  {
    var g := AllOnes();
    assert Peers(0, 0, 0, 1) && g[0][1] == g[0][0];
    assert !Unique(g, 0, 0);
  }

  /** Every row of the known solution repeats no digit. */
  lemma ClassicSolutionRow(i: int)
    requires 0 <= i < Size
    ensures RowDistinct(ClassicSolution(), i)
  {
  }

  /** Every column of the known solution repeats no digit. */
  lemma ClassicSolutionCol(j: int)
    requires 0 <= j < Size
    ensures ColDistinct(ClassicSolution(), j)
  {
  }

  /** Each of the nine boxes of the known solution repeats no digit. */
  lemma ClassicSolutionBoxTopLeft()
    ensures BoxDistinct(ClassicSolution(), 0, 0)
  {
  }

  lemma ClassicSolutionBoxTopCentre()
    ensures BoxDistinct(ClassicSolution(), 0, 3)
  {
  }

  lemma ClassicSolutionBoxTopRight()
    ensures BoxDistinct(ClassicSolution(), 0, 6)
  {
  }

  lemma ClassicSolutionBoxMiddleLeft()
    ensures BoxDistinct(ClassicSolution(), 3, 0)
  {
  }

  lemma ClassicSolutionBoxMiddleCentre()
    ensures BoxDistinct(ClassicSolution(), 3, 3)
  {
  }

  lemma ClassicSolutionBoxMiddleRight()
    ensures BoxDistinct(ClassicSolution(), 3, 6)
  {
  }

  lemma ClassicSolutionBoxBottomLeft()
    ensures BoxDistinct(ClassicSolution(), 6, 0)
  {
  }

  lemma ClassicSolutionBoxBottomCentre()
    ensures BoxDistinct(ClassicSolution(), 6, 3)
  {
  }

  lemma ClassicSolutionBoxBottomRight()
    ensures BoxDistinct(ClassicSolution(), 6, 6)
  {
  }

  /** No box of the known solution repeats a digit. */
  lemma ClassicSolutionBoxes()
    ensures BoxesDistinct(ClassicSolution())
  {
    ClassicSolutionBoxTopLeft();
    ClassicSolutionBoxTopCentre();
    ClassicSolutionBoxTopRight();
    ClassicSolutionBoxMiddleLeft();
    ClassicSolutionBoxMiddleCentre();
    ClassicSolutionBoxMiddleRight();
    ClassicSolutionBoxBottomLeft();
    ClassicSolutionBoxBottomCentre();
    ClassicSolutionBoxBottomRight();
  }

  /** Every cell of the known solution holds a digit 1..9. */
  lemma ClassicSolutionDigits(i: int, j: int)
    requires InBounds(i, j)
    ensures 1 <= ClassicSolution()[i][j] <= 9
  {
  }

  /** The known solution keeps every given of the puzzle. */
  lemma ClassicSolutionExtends()
    ensures Extends(Classic(), ClassicSolution())
  {
  }

  /**
   The search solves the program's starting puzzle, and keeps its givens,
   among them the 9 at (8, 8).
   */
  lemma ClassicSolved()
    ensures Solve(Classic()).solved
    ensures Solve(Classic()).board[8][8] == 9
  {
    var b, g := Classic(), ClassicSolution();
    forall i | 0 <= i < Size
      ensures RowDistinct(g, i) && ColDistinct(g, i)
    {
      ClassicSolutionRow(i);
      ClassicSolutionCol(i);
    }
    ClassicSolutionBoxes();
    LinesDistinctUnique(g);
    forall i, j | 0 <= i < Size && 0 <= j < Size
      ensures 1 <= g[i][j] <= 9
    {
      ClassicSolutionDigits(i, j);
    }
    ClassicSolutionExtends();
    assert Completes(b, g);
    SolveComplete(b, g);
    assert b[8][8] == 9;
  }
}
