/**
 * three_line_heur: the number of aligned triples of the maximizing role minus
 * the number of the other role's, or the true value of a finished game.
 *
 * A triple starts at an occupied cell and runs two steps in one of the four
 * directions. Only the farthest cell is checked against the board's bounds
 * (the middle one lies between two cells on the board), and nothing is asked
 * of a fourth cell.
 */
module ThreeLine {
  import opened ConnectFour
  import opened Scoring

  /** Cell (i, j) and the two cells after it in direction d all hold p. */
  predicate TripleOf(s: State, p: Role, i: nat, j: nat, d: nat)
    requires s.CoordsLegal(i, j) && d < 4
  {
    var c2, r2 := i + 2 * ColDirs[d], j + 2 * RowDirs[d];
    s.board[i][j] == p && s.CoordsLegal(c2, r2) &&
    s.board[i + ColDirs[d]][j + RowDirs[d]] == p && s.board[c2][r2] == p
  }

  /** The source's test for one occupied cell and one direction: +1 or -1 for a triple, 0 otherwise. */
  function TripleScore(s: State, maxRole: Role, i: nat, j: nat, d: nat): (r: int)
    requires s.CoordsLegal(i, j) && s.board[i][j] != Empty && d < 4
    ensures -1 <= r <= 1
  {
    var piece: Role := s.board[i][j];
    var c2, r2 := i + 2 * ColDirs[d], j + 2 * RowDirs[d];
    if s.CoordsLegal(c2, r2) && piece == s.board[i + ColDirs[d]][j + RowDirs[d]] && piece == s.board[c2][r2]
    then Signed(piece, maxRole, 1)
    else 0
  }

  /** The contributions of an occupied cell in the first n directions. */
  function DirTriples(s: State, maxRole: Role, i: nat, j: nat, n: nat): (r: int)
    requires s.CoordsLegal(i, j) && s.board[i][j] != Empty && n <= 4
    ensures -(n as int) <= r <= n
  {
    if n == 0 then 0 else DirTriples(s, maxRole, i, j, n - 1) + TripleScore(s, maxRole, i, j, n - 1)
  }

  /** What cell (i, j) adds: nothing when it is empty. */
  function CellTriples(s: State, maxRole: Role, i: nat, j: nat): (r: int)
    requires s.CoordsLegal(i, j)
    ensures -4 <= r <= 4
  {
    if s.board[i][j] == Empty then 0 else DirTriples(s, maxRole, i, j, 4)
  }

  /** The sum over the first n rows of column i. */
  function ColumnTriples(s: State, maxRole: Role, i: nat, n: nat): (r: int)
    requires i < s.numCols && n <= s.numRows
    ensures -4 * n <= r <= 4 * n
  {
    if n == 0 then 0 else ColumnTriples(s, maxRole, i, n - 1) + CellTriples(s, maxRole, i, n - 1)
  }

  /** The sum over the first n columns. */
  function GridTriples(s: State, maxRole: Role, n: nat): int
    requires n <= s.numCols
  {
    if n == 0 then 0 else GridTriples(s, maxRole, n - 1) + ColumnTriples(s, maxRole, n - 1, s.numRows)
  }

  lemma {:induction false} GridTriplesBounded(s: State, maxRole: Role, n: nat)
    requires n <= s.numCols
    ensures -(4 * s.numRows * n) <= GridTriples(s, maxRole, n) <= 4 * s.numRows * n
  {
    if n > 0 {
      GridTriplesBounded(s, maxRole, n - 1);
      MulStep(4 * s.numRows, n);
    }
  }

  /** The value three_line_heur computes. */
  function ThreeLineValue(s: State, maxRole: Role): int
  {
    if s.isTerminal then TerminalScore(s, maxRole) else GridTriples(s, maxRole, s.numCols)
  }

  /** The direction loop of three_line_heur for the occupied cell (i, j). */
  method PieceTriples(s: State, maxRole: Role, i: nat, j: nat) returns (delta: int)
    requires s.CoordsLegal(i, j) && s.board[i][j] != Empty
    ensures delta == CellTriples(s, maxRole, i, j)
  {
    var piece: Role := s.board[i][j];
    delta := 0;
    var dir := 0;
    while dir < |ColDirs|
      invariant 0 <= dir <= 4
      invariant delta == DirTriples(s, maxRole, i, j, dir)
    {
      var farCol, farRow := i + 2 * ColDirs[dir], j + 2 * RowDirs[dir];
      if s.CoordsLegal(farCol, farRow) {
        if piece == s.board[i + ColDirs[dir]][j + RowDirs[dir]] && piece == s.board[farCol][farRow] {
          if piece == maxRole {
            delta := delta + 1;
          } else {
            delta := delta - 1;
          }
        }
      }
      dir := dir + 1;
    }
  }

  /** three_line_heur, with the source's loops over columns and rows. */
  method ThreeLineHeur(s: State, maxRole: Role) returns (result: int)
    ensures result == ThreeLineValue(s, maxRole)
  {
    if s.isTerminal {
      if s.winner == Empty {
        return 0;
      } else if s.winner == maxRole {
        return 100;
      } else {
        return -100;
      }
    }
    result := 0;
    var i := 0;
    while i < s.numCols
      invariant 0 <= i <= s.numCols
      invariant result == GridTriples(s, maxRole, i)
    {
      var j := 0;
      while j < s.numRows
        invariant 0 <= j <= s.numRows
        invariant result == GridTriples(s, maxRole, i) + ColumnTriples(s, maxRole, i, j)
      {
        if s.board[i][j] != Empty {
          var delta := PieceTriples(s, maxRole, i, j);
          result := result + delta;
        }
        j := j + 1;
      }
      i := i + 1;
    }
  }

  /**
   * One cell and direction counts +1 exactly when the maximizing role has a
   * triple there and -1 exactly when the other role has one.
   */
  lemma TripleScoreCounts(s: State, maxRole: Role, i: nat, j: nat, d: nat)
    requires s.CoordsLegal(i, j) && s.board[i][j] != Empty && d < 4
    ensures TripleScore(s, maxRole, i, j, d) == 1 <==> TripleOf(s, maxRole, i, j, d)
    ensures TripleScore(s, maxRole, i, j, d) == -1 <==> TripleOf(s, Other(maxRole), i, j, d)
    ensures TripleScore(s, maxRole, i, j, d) == 0 <==>
            !TripleOf(s, maxRole, i, j, d) && !TripleOf(s, Other(maxRole), i, j, d)
  {
  }

  lemma {:induction false} DirTriplesNegate(s: State, maxRole: Role, i: nat, j: nat, n: nat)
    requires s.CoordsLegal(i, j) && s.board[i][j] != Empty && n <= 4
    ensures DirTriples(s, Other(maxRole), i, j, n) == -DirTriples(s, maxRole, i, j, n)
  {
    if n > 0 {
      DirTriplesNegate(s, maxRole, i, j, n - 1);
      SignedNegates(s.board[i][j], maxRole, 1);
    }
  }

  lemma {:induction false} ColumnTriplesNegate(s: State, maxRole: Role, i: nat, n: nat)
    requires i < s.numCols && n <= s.numRows
    ensures ColumnTriples(s, Other(maxRole), i, n) == -ColumnTriples(s, maxRole, i, n)
  {
    if n > 0 {
      ColumnTriplesNegate(s, maxRole, i, n - 1);
      if s.board[i][n - 1] != Empty {
        DirTriplesNegate(s, maxRole, i, n - 1, 4);
      }
    }
  }

  lemma {:induction false} GridTriplesNegate(s: State, maxRole: Role, n: nat)
    requires n <= s.numCols
    ensures GridTriples(s, Other(maxRole), n) == -GridTriples(s, maxRole, n)
  {
    if n > 0 {
      GridTriplesNegate(s, maxRole, n - 1);
      ColumnTriplesNegate(s, maxRole, n - 1, s.numRows);
    }
  }

  /** Swapping the maximizing role negates three_line_heur, on finished and unfinished games alike. */
  lemma ThreeLineNegates(s: State, maxRole: Role)
    ensures ThreeLineValue(s, Other(maxRole)) == -ThreeLineValue(s, maxRole)
  {
    if !s.isTerminal {
      GridTriplesNegate(s, maxRole, s.numCols);
    }
  }

  /** On an unfinished game, |three_line_heur| is at most four per cell of the board. */
  lemma ThreeLineBounded(s: State, maxRole: Role)
    requires !s.isTerminal
    ensures -(4 * s.numCols * s.numRows) <= ThreeLineValue(s, maxRole) <= 4 * s.numCols * s.numRows
  {
    GridTriplesBounded(s, maxRole, s.numCols);
    assert 4 * s.numRows * s.numCols == 4 * s.numCols * s.numRows;
  }
}
