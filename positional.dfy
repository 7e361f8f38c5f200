/**
 * my_heuristic: a centre-column bonus for every piece plus, for every piece
 * and each of the four directions, a score chosen by the length of the run of
 * equal pieces ahead of it and by how many of its ends are open.
 */
module Positional {
  import opened ConnectFour
  import opened Scoring

  /** The outcome of the forward scan: pieces counted and open ends met. */
  datatype Run = Run(inARow: nat, openEnds: nat)

  /** Cell (i, j) + t * direction d is on the board and holds c. */
  predicate HoldsAt(s: State, i: int, j: int, d: nat, t: int, c: Cell)
    requires d < 4
  {
    var col, row := AheadCol(i, d, t), AheadRow(j, d, t);
    s.CoordsLegal(col, row) && s.board[col][row] == c
  }

  /**
   * The scan ahead of cell (i, j) in direction d from distance dist on: it
   * counts pieces equal to `piece` and stops at the first other cell, the edge
   * of the board, or distance 4; an empty stopping cell is one open end.
   */
  function ForwardRun(s: State, i: int, j: int, d: nat, piece: Role, dist: nat): (run: Run)
    requires d < 4 && 1 <= dist <= 4
    ensures dist + run.inARow <= 4 && run.openEnds <= 1
    decreases 4 - dist
  {
    if dist == 4 then Run(0, 0)
    else
      var col, row := AheadCol(i, d, dist), AheadRow(j, d, dist);
      if !s.CoordsLegal(col, row) then Run(0, 0)
      else if s.board[col][row] == piece then
        var rest := ForwardRun(s, i, j, d, piece, dist + 1);
        Run(rest.inARow + 1, rest.openEnds)
      else if s.board[col][row] == Empty then Run(0, 1)
      else Run(0, 0)
  }

  /** 1 when the cell just behind (i, j) in direction d is on the board and empty. */
  function OppositeOpen(s: State, i: int, j: int, d: nat): nat
    requires d < 4
  {
    var col, row := i - ColDirs[d], j - RowDirs[d];
    if s.CoordsLegal(col, row) && s.board[col][row] == Empty then 1 else 0
  }

  /** The size of a direction's contribution, by pieces counted ahead and open ends. */
  function RunScore(inARow: nat, openEnds: nat): (score: nat)
    ensures score in {0, 3, 5, 7, 10}
  {
    if inARow == 1 && openEnds >= 1 then 5
    else if inARow == 2 then (if openEnds >= 1 then 10 else 7)
    else if inARow == 0 && openEnds == 2 then 3
    else 0
  }

  /** What the occupied cell (i, j) adds for direction d. */
  function DirScore(s: State, maxRole: Role, i: nat, j: nat, d: nat): (r: int)
    requires s.CoordsLegal(i, j) && s.board[i][j] != Empty && d < 4
    ensures -10 <= r <= 10
  {
    var piece: Role := s.board[i][j];
    var run := ForwardRun(s, i, j, d, piece, 1);
    Signed(piece, maxRole, RunScore(run.inARow, run.openEnds + OppositeOpen(s, i, j, d)))
  }

  /** The first n directions of the occupied cell (i, j). */
  function DirScores(s: State, maxRole: Role, i: nat, j: nat, n: nat): (r: int)
    requires s.CoordsLegal(i, j) && s.board[i][j] != Empty && n <= 4
    ensures -10 * n <= r <= 10 * n
  {
    if n == 0 then 0 else DirScores(s, maxRole, i, j, n - 1) + DirScore(s, maxRole, i, j, n - 1)
  }

  /** The centre-column bonus of the occupied cell (i, j). */
  function CentreBonus(s: State, maxRole: Role, i: nat, j: nat): int
    requires s.CoordsLegal(i, j) && s.board[i][j] != Empty
  {
    if i == s.numCols / 2 then Signed(s.board[i][j], maxRole, 2) else 0
  }

  /** What cell (i, j) adds: nothing when it is empty. */
  function CellScore(s: State, maxRole: Role, i: nat, j: nat): (r: int)
    requires s.CoordsLegal(i, j)
    ensures -42 <= r <= 42
  {
    if s.board[i][j] == Empty then 0
    else CentreBonus(s, maxRole, i, j) + DirScores(s, maxRole, i, j, 4)
  }

  /** The sum over the first n rows of column i. */
  function ColumnScores(s: State, maxRole: Role, i: nat, n: nat): (r: int)
    requires i < s.numCols && n <= s.numRows
    ensures -42 * n <= r <= 42 * n
  {
    if n == 0 then 0 else ColumnScores(s, maxRole, i, n - 1) + CellScore(s, maxRole, i, n - 1)
  }

  /** The sum over the first n columns. */
  function GridScores(s: State, maxRole: Role, n: nat): int
    requires n <= s.numCols
  {
    if n == 0 then 0 else GridScores(s, maxRole, n - 1) + ColumnScores(s, maxRole, n - 1, s.numRows)
  }

  /** The value my_heuristic computes. */
  function MyHeuristicValue(s: State, maxRole: Role): int
  {
    if s.isTerminal then TerminalScore(s, maxRole) else GridScores(s, maxRole, s.numCols)
  }

  /** The forward scan of one piece and one direction, with the source's early exits. */
  method ScanAhead(s: State, i: nat, j: nat, d: nat, piece: Role) returns (inARow: nat, openEnds: nat)
    requires d < 4
    ensures Run(inARow, openEnds) == ForwardRun(s, i, j, d, piece, 1)
  {
    inARow, openEnds := 0, 0;
    for dist := 1 to 4
      invariant inARow == dist - 1 && openEnds == 0
      invariant ForwardRun(s, i, j, d, piece, 1) ==
                Run(inARow + ForwardRun(s, i, j, d, piece, dist).inARow, ForwardRun(s, i, j, d, piece, dist).openEnds)
    {
      var nextCol, nextRow := i + dist * ColDirs[d], j + dist * RowDirs[d];
      AheadIsScaled(i, j, d, dist);
      if s.CoordsLegal(nextCol, nextRow) {
        if s.board[nextCol][nextRow] == piece {
          inARow := inARow + 1;
        } else if s.board[nextCol][nextRow] == Empty {
          openEnds := openEnds + 1;
          break;
        } else {
          break;
        }
      } else {
        break;
      }
    }
  }

  /** What the occupied cell (i, j) adds for direction dir: the scan, the cell behind, and the score table. */
  method DirectionScore(s: State, maxRole: Role, i: nat, j: nat, dir: nat) returns (delta: int)
    requires s.CoordsLegal(i, j) && s.board[i][j] != Empty && dir < 4
    ensures delta == DirScore(s, maxRole, i, j, dir)
  {
    var piece: Role := s.board[i][j];
    var inARow, openEnds := ScanAhead(s, i, j, dir, piece);
    var oppositeCol, oppositeRow := i - ColDirs[dir], j - RowDirs[dir];
    if s.CoordsLegal(oppositeCol, oppositeRow) && s.board[oppositeCol][oppositeRow] == Empty {
      openEnds := openEnds + 1;
    }
    delta := 0;
    if inARow == 1 && openEnds >= 1 {
      if piece == maxRole {
        delta := delta + 5;
      } else {
        delta := delta - 5;
      }
    } else if inARow == 2 {
      if openEnds >= 1 {
        if piece == maxRole {
          delta := delta + 10;
        } else {
          delta := delta - 10;
        }
      } else {
        if piece == maxRole {
          delta := delta + 7;
        } else {
          delta := delta - 7;
        }
      }
    } else if inARow == 0 && openEnds == 2 {
      if piece == maxRole {
        delta := delta + 3;
      } else {
        delta := delta - 3;
      }
    }
  }

  /** What one occupied cell adds: the centre bonus and the four directions. */
  method PieceScore(s: State, maxRole: Role, i: nat, j: nat) returns (score: int)
    requires s.CoordsLegal(i, j) && s.board[i][j] != Empty
    ensures score == CellScore(s, maxRole, i, j)
  {
    var piece: Role := s.board[i][j];
    score := 0;
    if i == s.numCols / 2 {
      if piece == maxRole {
        score := score + 2;
      } else {
        score := score - 2;
      }
    }
    for dir := 0 to |ColDirs|
      invariant score == CentreBonus(s, maxRole, i, j) + DirScores(s, maxRole, i, j, dir)
    {
      var delta := DirectionScore(s, maxRole, i, j, dir);
      score := score + delta;
    }
  }

  /** my_heuristic, with the source's loops over columns and rows. */
  method MyHeuristic(s: State, maxRole: Role) returns (result: int)
    ensures result == MyHeuristicValue(s, maxRole)
  {
    if s.isTerminal {
      if s.winner == Empty {
        return 0;
      } else if s.winner == maxRole {
        return 100;
      } else {
        return -100;
      }
    }
    result := 0;
    for i := 0 to s.numCols
      invariant result == GridScores(s, maxRole, i)
    {
      for j := 0 to s.numRows
        invariant result == GridScores(s, maxRole, i) + ColumnScores(s, maxRole, i, j)
      {
        if s.board[i][j] != Empty {
          var score := PieceScore(s, maxRole, i, j);
          result := result + score;
        }
      }
    }
  }

  /**
   * The forward scan from distance dist counts exactly the cells holding the
   * piece up to the first cell that does not (or the edge, or distance 3), and
   * meets an open end exactly when that first other cell is on the board and empty.
   */
  lemma {:induction false} ForwardRunSpec(s: State, i: int, j: int, d: nat, piece: Role, dist: nat)
    requires d < 4 && 1 <= dist <= 4
    ensures var run := ForwardRun(s, i, j, d, piece, dist);
      && dist + run.inARow <= 4
      && run.openEnds <= 1
      && (forall t :: dist <= t < dist + run.inARow ==> HoldsAt(s, i, j, d, t, piece))
      && (dist + run.inARow < 4 ==> !HoldsAt(s, i, j, d, dist + run.inARow, piece))
      && (run.openEnds == 1 <==> dist + run.inARow < 4 && HoldsAt(s, i, j, d, dist + run.inARow, Empty))
    decreases 4 - dist
  {
    if dist < 4 {
      var col, row := AheadCol(i, d, dist), AheadRow(j, d, dist);
      if s.CoordsLegal(col, row) && s.board[col][row] == piece {
        ForwardRunSpec(s, i, j, d, piece, dist + 1);
        assert HoldsAt(s, i, j, d, dist, piece);
      }
    }
  }

  /** The scan counts at most three pieces and the two ends give at most two open ends. */
  lemma RunRanges(s: State, i: nat, j: nat, d: nat)
    requires s.CoordsLegal(i, j) && s.board[i][j] != Empty && d < 4
    ensures var run := ForwardRun(s, i, j, d, s.board[i][j], 1);
      run.inARow <= 3 && run.openEnds + OppositeOpen(s, i, j, d) <= 2
  {
    ForwardRunSpec(s, i, j, d, s.board[i][j], 1);
  }

  /** A piece followed by three equal pieces in direction d gets nothing for that direction. */
  lemma FullRunScoresNothing(s: State, maxRole: Role, i: nat, j: nat, d: nat)
    requires s.CoordsLegal(i, j) && s.board[i][j] != Empty && d < 4
    requires forall t :: 1 <= t <= 3 ==> HoldsAt(s, i, j, d, t, s.board[i][j])
    ensures DirScore(s, maxRole, i, j, d) == 0
  {
    ForwardRunSpec(s, i, j, d, s.board[i][j], 1);
  }

  lemma {:induction false} DirScoresNegate(s: State, maxRole: Role, i: nat, j: nat, n: nat)
    requires s.CoordsLegal(i, j) && s.board[i][j] != Empty && n <= 4
    ensures DirScores(s, Other(maxRole), i, j, n) == -DirScores(s, maxRole, i, j, n)
  {
    if n > 0 {
      DirScoresNegate(s, maxRole, i, j, n - 1);
    }
  }

  lemma {:induction false} ColumnScoresNegate(s: State, maxRole: Role, i: nat, n: nat)
    requires i < s.numCols && n <= s.numRows
    ensures ColumnScores(s, Other(maxRole), i, n) == -ColumnScores(s, maxRole, i, n)
  {
    if n > 0 {
      ColumnScoresNegate(s, maxRole, i, n - 1);
      if s.board[i][n - 1] != Empty {
        DirScoresNegate(s, maxRole, i, n - 1, 4);
      }
    }
  }

  lemma {:induction false} GridScoresNegate(s: State, maxRole: Role, n: nat)
    requires n <= s.numCols
    ensures GridScores(s, Other(maxRole), n) == -GridScores(s, maxRole, n)
  {
    if n > 0 {
      GridScoresNegate(s, maxRole, n - 1);
      ColumnScoresNegate(s, maxRole, n - 1, s.numRows);
    }
  }

  /** Swapping the maximizing role negates my_heuristic, on finished and unfinished games alike. */
  lemma MyHeuristicNegates(s: State, maxRole: Role)
    ensures MyHeuristicValue(s, Other(maxRole)) == -MyHeuristicValue(s, maxRole)
  {
    if !s.isTerminal {
      GridScoresNegate(s, maxRole, s.numCols);
    }
  }

  lemma {:induction false} GridScoresBounded(s: State, maxRole: Role, n: nat)
    requires n <= s.numCols
    ensures -(42 * s.numRows * n) <= GridScores(s, maxRole, n) <= 42 * s.numRows * n
  {
    if n > 0 {
      GridScoresBounded(s, maxRole, n - 1);
      var column := ColumnScores(s, maxRole, n - 1, s.numRows);
      assert -42 * s.numRows <= column <= 42 * s.numRows;
      assert GridScores(s, maxRole, n) == GridScores(s, maxRole, n - 1) + column;
      MulStep(42 * s.numRows, n);
    }
  }

  /** On an unfinished game, |my_heuristic| is at most 42 per cell: 2 for the centre and 10 per direction. */
  lemma MyHeuristicBounded(s: State, maxRole: Role)
    requires !s.isTerminal
    ensures -(42 * s.numCols * s.numRows) <= MyHeuristicValue(s, maxRole) <= 42 * s.numCols * s.numRows
  {
    GridScoresBounded(s, maxRole, s.numCols);
    assert 42 * s.numRows * s.numCols == 42 * s.numCols * s.numRows;
  }
}
