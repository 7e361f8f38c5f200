/**
 * evaluate_position: the potential of one cell for one role. Along each of
 * four directions, the window of seven cells centred on the cell scores 50
 * when none of its on-board cells holds the other role and at least three of
 * them hold the role. Cells off the board are ignored.
 */
module Potential {
  import opened ConnectFour

  /** Horizontal, vertical and the two diagonals, as (column step, row step). */
  const Directions: seq<(int, int)> := [(1, 0), (0, 1), (1, 1), (1, -1)]

  /** The cell `offset` steps from (col, row) along direction d. */
  function WindowCol(col: int, d: nat, offset: int): int
    requires d < 4
  {
    col + offset * Directions[d].0
  }

  function WindowRow(row: int, d: nat, offset: int): int
    requires d < 4
  {
    row + offset * Directions[d].1
  }

  /** The window cell at `offset` is on the board and holds `role`. */
  predicate Holds(s: State, col: int, row: int, d: nat, role: Role, offset: int)
    requires d < 4
  {
    var c, r := WindowCol(col, d, offset), WindowRow(row, d, offset);
    s.CoordsLegal(c, r) && s.board[c][r] == role
  }

  /** The window cell at `offset` is on the board and holds the other role. */
  predicate Blocks(s: State, col: int, row: int, d: nat, role: Role, offset: int)
    requires d < 4
  {
    var c, r := WindowCol(col, d, offset), WindowRow(row, d, offset);
    s.CoordsLegal(c, r) && s.board[c][r] != role && s.board[c][r] != Empty
  }

  /** The number of offsets in [-3, hi) whose window cell holds `role`. */
  function RoleCount(s: State, col: int, row: int, d: nat, role: Role, hi: int): nat
    requires d < 4 && -3 <= hi <= 4
    decreases hi + 3
  {
    if hi == -3 then 0
    else RoleCount(s, col, row, d, role, hi - 1) + (if Holds(s, col, row, d, role, hi - 1) then 1 else 0)
  }

  /** RoleCount is the number of offsets in [-3, hi) whose window cell holds `role`. */
  lemma {:induction false} RoleCountIsCardinality(s: State, col: int, row: int, d: nat, role: Role, hi: int)
    requires d < 4 && -3 <= hi <= 4
    ensures RoleCount(s, col, row, d, role, hi) == |set t | -3 <= t < hi && Holds(s, col, row, d, role, t)|
    decreases hi + 3
  {
    var held := set t | -3 <= t < hi && Holds(s, col, row, d, role, t);
    if hi == -3 {
      assert held == {};
    } else {
      RoleCountIsCardinality(s, col, row, d, role, hi - 1);
      var before := set t | -3 <= t < hi - 1 && Holds(s, col, row, d, role, t);
      if Holds(s, col, row, d, role, hi - 1) {
        assert held == before + {hi - 1};
      } else {
        assert held == before;
      }
    }
  }

  /** No on-board cell of the window holds the other role. */
  predicate Unblocked(s: State, col: int, row: int, d: nat, role: Role)
    requires d < 4
  {
    forall offset :: -3 <= offset <= 3 ==> !Blocks(s, col, row, d, role, offset)
  }

  /** Direction d scores 50 when its window is unblocked and holds at least three of the role's pieces. */
  function LineScore(s: State, col: int, row: int, d: nat, role: Role): (score: int)
    requires d < 4
    ensures score in {0, 50}
  {
    if Unblocked(s, col, row, d, role) && RoleCount(s, col, row, d, role, 4) >= 3 then 50 else 0
  }

  /** The first n directions. */
  function LineScores(s: State, col: int, row: int, role: Role, n: nat): (score: int)
    requires n <= 4
    ensures 0 <= score <= 50 * n && score % 50 == 0
  {
    if n == 0 then 0 else LineScores(s, col, row, role, n - 1) + LineScore(s, col, row, n - 1, role)
  }

  /** The value evaluate_position computes. */
  function PositionPotential(s: State, col: int, row: int, role: Role): (score: int)
    ensures score in {0, 50, 100, 150, 200}
  {
    LineScores(s, col, row, role, 4)
  }

  /** The window loop of one direction, with the source's reset and early exit on a blocking piece. */
  method ScanWindow(s: State, col: int, row: int, d: nat, role: Role) returns (potentialLine: int)
    requires d < 4
    ensures potentialLine == if Unblocked(s, col, row, d, role) then RoleCount(s, col, row, d, role, 4) else 0
  {
    var (dCol, dRow) := Directions[d];
    potentialLine := 0;
    for offset := -3 to 4
      invariant potentialLine == RoleCount(s, col, row, d, role, offset)
      invariant forall t :: -3 <= t < offset ==> !Blocks(s, col, row, d, role, t)
    {
      var c, r := col + offset * dCol, row + offset * dRow;
      if 0 <= c < s.numCols && 0 <= r < s.numRows {
        if s.board[c][r] == role {
          potentialLine := potentialLine + 1;
        } else if s.board[c][r] != Empty {
          assert Blocks(s, col, row, d, role, offset);
          potentialLine := 0;
          break;
        }
      }
    }
  }

  /** evaluate_position. */
  method EvaluatePosition(s: State, col: int, row: int, role: Role) returns (score: int)
    ensures score == PositionPotential(s, col, row, role)
  {
    score := 0;
    for d := 0 to |Directions|
      invariant score == LineScores(s, col, row, role, d)
    {
      var potentialLine := ScanWindow(s, col, row, d, role);
      if potentialLine >= 3 {
        score := score + 50;
      }
    }
  }
}
