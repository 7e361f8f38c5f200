/**
 * The game interface the agents consume. The board, the turn and the terminal
 * status of a Connect Four position live in connect_four.py, which is not part
 * of this model: a position is a value with the attributes the agents read,
 * and the rules (the legal moves of a position and the position a move leads
 * to) are two function values supplied by the caller.
 */
module ConnectFour {

  /** A move is a column number. */
  type Move = int

  /** The content of one board cell: '.', 'x' or 'o'. */
  datatype Cell = Empty | X | O

  /** A player's role: 'x' or 'o'. */
  type Role = c: Cell | c != Empty witness X

  /** The role that is not `r`. */
  function Other(r: Role): (o: Role)
    ensures o != r
  {
    if r == X then O else X
  }

  /**
   * A position: `board[i][j]` is the cell in column i and row j; `winner` is
   * Empty when nobody has won ('' in agents.py).
   */
  datatype GameState = GameState(
    numCols: nat,
    numRows: nat,
    board: seq<seq<Cell>>,
    turn: Role,
    isTerminal: bool,
    winner: Cell)
  {
    /** The board has numCols columns of numRows cells each. */
    predicate WellFormed()
    {
      |board| == numCols && forall i :: 0 <= i < |board| ==> |board[i]| == numRows
    }

    /** (c, r) names a cell of the board. */
    predicate CoordsLegal(c: int, r: int)
    {
      0 <= c < numCols && 0 <= r < numRows
    }
  }

  /** Every position the agents see has a board of the announced shape. */
  type State = s: GameState | s.WellFormed() witness GameState(0, 0, [], X, false, Empty)

  /** No move is listed twice. */
  predicate Distinct(moves: seq<Move>)
  {
    forall a, b :: 0 <= a < b < |moves| ==> moves[a] != moves[b]
  }

  /**
   * The rules of the game as the agents use them: `legalMoves` lists the
   * moves of a position in the order the game enumerates them, and `advance`
   * is the position a move leads to (a copy advanced by that move; the
   * argument is a value and so is never changed).
   */
  datatype Rules = Rules(legalMoves: State -> seq<Move>, advance: (State, Move) -> State)
  {
    /** A position that is not over has at least one move, and each move is listed once. */
    ghost predicate Valid()
    {
      forall s: State :: !s.isTerminal ==> |legalMoves(s)| > 0 && Distinct(legalMoves(s))
    }
  }
}
