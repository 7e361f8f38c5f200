/**
 * What the heuristics of agents.py share: the exact score of a finished game,
 * the sign of a piece's contribution, the four scan directions, and the null
 * heuristic.
 */
module Scoring {
  import opened ConnectFour

  /** Column and row steps of the directions (1,0), (1,1), (0,1), (-1,1). */
  const ColDirs: seq<int> := [1, 1, 0, -1]
  const RowDirs: seq<int> := [0, 1, 1, 1]

  /** The column t steps from column i in direction d, written out per direction: i + t * ColDirs[d]. */
  function AheadCol(i: int, d: nat, t: int): int
    requires d < 4
  {
    if d == 2 then i else if d == 3 then i - t else i + t
  }

  /** The row t steps from row j in direction d: j + t * RowDirs[d]. */
  function AheadRow(j: int, d: nat, t: int): int
    requires d < 4
  {
    if d == 0 then j else j + t
  }

  /** The per-direction forms agree with the source's products. */
  lemma AheadIsScaled(i: int, j: int, d: nat, t: int)
    requires d < 4
    ensures AheadCol(i, d, t) == i + t * ColDirs[d]
    ensures AheadRow(j, d, t) == j + t * RowDirs[d]
  {
  }

  /** b * n unfolds to b * (n - 1) + b. */
  lemma MulStep(b: int, n: int)
    ensures b * n == b * (n - 1) + b
  {
  }

  /**
   * The true value of a finished game for maxRole: 0 for a draw, 100 when
   * maxRole has won, -100 when the other role has won.
   */
  function TerminalScore(s: State, maxRole: Role): (r: int)
    ensures r == 0 <==> s.winner == Empty
    ensures r == 100 <==> s.winner == maxRole
    ensures r == -100 <==> s.winner == Other(maxRole)
  {
    if s.winner == Empty then 0
    else if s.winner == maxRole then 100
    else -100
  }

  /** A contribution of size k, counted for maxRole when the piece is its own and against it otherwise. */
  function Signed(piece: Role, maxRole: Role, k: int): int
  {
    if piece == maxRole then k else -k
  }

  /** The signed contribution changes sign when the roles are swapped. */
  lemma SignedNegates(piece: Role, maxRole: Role, k: int)
    ensures Signed(piece, Other(maxRole), k) == -Signed(piece, maxRole, k)
  {
  }

  /** The null heuristic: the true value of a finished game, 0 for every other position. */
  function ZeroHeur(s: State, maxRole: Role): (r: int)
    ensures !s.isTerminal ==> r == 0
    ensures r == 100 <==> s.isTerminal && s.winner == maxRole
    ensures r == -100 <==> s.isTerminal && s.winner == Other(maxRole)
  {
    if s.isTerminal then TerminalScore(s, maxRole) else 0
  }

  /** Swapping the maximizing role negates the null heuristic. */
  lemma ZeroHeurNegates(s: State, maxRole: Role)
    ensures ZeroHeur(s, Other(maxRole)) == -ZeroHeur(s, maxRole)
  {
  }
}
