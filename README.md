# Connect Four minimax agent, modelled in Dafny

This project models the decision logic of the Connect Four agent in `agents.py`:

- the search tree of `MinimaxNode` objects;
- the depth-limited `minimax` search without pruning, which builds that tree in place;
- the board-scoring functions `zero_heur`, `three_line_heur`, `my_heuristic` and `evaluate_position`;
- the best-move selection of `MinimaxPlayer.play`.

The game itself (`connect_four.py`) is not part of this model. A position is the value `ConnectFour.State`. It has:

- a board of `numCols` columns of `numRows` cells (`'.'`, `'x'`, `'o'`);
- the side to move;
- the terminal flag;
- the winner.

The two rules the agent uses are function values in `ConnectFour.Rules`:

- the legal moves of a position, in the order the game lists them;
- the position a move leads to.

`Rules.Valid` asks that an unfinished position has at least one legal move and lists no move twice.

Files and modules:

- `game.dfy` (`ConnectFour`): positions, roles and the rules interface.
- `scoring.dfy` (`Scoring`): the direction tables, the terminal score shared by the heuristics, and `zero_heur`.
- `three_line.dfy` (`ThreeLine`): `three_line_heur`.
- `positional.dfy` (`Positional`): `my_heuristic`.
- `potential.dfy` (`Potential`): `evaluate_position`.
- `search.dfy` (`Search`): the minimax value, the `MinimaxNode` class and the `minimax` search.
- `player.dfy` (`Agents`): `MinimaxPlayer` and its move selection.

`three_line_heur`, `my_heuristic` and `evaluate_position` are each written twice:

- a recursive function states the value it computes;
- a method keeps the source's nested loops, early exits and accumulators, and is proved equal to that function.

`zero_heur` has no loop and is the single function `Scoring.ZeroHeur`.

The search is also written twice:

- `Search.MinimaxValue` is the value minimax computes;
- `Search.Minimax` builds the tree of `MinimaxNode` objects in place.

`Search.MinimaxNode.Tree` describes the tree `Minimax` leaves behind. Its value is `MinimaxValue`. A leaf has no successors. An inner node has one fresh child per legal move, in enumeration order, each holding its move's position. The children share no objects.

## Model

| member | source | states |
|---|---|---|
| Search.MinimaxValue | agents.py:58-79 | definition: the heuristic at depth 0 or on a finished game, otherwise the max (maxRole to move) or min of the children's values one level less deep |
| Search.BestOf | agents.py:70-79 | definition: the running max or min over the children's values, folded in enumeration order |
| Search.MinimaxNode.constructor | agents.py:15-25 | a new node holds the given position, value 0 and no successors |
| Search.Minimax | agents.py:41-79 | minimax leaves the node's position unchanged and the node, with fresh descendants, a `Tree`: its value and the returned value are `MinimaxValue`, a leaf has no successors, and each legal move has a child searched one level less deep |
| Search.Expand | agents.py:63-68 | the successor keys are exactly the legal moves, in order; each child is a fresh unexpanded node holding the parent advanced by its move; the parent's position and value are unchanged |
| Search.SearchChildren | agents.py:70-79 | each child is searched one level less deep with the same maximizing role, and the result is the running max (maxRole to move) or min of the children's values, in enumeration order |
| Search.SearchChild | agents.py:72-73 | one recursive call: the child becomes a searched subtree, and the value returned is the child's minimax value |
| Search.Settle | agents.py:70-79 | the node's value becomes the fold of its children's values, and the node is a finished `Tree` |
| Search.FoldIsBestOf | agents.py:70-79 | the running max/min of the children's values equals the fold `BestOf` that `MinimaxValue` uses |
| Search.MinimaxRule | agents.py:70-79 | for an unfinished position at depth > 0, the value bounds every child's value (above when maxRole is to move, below otherwise) and equals one of them |
| Search.BestOfIsExtremum | agents.py:71-78 | the running max (min) over a move list bounds every child's value and is attained by one of them |
| Search.TerminalIgnoresDepth | agents.py:59-61 | on a finished game the value is the heuristic's whatever the depth |
| Search.MinimaxWithinBound | agents.py:59-79 | a heuristic within [-b, b] keeps the minimax value within [-b, b] |
| Search.MinimaxNegates | agents.py:70-79 | with a heuristic that changes sign when the roles are swapped, searching for the other role negates the value |
| Search.BestOfNegates | agents.py:70-79 | swapping max for min and the role for the other role negates the fold over the children |
| Search.ZeroHeurSearchIsZero | agents.py:59-79 | with `zero_heur`, a search that meets no finished game within its depth values the position 0 |
| Scoring.TerminalScore | agents.py:102-108 | a finished game scores 0 exactly when nobody won, 100 exactly when maxRole won, and -100 exactly when the other role won |
| Scoring.ZeroHeur | agents.py:149-158 | `zero_heur` is 0 on every unfinished position; it is ±100 exactly when the game is finished and won by maxRole or by the other role |
| Scoring.ZeroHeurNegates | agents.py:149-158 | swapping the maximizing role negates `zero_heur` |
| Scoring.SignedNegates | agents.py:123-126 | a contribution counted for or against maxRole changes sign when the roles are swapped |
| ThreeLine.ThreeLineValue | agents.py:101-129 | definition: the terminal score on a finished game, otherwise `GridTriples` over every column |
| ThreeLine.GridTriples | agents.py:111-129 | definition: the sum of the column sums over the first n columns |
| ThreeLine.TripleScore | agents.py:119-126 | definition: one occupied cell and direction gives ±1 for a triple with the farthest cell on the board, else 0; the result lies in [-1, 1] |
| ThreeLine.ThreeLineHeur | agents.py:97-130 | the nested while loops compute `ThreeLineValue`: the terminal score, or the sum over occupied cells and directions of the signed triple tests |
| ThreeLine.PieceTriples | agents.py:115-127 | the direction loop of one occupied cell adds exactly that cell's triple count |
| ThreeLine.TripleScoreCounts | agents.py:119-126 | one cell and direction counts +1 exactly when maxRole has a triple there (the farthest cell on the board), -1 exactly when the other role has one, and 0 otherwise |
| ThreeLine.DirTriples | agents.py:118-127 | the first n directions of a cell add at most n in absolute value |
| ThreeLine.CellTriples | agents.py:115-127 | one cell adds at most 4 in absolute value |
| ThreeLine.ColumnTriples | agents.py:113-128 | a column's first n cells add at most 4n in absolute value |
| ThreeLine.GridTriplesBounded | agents.py:111-129 | the first n columns add at most 4 · numRows · n in absolute value |
| ThreeLine.DirTriplesNegate | agents.py:118-127 | swapping the roles negates a cell's direction sum |
| ThreeLine.ColumnTriplesNegate | agents.py:113-128 | swapping the roles negates a column's sum |
| ThreeLine.GridTriplesNegate | agents.py:111-129 | swapping the roles negates the board's sum |
| ThreeLine.ThreeLineNegates | agents.py:97-130 | swapping the maximizing role negates `three_line_heur`, on finished and unfinished games |
| ThreeLine.ThreeLineBounded | agents.py:111-130 | on an unfinished game, \|`three_line_heur`\| ≤ 4 · numCols · numRows |
| Positional.MyHeuristicValue | agents.py:179-245 | definition: the terminal score on a finished game, otherwise `GridScores` over every column |
| Positional.GridScores | agents.py:189-245 | definition: the sum of the column sums over the first n columns |
| Positional.CentreBonus | agents.py:193-198 | definition: ±2 for an occupied cell in column numCols / 2 (integer division), + exactly when the piece is maxRole's, else 0 |
| Positional.OppositeOpen | agents.py:217-221 | definition: 1 when the cell one step behind the piece in the direction is on the board and empty, else 0 |
| Positional.ForwardRun | agents.py:203-215 | definition: the forward scan with its three breaks; it counts at most 4 - dist pieces and meets at most one open end |
| Positional.RunScore | agents.py:224-244 | definition: the 5/10/7/3/0 table by in_a_row and open_ends; the size is one of 0, 3, 5, 7, 10 |
| Positional.DirScore | agents.py:200-244 | definition: one direction's signed RunScore, counting the open cell behind the piece; it lies in [-10, 10] |
| Positional.MyHeuristic | agents.py:162-245 | the nested for loops compute `MyHeuristicValue`: the terminal score, or the sum over occupied cells of the centre bonus and the four direction scores |
| Positional.PieceScore | agents.py:191-244 | one occupied cell adds its ±2 centre-column bonus plus its four direction scores |
| Positional.DirectionScore | agents.py:200-244 | one direction adds ±RunScore(in_a_row, open_ends), the sign + exactly when the piece is maxRole's |
| Positional.ScanAhead | agents.py:201-215 | the forward scan with its early breaks returns the run and open end of `ForwardRun` |
| Positional.ForwardRunSpec | agents.py:203-215 | the scan counts exactly the equal pieces up to the first other cell, the edge or distance 3, and meets an open end exactly when that first other cell is on the board and empty |
| Positional.RunRanges | agents.py:201-221 | in_a_row lies in 0..3 and open_ends in 0..2 |
| Positional.FullRunScoresNothing | agents.py:224-244 | a piece followed by three equal pieces in a direction scores nothing for it |
| Positional.DirScores | agents.py:200-244 | the first n directions of a cell add at most 10n in absolute value |
| Positional.CellScore | agents.py:191-244 | one cell adds at most 42 in absolute value |
| Positional.ColumnScores | agents.py:190-244 | a column's first n cells add at most 42n in absolute value |
| Positional.GridScoresBounded | agents.py:189-245 | the first n columns add at most 42 · numRows · n in absolute value |
| Positional.DirScoresNegate | agents.py:200-244 | swapping the roles negates a cell's direction sum |
| Positional.ColumnScoresNegate | agents.py:190-244 | swapping the roles negates a column's sum |
| Positional.GridScoresNegate | agents.py:189-245 | swapping the roles negates the board's sum |
| Positional.MyHeuristicNegates | agents.py:162-245 | swapping the maximizing role negates `my_heuristic` |
| Positional.MyHeuristicBounded | agents.py:188-245 | on an unfinished game, \|`my_heuristic`\| ≤ 42 · numCols · numRows |
| Potential.EvaluatePosition | agents.py:249-269 | the direction loop computes `PositionPotential`: 50 for each direction whose window is unblocked and holds at least three of the role's pieces |
| Potential.ScanWindow | agents.py:257-265 | one window scan returns the number of the role's pieces at offsets -3..3 when no on-board cell holds the other role, and 0 otherwise |
| Potential.RoleCount | agents.py:258-262 | definition: the number of offsets in -3..hi-1 whose on-board window cell holds the role |
| Potential.Unblocked | agents.py:258-265 | definition: no on-board cell of the seven-cell window holds the other role |
| Potential.LineScore | agents.py:266-267 | definition: 50 when the window is unblocked and holds at least three of the role's pieces, else 0 |
| Potential.RoleCountIsCardinality | agents.py:258-262 | the count potential_line accumulates is the number of offsets in -3..hi-1 whose on-board window cell holds the role |
| Potential.LineScores | agents.py:256-267 | the first n directions give a multiple of 50 in [0, 50n] |
| Potential.PositionPotential | agents.py:249-269 | `evaluate_position` is one of 0, 50, 100, 150, 200 |
| Agents.MinimaxPlayer.constructor | agents.py:278-293 | a new player has no role yet and the given depth and heuristic |
| Agents.MinimaxPlayer.Initialize | agents.py:295-302 | initialize sets the role and keeps the depth and heuristic |
| Agents.MinimaxPlayer.Play | agents.py:304-324 | play raises exactly when the depth is 0 or the game is finished; otherwise it returns a legal move whose successor has the largest minimax value, and when it is the player's turn that value is the root's minimax value |
| Agents.BestMoves | agents.py:318-323 | the loop over the root's successors leaves `best_moves` equal to `Leaders` of the successor values |
| Agents.LeadersAreTies | agents.py:318-323 | `best_moves` is exactly the moves whose value is the largest, in enumeration order |
| Agents.LeadersAreBest | agents.py:318-323 | a move is kept exactly when it is a successor move and no successor has a larger value |
| Agents.Leaders | agents.py:318-323 | `best_moves` only holds successor moves and is non-empty exactly when there is a successor |
| Agents.TopValue | agents.py:318-323 | the largest successor value bounds every successor's value and is attained |
| Agents.Ties | agents.py:318-323 | the reference filter keeps exactly the moves of the given value |
| Agents.RootValues | agents.py:316-317 | after the search, the root has no successors at depth 0 or on a finished game; otherwise its successors are the legal moves, each holding its move's minimax value |
| Agents.ChosenIsBest | agents.py:324 | a move taken from `best_moves` is a best legal move, and when maxRole is to move its value is the root's minimax value |
| Agents.HeuristicsAntisymmetric | agents.py:97-245 | each of the three heuristics changes sign when the maximizing role is swapped |
| Agents.ZeroSumSearch | agents.py:41-79 | with any of the three heuristics, searching for the other role negates the minimax value |

## Left out

- `connect_four.py` is not part of this model: `State`, `Game`, `Player`, win detection and `advance_state` are abstract. Positions are values, and the rules are function values supplied by the caller.
- `coords_legal` (in `connect_four.py`) is taken to be the board-bounds test `0 <= c < num_cols and 0 <= r < num_rows`, the same test `evaluate_position` writes out at agents.py:260. The triple and scan proofs rely on this.
- `deepcopy` of the parent state (agents.py:65-67): the position a move leads to is a new value, so the parent cannot be changed.
- `Rules.Valid` assumes that an unfinished position has at least one legal move, listed once. The model does not cover a non-terminal position with no moves (where the source's value stays ±inf), or a move listed twice (where the dictionary would keep only the last child).
- The float ±inf sentinels (agents.py:71, 76) are not modelled. The running max/min starts from the first child's value instead, which gives the same result once there is at least one child.
- Search.Minimax: the source writes `node.value` and inserts into `node.successors` while it loops. The model differs in three ways:
  - `Expand` builds the successor map and key order in locals and stores them on the node after the loop;
  - `SearchChildren` keeps the running value in a local, which `Settle` stores on the node;
  - the loop body is the separate method `SearchChild`.
  No other code observes the node between those steps.
- Dictionary order is modelled by the `order` field: the keys in insertion order.
- `MinimaxNode.__eq__` (agents.py:27-37), recursive structural equality of node graphs, is not modelled. The search and the player do not use it.
- Heuristic values are integers. The source's type hints allow floats, but every heuristic here returns an integer.
- Negative depth is not modelled: depth is a `nat`. The source does not guard against it.
- Agents.MinimaxPlayer.Play requires a role. The source would search with the role `''` if `initialize` had not been called. The model sets the role to `Empty` in the constructor and asks for a real role in `Play`.
- Agents.MinimaxPlayer.Play: `randint` is modelled as a nondeterministic choice among the tied moves. Its statistical fairness is not modelled. The error raised for an empty range is modelled as `Err`.
- `display` and `state.display()` (agents.py:314-315), `HumanPlayer`, `RandomPlayer`, `FirstMovePlayer` and the `__main__` script are not modelled: they are console I/O and randomness around the agents.
- Unused imports (`heapq`, `time`, `argparse`) are not modelled.

Behaviour of the code that the model keeps as written:

- `three_line_heur` checks only that the cell two steps away is on the board (agents.py:119-126). It asks nothing of a fourth cell and counts every aligned triple, so a line of four counts twice.
- In `my_heuristic`, `in_a_row` counts the equal pieces ahead of the piece, not the piece itself, and a full run (`in_a_row == 3`) scores nothing (agents.py:201-244).
- `evaluate_position` counts the role's pieces anywhere in the seven-cell window, with empty cells allowed between them, and scores 0 for a direction when any on-board cell of its window holds the other role (agents.py:258-265).
- The heuristics' values on unfinished games are not kept within ±100: the bounds `ThreeLine.ThreeLineBounded` and `Positional.MyHeuristicBounded` grow with the board, and the model claims no tighter bound.
