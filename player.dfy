/**
 * The minimax agent: MinimaxPlayer searches the current position with minimax
 * and plays one of the moves whose successor has the largest value, chosen at
 * random among the ties.
 */
module Agents {
  import opened ConnectFour
  import opened Scoring
  import opened Search
  import opened ThreeLine
  import opened Positional

  /** The outcome of an operation that may raise. */
  datatype Result<T> = Ok(value: T) | Err(error: string)

  /** The largest value of a move of `moves`. */
  function TopValue(moves: seq<Move>, value: map<Move, int>): (top: int)
    requires |moves| > 0 && (forall m | m in moves :: m in value)
    ensures forall m | m in moves :: value[m] <= top
    ensures exists m | m in moves :: value[m] == top
    decreases |moves|
  {
    var last := moves[|moves| - 1];
    if |moves| == 1 then value[last]
    else
      var prefix := moves[..|moves| - 1];
      assert forall m | m in prefix :: m in moves;
      assert forall m | m in moves :: m in prefix || m == last;
      Max(TopValue(prefix, value), value[last])
  }

  /** The moves of `moves` whose value is `top`, in their order. */
  function Ties(moves: seq<Move>, value: map<Move, int>, top: int): (r: seq<Move>)
    requires forall m | m in moves :: m in value
    ensures forall m :: m in r <==> m in moves && value[m] == top
    decreases |moves|
  {
    if |moves| == 0 then []
    else
      var last := moves[|moves| - 1];
      var prefix := moves[..|moves| - 1];
      assert forall m | m in prefix :: m in moves;
      assert forall m | m in moves :: m in prefix || m == last;
      Ties(prefix, value, top) + (if value[last] == top then [last] else [])
  }

  /**
   * best_moves as the loop of play leaves it after the moves `moves`: a move
   * of larger value than the first kept one replaces them all, a move of
   * equal value joins them, and any other move is skipped.
   */
  function Leaders(moves: seq<Move>, value: map<Move, int>): (best: seq<Move>)
    requires forall m | m in moves :: m in value
    ensures forall m | m in best :: m in moves
    ensures |best| > 0 <==> |moves| > 0
    decreases |moves|
  {
    if |moves| == 0 then []
    else
      var move := moves[|moves| - 1];
      var prefix := moves[..|moves| - 1];
      assert forall m | m in prefix :: m in moves;
      var best := Leaders(prefix, value);
      assert |best| > 0 ==> best[0] in best && best[0] in prefix && best[0] in moves;
      if |best| == 0 || value[move] > value[best[0]] then [move]
      else if value[move] == value[best[0]] then best + [move]
      else best
  }

  /** No move of `moves` has value `top` when all of them are below it. */
  lemma {:induction false} TiesBelow(moves: seq<Move>, value: map<Move, int>, top: int)
    requires forall m | m in moves :: m in value
    requires forall m | m in moves :: value[m] < top
    ensures Ties(moves, value, top) == []
    decreases |moves|
  {
    if |moves| > 0 {
      var prefix := moves[..|moves| - 1];
      assert forall m | m in prefix :: m in moves;
      TiesBelow(prefix, value, top);
    }
  }

  /** The loop keeps exactly the moves of the largest value, in their order. */
  lemma {:induction false} LeadersAreTies(moves: seq<Move>, value: map<Move, int>)
    requires |moves| > 0 && (forall m | m in moves :: m in value)
    ensures Leaders(moves, value) == Ties(moves, value, TopValue(moves, value))
    decreases |moves|
  {
    var move := moves[|moves| - 1];
    var prefix := moves[..|moves| - 1];
    assert forall m | m in prefix :: m in moves;
    if |prefix| > 0 {
      LeadersAreTies(prefix, value);
      var best, top := Leaders(prefix, value), TopValue(prefix, value);
      assert best[0] in best;
      if value[move] > top {
        TiesBelow(prefix, value, value[move]);
      }
    }
  }

  /** A move is kept exactly when it is one of `moves` and no move of `moves` has a larger value. */
  lemma LeadersAreBest(moves: seq<Move>, value: map<Move, int>, m: Move)
    requires forall m | m in moves :: m in value
    ensures m in Leaders(moves, value) <==> m in moves && forall m' | m' in moves :: value[m'] <= value[m]
  {
    if |moves| > 0 {
      LeadersAreTies(moves, value);
    }
  }

  /** m is a legal move of s whose successor has the largest minimax value, searched one level less deep. */
  ghost predicate IsBestMove(g: Rules, s: State, depth: nat, maxRole: Role, h: Heuristic, m: Move)
    requires g.Valid() && depth > 0
  {
    && m in g.legalMoves(s)
    && forall m' | m' in g.legalMoves(s) :: ChildValue(g, s, m', depth - 1, maxRole, h) <= ChildValue(g, s, m, depth - 1, maxRole, h)
  }

  /**
   * The loop of play over the successors of the searched root, in their
   * enumeration order; `value` holds the successors' values.
   */
  method BestMoves(root: MinimaxNode, ghost value: map<Move, int>) returns (best: seq<Move>)
    requires forall m | m in root.order :: m in root.successors
    requires forall m | m in root.order :: m in value && value[m] == root.successors[m].value
    ensures best == Leaders(root.order, value)
  {
    best := [];
    for k := 0 to |root.order|
      invariant best == Leaders(root.order[..k], value)
    {
      var move := root.order[k];
      assert root.order[..k + 1][..k] == root.order[..k];
      ghost var first := if |best| > 0 then best[0] else move;
      assert |best| > 0 ==> first in best && first in root.order[..k] && first in root.order;
      if |best| == 0 || root.successors[move].value > root.successors[best[0]].value {
        best := [move];
      } else if root.successors[move].value == root.successors[best[0]].value {
        best := best + [move];
      }
    }
    assert root.order[..|root.order|] == root.order;
  }

  /**
   * What the search leaves at the root: no successors at depth 0 or on a
   * finished game; otherwise one successor per legal move, in their order,
   * each holding its move's minimax value one level less deep.
   */
  lemma RootValues(root: MinimaxNode, value: map<Move, int>, g: Rules, depth: nat, maxRole: Role, h: Heuristic)
    requires g.Valid() && root.Tree(g, depth, maxRole, h)
    requires value == map m | m in root.successors :: root.successors[m].value
    ensures forall m | m in root.order :: m in root.successors && m in value && value[m] == root.successors[m].value
    ensures depth == 0 || root.state.isTerminal ==> root.order == []
    ensures depth > 0 && !root.state.isTerminal ==>
              && root.order == g.legalMoves(root.state) && |root.order| > 0
              && forall m | m in root.order :: value[m] == ChildValue(g, root.state, m, depth - 1, maxRole, h)
  {
    if depth > 0 && !root.state.isTerminal {
      assert root.Inner(g, depth, maxRole, h);
      forall m | m in root.order
        ensures value[m] == ChildValue(g, root.state, m, depth - 1, maxRole, h)
      {
        var l :| 0 <= l < |root.order| && root.order[l] == m;
        assert root.successors[root.order[l]].Tree(g, depth - 1, maxRole, h);
      }
    }
  }

  /** An agent that plays the move minimax rates best. */
  class MinimaxPlayer {
    /** Empty until initialize gives the agent its role ('' in agents.py). */
    var role: Cell
    var depth: nat
    var heur: Heuristic

    constructor (depth: nat, heur: Heuristic)
      ensures role == Empty && this.depth == depth && this.heur == heur
    {
      role := Empty;
      this.depth := depth;
      this.heur := heur;
    }

    /** Called once at the start of a game with the agent's role. */
    method Initialize(role: Role)
      modifies this
      ensures this.role == role && depth == old(depth) && heur == old(heur)
    {
      this.role := role;
    }

    /**
     * play: searches `state` to `depth` with minimax for the agent's role and
     * returns a legal move whose successor has the largest value; when the
     * search expands nothing (depth 0 or a finished game) the choice among no
     * moves raises.
     */
    method Play(state: State, g: Rules) returns (r: Result<Move>)
      requires g.Valid() && role != Empty
      ensures r.Err? <==> depth == 0 || state.isTerminal
      ensures r.Ok? ==> IsBestMove(g, state, depth, role, heur, r.value)
      ensures r.Ok? && state.turn == role ==>
                ChildValue(g, state, r.value, depth - 1, role, heur) == MinimaxValue(g, state, depth, role, heur)
    {
      var root := new MinimaxNode(state);
      var _ := Minimax(root, depth, role, g, heur);
      ghost var value := map m | m in root.successors :: root.successors[m].value;
      RootValues(root, value, g, depth, role, heur);
      var best := BestMoves(root, value);
      if |best| == 0 {
        return Err("empty range for randrange");
      }
      var i :| 0 <= i < |best|;
      ChosenIsBest(root, value, best[i], g, depth, role, heur);
      return Ok(best[i]);
    }
  }

  /** A move best_moves keeps is a best move of the searched root. */
  lemma ChosenIsBest(root: MinimaxNode, value: map<Move, int>, m: Move, g: Rules, depth: nat, maxRole: Role,
                     h: Heuristic)
    requires g.Valid() && depth > 0 && !root.state.isTerminal && (forall m | m in root.order :: m in value)
    requires root.order == g.legalMoves(root.state)
    requires forall m' | m' in root.order :: value[m'] == ChildValue(g, root.state, m', depth - 1, maxRole, h)
    requires m in Leaders(root.order, value)
    ensures IsBestMove(g, root.state, depth, maxRole, h, m)
    ensures root.state.turn == maxRole ==>
              ChildValue(g, root.state, m, depth - 1, maxRole, h) == MinimaxValue(g, root.state, depth, maxRole, h)
  {
    LeadersAreBest(root.order, value, m);
    if root.state.turn == maxRole {
      MinimaxRule(g, root.state, depth, maxRole, h);
    }
  }

  /** The three heuristics change sign when the maximizing role is swapped. */
  lemma HeuristicsAntisymmetric()
    ensures Antisymmetric(ZeroHeur) && Antisymmetric(ThreeLineValue) && Antisymmetric(MyHeuristicValue)
  {
    forall t: State, r: Role
      ensures ZeroHeur(t, Other(r)) == -ZeroHeur(t, r)
      ensures ThreeLineValue(t, Other(r)) == -ThreeLineValue(t, r)
      ensures MyHeuristicValue(t, Other(r)) == -MyHeuristicValue(t, r)
    {
      ZeroHeurNegates(t, r);
      ThreeLineNegates(t, r);
      MyHeuristicNegates(t, r);
    }
  }

  /** With any of the three heuristics, the search is zero sum: the other role's value is the negation. */
  lemma ZeroSumSearch(g: Rules, s: State, depth: nat, maxRole: Role)
    requires g.Valid()
    ensures MinimaxValue(g, s, depth, Other(maxRole), ZeroHeur) == -MinimaxValue(g, s, depth, maxRole, ZeroHeur)
    ensures MinimaxValue(g, s, depth, Other(maxRole), ThreeLineValue) == -MinimaxValue(g, s, depth, maxRole, ThreeLineValue)
    ensures MinimaxValue(g, s, depth, Other(maxRole), MyHeuristicValue)
            == -MinimaxValue(g, s, depth, maxRole, MyHeuristicValue)
  {
    HeuristicsAntisymmetric();
    MinimaxNegates(g, s, depth, maxRole, ZeroHeur);
    MinimaxNegates(g, s, depth, maxRole, ThreeLineValue);
    MinimaxNegates(g, s, depth, maxRole, MyHeuristicValue);
  }
}
