/**
 * minimax: depth-limited minimax search without pruning. The value the search
 * computes is given by MinimaxValue; the search itself builds a tree of
 * MinimaxNode objects in place and caches each node's value on the node.
 */
module Search {
  import opened ConnectFour
  import opened Scoring

  /** A heuristic scores a position for the maximizing role. */
  type Heuristic = (State, Role) -> int

  function Max(a: int, b: int): int { if a >= b then a else b }
  function Min(a: int, b: int): int { if a <= b then a else b }

  /**
   * The value minimax returns: the heuristic at depth 0 or on a finished game;
   * otherwise the maximum (maxRole to move) or the minimum (the other role to
   * move) of the values of the positions the legal moves lead to, searched one
   * level less deep with the same maximizing role.
   */
  function MinimaxValue(g: Rules, s: State, depth: nat, maxRole: Role, h: Heuristic): int
    requires g.Valid()
    decreases depth, 0
  {
    if depth == 0 || s.isTerminal then h(s, maxRole)
    else BestOf(g, s, g.legalMoves(s), depth - 1, maxRole, h, s.turn == maxRole)
  }

  /** The value of the position move m leads to, searched to the given depth. */
  function ChildValue(g: Rules, s: State, m: Move, depth: nat, maxRole: Role, h: Heuristic): int
    requires g.Valid()
  {
    MinimaxValue(g, g.advance(s, m), depth, maxRole, h)
  }

  /**
   * The running max (or min) over the children reached by `moves`, folded from
   * the first move to the last as the source's loop does.
   */
  function BestOf(g: Rules, s: State, moves: seq<Move>, depth: nat, maxRole: Role, h: Heuristic, maximize: bool): int
    requires g.Valid() && |moves| > 0
    decreases depth, |moves|
  {
    var last := MinimaxValue(g, g.advance(s, moves[|moves| - 1]), depth, maxRole, h);
    if |moves| == 1 then last
    else
      var acc := BestOf(g, s, moves[..|moves| - 1], depth, maxRole, h, maximize);
      if maximize then Max(acc, last) else Min(acc, last)
  }

  /** The fold is the maximum (or minimum): it bounds every child's value and is one of them. */
  lemma {:induction false} BestOfIsExtremum(g: Rules, s: State, moves: seq<Move>, depth: nat, maxRole: Role,
                                            h: Heuristic, maximize: bool)
    requires g.Valid() && |moves| > 0
    ensures var b := BestOf(g, s, moves, depth, maxRole, h, maximize);
      && (forall k :: 0 <= k < |moves| ==>
            if maximize then ChildValue(g, s, moves[k], depth, maxRole, h) <= b
            else b <= ChildValue(g, s, moves[k], depth, maxRole, h))
      && (exists k :: 0 <= k < |moves| && ChildValue(g, s, moves[k], depth, maxRole, h) == b)
  {
    if |moves| > 1 {
      var prefix := moves[..|moves| - 1];
      BestOfIsExtremum(g, s, prefix, depth, maxRole, h, maximize);
      var j :| 0 <= j < |prefix| && ChildValue(g, s, prefix[j], depth, maxRole, h)
                                    == BestOf(g, s, prefix, depth, maxRole, h, maximize);
      assert prefix[j] == moves[j];
      assert forall k :: 0 <= k < |prefix| ==> prefix[k] == moves[k];
    }
  }

  /**
   * The max/min rule: when maxRole is to move, the value of an unfinished
   * position searched to depth > 0 is the largest value of its children
   * searched to depth - 1; when the other role is to move it is the smallest.
   */
  lemma MinimaxRule(g: Rules, s: State, depth: nat, maxRole: Role, h: Heuristic)
    requires g.Valid() && depth > 0 && !s.isTerminal
    ensures var v := MinimaxValue(g, s, depth, maxRole, h);
      && (forall m :: m in g.legalMoves(s) ==>
            if s.turn == maxRole then ChildValue(g, s, m, depth - 1, maxRole, h) <= v
            else v <= ChildValue(g, s, m, depth - 1, maxRole, h))
      && (exists m :: m in g.legalMoves(s) && ChildValue(g, s, m, depth - 1, maxRole, h) == v)
  {
    var moves := g.legalMoves(s);
    BestOfIsExtremum(g, s, moves, depth - 1, maxRole, h, s.turn == maxRole);
    var k :| 0 <= k < |moves| && ChildValue(g, s, moves[k], depth - 1, maxRole, h)
                                 == MinimaxValue(g, s, depth, maxRole, h);
    assert moves[k] in moves;
  }

  /** On a finished game the search depth does not matter: the value is the heuristic's. */
  lemma TerminalIgnoresDepth(g: Rules, s: State, d1: nat, d2: nat, maxRole: Role, h: Heuristic)
    requires g.Valid() && s.isTerminal
    ensures MinimaxValue(g, s, d1, maxRole, h) == MinimaxValue(g, s, d2, maxRole, h) == h(s, maxRole)
  {
  }

  /** A heuristic that stays within [-bound, bound] keeps the search's value there. */
  lemma {:induction false} MinimaxWithinBound(g: Rules, s: State, depth: nat, maxRole: Role, h: Heuristic, bound: int)
    requires g.Valid()
    requires forall t: State :: -bound <= h(t, maxRole) <= bound
    ensures -bound <= MinimaxValue(g, s, depth, maxRole, h) <= bound
    decreases depth
  {
    if depth > 0 && !s.isTerminal {
      var moves := g.legalMoves(s);
      BestOfIsExtremum(g, s, moves, depth - 1, maxRole, h, s.turn == maxRole);
      var k :| 0 <= k < |moves| && ChildValue(g, s, moves[k], depth - 1, maxRole, h)
                                   == MinimaxValue(g, s, depth, maxRole, h);
      MinimaxWithinBound(g, g.advance(s, moves[k]), depth - 1, maxRole, h, bound);
    }
  }

  /** The heuristic changes sign when the maximizing role is swapped. */
  ghost predicate Antisymmetric(h: Heuristic)
  {
    forall t: State, r: Role :: h(t, Other(r)) == -h(t, r)
  }

  /**
   * Zero sum: with an antisymmetric heuristic, searching for the other role
   * gives the negated value (the max of one side is the min of the other).
   */
  lemma {:induction false} MinimaxNegates(g: Rules, s: State, depth: nat, maxRole: Role, h: Heuristic)
    requires g.Valid() && Antisymmetric(h)
    ensures MinimaxValue(g, s, depth, Other(maxRole), h) == -MinimaxValue(g, s, depth, maxRole, h)
    decreases depth, 0
  {
    if depth > 0 && !s.isTerminal {
      BestOfNegates(g, s, g.legalMoves(s), depth - 1, maxRole, h, s.turn == maxRole);
    }
  }

  lemma {:induction false} BestOfNegates(g: Rules, s: State, moves: seq<Move>, depth: nat, maxRole: Role,
                                         h: Heuristic, maximize: bool)
    requires g.Valid() && Antisymmetric(h) && |moves| > 0
    ensures BestOf(g, s, moves, depth, Other(maxRole), h, !maximize) == -BestOf(g, s, moves, depth, maxRole, h, maximize)
    decreases depth, |moves|
  {
    MinimaxNegates(g, g.advance(s, moves[|moves| - 1]), depth, maxRole, h);
    if |moves| > 1 {
      BestOfNegates(g, s, moves[..|moves| - 1], depth, maxRole, h, maximize);
    }
  }

  /** No finished game within `depth` moves of s (s itself included). */
  ghost predicate NoTerminalWithin(g: Rules, s: State, depth: nat)
    decreases depth
  {
    !s.isTerminal && (depth > 0 ==> forall m :: m in g.legalMoves(s) ==> NoTerminalWithin(g, g.advance(s, m), depth - 1))
  }

  /** With the null heuristic, a search that meets no finished game values every position 0. */
  lemma {:induction false} ZeroHeurSearchIsZero(g: Rules, s: State, depth: nat, maxRole: Role)
    requires g.Valid() && NoTerminalWithin(g, s, depth)
    ensures MinimaxValue(g, s, depth, maxRole, ZeroHeur) == 0
    decreases depth
  {
    if depth > 0 {
      var moves := g.legalMoves(s);
      BestOfIsExtremum(g, s, moves, depth - 1, maxRole, ZeroHeur, s.turn == maxRole);
      var k :| 0 <= k < |moves| && ChildValue(g, s, moves[k], depth - 1, maxRole, ZeroHeur)
                                   == MinimaxValue(g, s, depth, maxRole, ZeroHeur);
      assert moves[k] in moves;
      ZeroHeurSearchIsZero(g, g.advance(s, moves[k]), depth - 1, maxRole);
    }
  }

  /**
   * One node of the search tree: its position, its (heuristic) value, and its
   * successors keyed by move. `order` lists the successors' keys in insertion
   * order, the order in which the Python dict enumerates them.
   */
  class MinimaxNode {
    var state: State
    var value: int
    var successors: map<Move, MinimaxNode>
    var order: seq<Move>
    ghost var Repr: set<object>

    constructor (state: State)
      ensures this.state == state && value == 0 && successors == map[] && order == []
      ensures Repr == {this}
    {
      this.state := state;
      value := 0;
      successors := map[];
      order := [];
      Repr := {this};
    }

    /**
     * The subtree rooted here is what minimax(this, depth, maxRole, h) leaves
     * behind: the value is MinimaxValue; a leaf (depth 0 or a finished game)
     * has no successors; an inner node has one fresh child per legal move, in
     * the enumeration order, holding the position that move leads to, and
     * each child is itself such a subtree one level less deep. Children share
     * no objects with each other or with this node.
     */
    ghost predicate Tree(g: Rules, depth: nat, maxRole: Role, h: Heuristic)
      requires g.Valid()
      reads this, Repr
      decreases depth, 1
    {
      && this in Repr
      && value == MinimaxValue(g, state, depth, maxRole, h)
      && if depth == 0 || state.isTerminal then successors == map[] && order == []
         else Inner(g, depth, maxRole, h)
    }

    /** The successors of an inner node: the children of Tree. */
    ghost predicate Inner(g: Rules, depth: nat, maxRole: Role, h: Heuristic)
      requires g.Valid() && depth > 0
      reads this, Repr
      decreases depth, 0
    {
      && order == g.legalMoves(state)
      && (forall m :: m in successors <==> m in order)
      && (forall l | 0 <= l < |order| ::
            && order[l] in successors
            && successors[order[l]] in Repr
            && successors[order[l]].Repr <= Repr
            && this !in successors[order[l]].Repr)
      && (forall l, l' | 0 <= l < |order| && 0 <= l' < |order| && l != l' ::
            successors[order[l]].Repr !! successors[order[l']].Repr)
      && (forall l | 0 <= l < |order| ::
            && successors[order[l]].state == g.advance(state, order[l])
            && successors[order[l]].Tree(g, depth - 1, maxRole, h))
    }

    /** A node as the constructor leaves it. */
    ghost predicate Unexpanded()
      reads this
    {
      successors == map[] && order == [] && Repr == {this}
    }
  }

  /** `kids` are the successors of a node, listed in the order of `order`. */
  ghost predicate ChildrenInOrder(order: seq<Move>, successors: map<Move, MinimaxNode>, kids: seq<MinimaxNode>)
  {
    && |kids| == |order|
    && (forall m :: m in successors <==> m in order)
    && (forall l | 0 <= l < |order| :: order[l] in successors && successors[order[l]] == kids[l])
  }

  /** No node is listed twice. */
  ghost predicate DistinctNodes(kids: seq<MinimaxNode>)
  {
    forall l, l' | 0 <= l < l' < |kids| :: kids[l] != kids[l']
  }

  /**
   * The running maximum (or minimum) of `vals`, from the first to the last:
   * BestOf over the values themselves rather than over moves, so that the
   * loop of SearchChildren reasons about plain integers; FoldIsBestOf ties
   * the two.
   */
  function Fold(vals: seq<int>, maximize: bool): int
    requires |vals| > 0
  {
    var last := vals[|vals| - 1];
    if |vals| == 1 then last
    else if maximize then Max(Fold(vals[..|vals| - 1], maximize), last)
    else Min(Fold(vals[..|vals| - 1], maximize), last)
  }

  /** Folding one more value. */
  lemma FoldStep(vals: seq<int>, v: int, maximize: bool, acc: int, next: int)
    requires |vals| > 0 ==> acc == Fold(vals, maximize)
    requires next == if |vals| == 0 then v else if maximize then Max(acc, v) else Min(acc, v)
    ensures next == Fold(vals + [v], maximize)
  {
    assert (vals + [v])[..|vals|] == vals;
  }

  /** Folding the children's values is the fold BestOf makes. */
  lemma {:induction false} FoldIsBestOf(vals: seq<int>, g: Rules, s: State, moves: seq<Move>, depth: nat, maxRole: Role,
                                        h: Heuristic, maximize: bool)
    requires g.Valid() && |vals| == |moves| > 0
    requires forall l | 0 <= l < |moves| :: vals[l] == ChildValue(g, s, moves[l], depth, maxRole, h)
    ensures Fold(vals, maximize) == BestOf(g, s, moves, depth, maxRole, h, maximize)
    decreases |moves|
  {
    var n := |moves| - 1;
    if n > 0 {
      FoldIsBestOf(vals[..n], g, s, moves[..n], depth, maxRole, h, maximize);
    }
  }

  /**
   * Each of `kids` is a finished subtree, searched to `depth`, of the position
   * its move leads to from s, with value `vals`; their objects lie in `objs`
   * and no two share one.
   */
  ghost predicate Searched(kids: seq<MinimaxNode>, vals: seq<int>, objs: set<object>, g: Rules, s: State,
                           order: seq<Move>, depth: nat, maxRole: Role, h: Heuristic)
    requires g.Valid() && |kids| == |vals| <= |order|
    reads kids, objs
    decreases |kids|
  {
    |kids| > 0 ==>
      var n := |kids| - 1;
      && Searched(kids[..n], vals[..n], objs, g, s, order, depth, maxRole, h)
      && kids[n] in kids[n].Repr && kids[n].Repr <= objs
      && (forall l | 0 <= l < n :: kids[l].Repr !! kids[n].Repr)
      && kids[n].state == g.advance(s, order[n]) && kids[n].value == vals[n]
      && kids[n].Tree(g, depth, maxRole, h)
  }

  /** What Searched says of each subtree and of each pair. */
  lemma {:induction false} SearchedElems(kids: seq<MinimaxNode>, vals: seq<int>, objs: set<object>, g: Rules, s: State,
                                         order: seq<Move>, depth: nat, maxRole: Role, h: Heuristic)
    requires g.Valid() && |kids| == |vals| <= |order|
    requires Searched(kids, vals, objs, g, s, order, depth, maxRole, h)
    ensures forall l | 0 <= l < |kids| ::
              && kids[l] in kids[l].Repr && kids[l].Repr <= objs
              && kids[l].state == g.advance(s, order[l]) && kids[l].value == vals[l]
              && kids[l].Tree(g, depth, maxRole, h)
    ensures forall l, l' | 0 <= l < |kids| && 0 <= l' < |kids| && l != l' :: kids[l].Repr !! kids[l'].Repr
    decreases |kids|
  {
    if |kids| > 0 {
      var n := |kids| - 1;
      SearchedElems(kids[..n], vals[..n], objs, g, s, order, depth, maxRole, h);
      assert forall l | 0 <= l < n :: kids[..n][l] == kids[l] && vals[..n][l] == vals[l];
    }
  }

  /** Searched still holds when the objects are collected in a larger set. */
  lemma {:induction false} SearchedGrow(kids: seq<MinimaxNode>, vals: seq<int>, objs: set<object>, more: set<object>,
                                        g: Rules, s: State, order: seq<Move>, depth: nat, maxRole: Role, h: Heuristic)
    requires g.Valid() && |kids| == |vals| <= |order| && objs <= more
    requires Searched(kids, vals, objs, g, s, order, depth, maxRole, h)
    ensures Searched(kids, vals, more, g, s, order, depth, maxRole, h)
    decreases |kids|
  {
    if |kids| > 0 {
      var n := |kids| - 1;
      SearchedGrow(kids[..n], vals[..n], objs, more, g, s, order, depth, maxRole, h);
    }
  }

  /** One more finished subtree, disjoint from the others, extends the searched prefix. */
  lemma SearchedExtend(kids: seq<MinimaxNode>, k: nat, vals: seq<int>, objs: set<object>, g: Rules, s: State,
                       order: seq<Move>, depth: nat, maxRole: Role, h: Heuristic)
    requires g.Valid() && k == |vals| && k < |kids| <= |order|
    requires Searched(kids[..k], vals, objs, g, s, order, depth, maxRole, h)
    requires kids[k] in kids[k].Repr && kids[k].Repr !! objs
    requires kids[k].state == g.advance(s, order[k]) && kids[k].Tree(g, depth, maxRole, h)
    ensures Searched(kids[..k + 1], vals + [kids[k].value], objs + kids[k].Repr, g, s, order, depth, maxRole, h)
  {
    var next, nextVals := kids[..k + 1], vals + [kids[k].value];
    assert next[..k] == kids[..k] && nextVals[..k] == vals;
    SearchedElems(kids[..k], vals, objs, g, s, order, depth, maxRole, h);
    SearchedGrow(kids[..k], vals, objs, objs + kids[k].Repr, g, s, order, depth, maxRole, h);
  }

  /** A node whose children are finished subtrees owned by it, and whose value is their minimax fold, is a finished subtree. */
  lemma Assembled(node: MinimaxNode, kids: seq<MinimaxNode>, vals: seq<int>, objs: set<object>, g: Rules, depth: nat,
                  maxRole: Role, h: Heuristic)
    requires g.Valid() && depth > 0 && !node.state.isTerminal
    requires node.order == g.legalMoves(node.state)
    requires ChildrenInOrder(node.order, node.successors, kids) && |vals| == |kids|
    requires Searched(kids, vals, objs, g, node.state, node.order, depth - 1, maxRole, h)
    requires node in node.Repr && node !in objs && objs <= node.Repr
    requires node.value == BestOf(g, node.state, node.order, depth - 1, maxRole, h, node.state.turn == maxRole)
    ensures node.Tree(g, depth, maxRole, h)
  {
    Linked(node, kids, vals, objs, g, depth, maxRole, h);
  }

  /** The links from such a node to its children are those of a finished inner node. */
  lemma Linked(node: MinimaxNode, kids: seq<MinimaxNode>, vals: seq<int>, objs: set<object>, g: Rules, depth: nat,
               maxRole: Role, h: Heuristic)
    requires g.Valid() && depth > 0
    requires node.order == g.legalMoves(node.state)
    requires ChildrenInOrder(node.order, node.successors, kids) && |vals| == |kids|
    requires Searched(kids, vals, objs, g, node.state, node.order, depth - 1, maxRole, h)
    requires node !in objs && objs <= node.Repr
    ensures node.Inner(g, depth, maxRole, h)
  {
    LinkedChildren(node, kids, vals, objs, g, depth, maxRole, h);
    LinkedOwned(node, kids, vals, objs, g, depth, maxRole, h);
  }

  /** Each move of the node leads to a finished subtree of the position it produces. */
  lemma LinkedChildren(node: MinimaxNode, kids: seq<MinimaxNode>, vals: seq<int>, objs: set<object>, g: Rules,
                       depth: nat, maxRole: Role, h: Heuristic)
    requires g.Valid() && depth > 0
    requires ChildrenInOrder(node.order, node.successors, kids) && |vals| == |kids|
    requires Searched(kids, vals, objs, g, node.state, node.order, depth - 1, maxRole, h)
    ensures forall l | 0 <= l < |node.order| ::
              && node.successors[node.order[l]].state == g.advance(node.state, node.order[l])
              && node.successors[node.order[l]].Tree(g, depth - 1, maxRole, h)
  {
    SearchedElems(kids, vals, objs, g, node.state, node.order, depth - 1, maxRole, h);
  }

  /** The node owns the subtrees of its moves, which share no object with each other or with it. */
  lemma LinkedOwned(node: MinimaxNode, kids: seq<MinimaxNode>, vals: seq<int>, objs: set<object>, g: Rules,
                    depth: nat, maxRole: Role, h: Heuristic)
    requires g.Valid() && depth > 0
    requires ChildrenInOrder(node.order, node.successors, kids) && |vals| == |kids|
    requires Searched(kids, vals, objs, g, node.state, node.order, depth - 1, maxRole, h)
    requires node !in objs && objs <= node.Repr
    ensures forall l | 0 <= l < |node.order| ::
              && node.successors[node.order[l]] in node.Repr
              && node.successors[node.order[l]].Repr <= node.Repr && node !in node.successors[node.order[l]].Repr
    ensures forall l, l' | 0 <= l < |node.order| && 0 <= l' < |node.order| && l != l' ::
              node.successors[node.order[l]].Repr !! node.successors[node.order[l']].Repr
  {
    SearchedElems(kids, vals, objs, g, node.state, node.order, depth - 1, maxRole, h);
  }

  /** The fold of the values of searched subtrees for all the moves is the minimax fold over those moves. */
  lemma SearchedValue(kids: seq<MinimaxNode>, vals: seq<int>, objs: set<object>, g: Rules, s: State,
                      order: seq<Move>, depth: nat, maxRole: Role, h: Heuristic, maximize: bool)
    requires g.Valid() && |kids| == |vals| == |order| > 0
    requires Searched(kids, vals, objs, g, s, order, depth, maxRole, h)
    ensures Fold(vals, maximize) == BestOf(g, s, order, depth, maxRole, h, maximize)
  {
    SearchedElems(kids, vals, objs, g, s, order, depth, maxRole, h);
    FoldIsBestOf(vals, g, s, order, depth, maxRole, h, maximize);
  }

  /**
   * The expansion step of minimax: one fresh child per legal move, in the
   * order the moves are enumerated, each holding the position its move leads
   * to. `kids` lists the children in that order.
   */
  method Expand(node: MinimaxNode, g: Rules) returns (ghost kids: seq<MinimaxNode>)
    requires g.Valid() && node.Unexpanded() && !node.state.isTerminal
    modifies node
    ensures node.state == old(node.state) && node.value == old(node.value)
    ensures node.order == g.legalMoves(node.state)
    ensures ChildrenInOrder(node.order, node.successors, kids) && DistinctNodes(kids)
    ensures forall l | 0 <= l < |kids| ::
              fresh(kids[l]) && kids[l].Unexpanded() && kids[l].state == g.advance(node.state, node.order[l])
    ensures node in node.Repr && fresh(node.Repr - {node})
  {
    var moves := g.legalMoves(node.state);
    assert Distinct(moves);
    var succ: map<Move, MinimaxNode> := map[];
    ghost var made: set<object> := {};
    kids := [];
    for k := 0 to |moves|
      modifies {}
      invariant ChildrenInOrder(moves[..k], succ, kids) && DistinctNodes(kids)
      invariant forall l | 0 <= l < k ::
                  fresh(kids[l]) && kids[l] in made && kids[l].Unexpanded() && kids[l].state == g.advance(node.state, moves[l])
      invariant fresh(made)
    {
      var child := new MinimaxNode(g.advance(node.state, moves[k]));
      succ := succ[moves[k] := child];
      made := made + {child};
      kids := kids + [child];
    }
    assert moves[..|moves|] == moves;
    node.successors, node.order, node.Repr := succ, moves, node.Repr + made;
  }

  /**
   * minimax: evaluates node to the given depth, building its subtree in place.
   * The node keeps its position; every object of the new subtree is fresh.
   */
  method Minimax(node: MinimaxNode, depth: nat, maxRole: Role, g: Rules, h: Heuristic) returns (v: int)
    requires g.Valid() && node.Unexpanded()
    modifies node
    ensures node.state == old(node.state)
    ensures fresh(node.Repr - {node})
    ensures node.Tree(g, depth, maxRole, h)
    ensures v == node.value
    decreases depth, 2
  {
    if depth == 0 || node.state.isTerminal {
      node.value := h(node.state, maxRole);
      return node.value;
    }
    ghost var kids := Expand(node, g);
    var best;
    ghost var vals, subtrees;
    best, vals, subtrees := SearchChildren(node, kids, depth, maxRole, g, h);
    Settle(node, kids, best, vals, subtrees, depth, maxRole, g, h);
    return node.value;
  }

  /**
   * The loop of minimax over the successors of an expanded node: each child,
   * in the enumeration order, is searched one level less deep, and the running
   * maximum (or minimum) of their values is kept. `vals` lists the children's
   * values and `subtrees` collects the objects of their new subtrees.
   */
  method SearchChildren(node: MinimaxNode, ghost kids: seq<MinimaxNode>, depth: nat, maxRole: Role, g: Rules,
                        h: Heuristic)
    returns (best: int, ghost vals: seq<int>, ghost subtrees: set<object>)
    requires g.Valid() && depth > 0 && |node.order| > 0
    requires ChildrenInOrder(node.order, node.successors, kids) && DistinctNodes(kids)
    requires forall l | 0 <= l < |kids| ::
               kids[l] != node && kids[l].Unexpanded() && kids[l].state == g.advance(node.state, node.order[l])
    modifies kids
    ensures |vals| == |kids| && Searched(kids, vals, subtrees, g, node.state, node.order, depth - 1, maxRole, h)
    ensures node !in subtrees
    ensures forall o | o in subtrees :: fresh(o) || o in kids
    ensures best == Fold(vals, node.state.turn == maxRole)
    decreases depth, 1
  {
    var maximize := node.state.turn == maxRole;
    ghost var s, moves := node.state, node.order;
    best := 0;
    vals, subtrees := [], {};
    for k := 0 to |node.order|
      invariant node.state == s && node.order == moves && |vals| == k
      invariant Searched(kids[..k], vals, subtrees, g, s, moves, depth - 1, maxRole, h)
      invariant forall l | k <= l < |kids| ::
                  kids[l].Unexpanded() && kids[l] !in subtrees && kids[l].state == g.advance(s, moves[l])
      invariant node !in subtrees
      invariant forall o | o in subtrees :: fresh(o) || o in kids
      invariant k > 0 ==> best == Fold(vals, maximize)
    {
      var childValue;
      childValue, subtrees := SearchChild(node, s, moves, kids, k, vals, subtrees, depth, maxRole, g, h);
      var next := if k == 0 then childValue
                  else if maximize then Max(best, childValue)
                  else Min(best, childValue);
      FoldStep(vals, childValue, maximize, best, next);
      best, vals := next, vals + [childValue];
    }
    assert kids[..|kids|] == kids;
  }

  /** One turn of that loop: child k is searched and joins the searched prefix. */
  method SearchChild(node: MinimaxNode, ghost s: State, ghost moves: seq<Move>, ghost kids: seq<MinimaxNode>, k: nat,
                     ghost vals: seq<int>, ghost subtrees: set<object>, depth: nat, maxRole: Role, g: Rules,
                     h: Heuristic)
    returns (childValue: int, ghost subtrees': set<object>)
    requires g.Valid() && depth > 0 && k == |vals| && k < |kids|
    requires node.state == s && node.order == moves
    requires ChildrenInOrder(moves, node.successors, kids) && DistinctNodes(kids)
    requires Searched(kids[..k], vals, subtrees, g, s, moves, depth - 1, maxRole, h)
    requires forall l | k <= l < |kids| ::
               kids[l].Unexpanded() && kids[l] !in subtrees && kids[l].state == g.advance(s, moves[l])
    requires node !in subtrees && node != kids[k]
    modifies kids[k]
    ensures Searched(kids[..k + 1], vals + [childValue], subtrees', g, s, moves, depth - 1, maxRole, h)
    ensures forall l | k + 1 <= l < |kids| ::
              kids[l].Unexpanded() && kids[l] !in subtrees' && kids[l].state == g.advance(s, moves[l])
    ensures node !in subtrees'
    ensures forall o | o in subtrees' :: o in subtrees || o == kids[k] || fresh(o)
    decreases depth, 0
  {
    var child := node.successors[node.order[k]];
    childValue := Minimax(child, depth - 1, maxRole, g, h);
    SearchedExtend(kids, k, vals, subtrees, g, s, moves, depth - 1, maxRole, h);
    subtrees' := subtrees + child.Repr;
  }

  /**
   * The end of minimax on an inner node: the node takes the folded value of
   * its children and their subtrees become part of its own.
   */
  method Settle(node: MinimaxNode, ghost kids: seq<MinimaxNode>, best: int, ghost vals: seq<int>,
                ghost subtrees: set<object>, depth: nat, maxRole: Role, g: Rules, h: Heuristic)
    requires g.Valid() && depth > 0 && !node.state.isTerminal
    requires node.order == g.legalMoves(node.state)
    requires ChildrenInOrder(node.order, node.successors, kids) && |vals| == |kids|
    requires Searched(kids, vals, subtrees, g, node.state, node.order, depth - 1, maxRole, h)
    requires node in node.Repr && node !in subtrees && node !in kids
    requires best == Fold(vals, node.state.turn == maxRole)
    modifies node
    ensures node.state == old(node.state) && node.Repr == old(node.Repr) + subtrees
    ensures node.Tree(g, depth, maxRole, h)
  {
    node.value := best;
    node.Repr := node.Repr + subtrees;
    SearchedValue(kids, vals, subtrees, g, node.state, node.order, depth - 1, maxRole, h, node.state.turn == maxRole);
    Assembled(node, kids, vals, subtrees, g, depth, maxRole, h);
  }
}
