/** Expansion with the blank in a corner, and concrete 3-by-3 expansions and
    constructions that hold for any heuristic estimator. */
module Scenarios {
  import opened Wrappers
  import opened Grid
  import opened PuzzleNode
  import opened Expansion

  /** An unknown strategy name is refused whatever the board and heuristic. */
  lemma DijkstraIsRefused(parent: Option<Node>, grid: seq<int>, goal: seq<int>, n: int,
                          heuristic: string, evaluate: Evaluator)
    ensures NewNode(parent, grid, goal, n, heuristic, "dijkstra", evaluate)
         == Failure(UnsupportedSearchType("dijkstra"))
  {
  }

  /** Weighted A*: a node at depth 3 with heuristic value 4 costs 3 + 4 * 2 = 11. */
  lemma AStarWeightsHeuristicTwice(parent: Node, grid: seq<int>, goal: seq<int>, evaluate: Evaluator)
    requires parent.level == 2 && evaluate(grid, goal, 3, "manhattan") == 4
    ensures NewNode(Some(parent), grid, goal, 3, "manhattan", "a_star", evaluate).Success?
    ensures NewNode(Some(parent), grid, goal, 3, "manhattan", "a_star", evaluate).value.cost == 11
  {
  }

  /** Blank in the top-left corner: two children, Right then Down. */
  lemma TopLeftCornerChildren(node: Node, goal: seq<int>, n: int, evaluate: Evaluator)
    requires Expandable(node.grid, n) && n >= 2 && BlankAt(node.grid, n) == (0, 0)
    ensures var kids := Children(node, goal, n, evaluate);
      && |kids| == 2
      && kids[0].grid == Swap(node.grid, 0, 1)
      && kids[1].grid == Swap(node.grid, 0, n)
  {
    assert LegalMoves(0, 0, n) == [Right, Down];
    ChildGrids(node, goal, n, evaluate, 0, 0);
  }

  /** The two boards one move away from the 3-by-3 board with the blank first. */
  lemma CornerSwaps(g: seq<int>)
    requires g == [0, 1, 2, 3, 4, 5, 6, 7, 8]
    ensures Swap(g, 0, 1) == [1, 0, 2, 3, 4, 5, 6, 7, 8]
    ensures Swap(g, 0, 3) == [3, 1, 2, 0, 4, 5, 6, 7, 8]
  {
  }

  /** Blank in the top-left corner of a 3-by-3 board: only Right and Down, in that order,
      whatever the strategy and goal. */
  lemma CornerBlankHasTwoChildren(goal: seq<int>, strategy: Strategy, evaluate: Evaluator)
    ensures var root := Make(None, [0, 1, 2, 3, 4, 5, 6, 7, 8], goal, 3, "manhattan", strategy, evaluate);
      var kids := Children(root, goal, 3, evaluate);
      && |kids| == 2
      && kids[0].grid == [1, 0, 2, 3, 4, 5, 6, 7, 8]
      && kids[1].grid == [3, 1, 2, 0, 4, 5, 6, 7, 8]
  {
    var g := [0, 1, 2, 3, 4, 5, 6, 7, 8];
    var root := Make(None, g, goal, 3, "manhattan", strategy, evaluate);
    BlankAtCell(g, 3, 0, 0);
    TopLeftCornerChildren(root, goal, 3, evaluate);
    CornerSwaps(g);
  }

  /** Under uniform-cost search every child of the fresh 3-by-3 root costs exactly 1. */
  lemma CornerChildrenCostOne(goal: seq<int>, evaluate: Evaluator)
    ensures var root := Make(None, [0, 1, 2, 3, 4, 5, 6, 7, 8], goal, 3, "manhattan", Uniform, evaluate);
      forall c :: c in Children(root, goal, 3, evaluate) ==> c.cost == 1
  {
    var g := [0, 1, 2, 3, 4, 5, 6, 7, 8];
    var root := Make(None, g, goal, 3, "manhattan", Uniform, evaluate);
    assert Expandable(g, 3) by {
      assert g[0] == 0;
    }
    UniformChildrenCostMore(root, goal, 3, evaluate);
  }

  /** One move from the goal under uniform-cost search: expanding the start board yields
      the goal board as its first child (the blank slides Right), at cost 1. */
  lemma OneMoveFromGoal(evaluate: Evaluator)
    ensures var goal := [1, 0, 2, 3, 4, 5, 6, 7, 8];
      var start := NewNode(None, [0, 1, 2, 3, 4, 5, 6, 7, 8], goal, 3, "manhattan", "uniform", evaluate);
      && start.Success?
      && var kids := Children(start.value, goal, 3, evaluate);
      && |kids| == 2 && kids[0].grid == goal && kids[0].cost == 1
  {
    var goal := [1, 0, 2, 3, 4, 5, 6, 7, 8];
    var g := [0, 1, 2, 3, 4, 5, 6, 7, 8];
    assert NewNode(None, g, goal, 3, "manhattan", "uniform", evaluate)
        == Success(Make(None, g, goal, 3, "manhattan", Uniform, evaluate));
    CornerBlankHasTwoChildren(goal, Uniform, evaluate);
    CornerChildrenCostOne(goal, evaluate);
  }
}
