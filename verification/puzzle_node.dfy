/** A node of the sliding-puzzle search tree: its construction, its cost under each
    search strategy, and the cost-only ordering the search frontier relies on. */
module PuzzleNode {
  import opened Wrappers

  /** The search strategies a node accepts; any other name is refused at construction. */
  datatype Strategy = AStar | Uniform | Greedy

  /** The error raised for a search-strategy name outside the three supported ones. */
  datatype NodeError = UnsupportedSearchType(name: string)

  /** `Heuristic.evaluate(state, goal, gridSize, heuristicName)`: an estimator chosen by
      name whose internals lie outside this model; it returns a non-negative distance. */
  type Evaluator = (seq<int>, seq<int>, int, string) -> nat

  /** An immutable search-tree node. `hCost` is the cached heuristic value and `cost`
      the total cost that orders the frontier. */
  datatype Node = Node(
    parent: Option<Node>,
    grid: seq<int>,
    gridSize: int,
    heuristic: string,
    strategy: Strategy,
    level: nat,
    hCost: nat,
    cost: nat)

  /** The strategy name the source compares against. */
  function StrategyName(s: Strategy): string {
    match s
    case AStar => "a_star"
    case Uniform => "uniform"
    case Greedy => "greedy"
  }

  /** Reads a strategy name; every name other than the three supported ones is an error. */
  function ParseStrategy(name: string): (r: Result<Strategy, NodeError>)
    ensures r.Failure? <==> name != "a_star" && name != "uniform" && name != "greedy"
    ensures r.Failure? ==> r.error == UnsupportedSearchType(name)
    ensures r.Success? ==> StrategyName(r.value) == name
  {
    if name == "a_star" then Success(AStar)
    else if name == "uniform" then Success(Uniform)
    else if name == "greedy" then Success(Greedy)
    else Failure(UnsupportedSearchType(name))
  }

  /** Every strategy's own name reads back as that strategy. */
  lemma ParseStrategyName(s: Strategy)
    ensures ParseStrategy(StrategyName(s)) == Success(s)
  {
  }

  /** Depth in the search tree: 0 for a root, one more than the parent otherwise. */
  function LevelUnder(parent: Option<Node>): nat {
    if parent.None? then 0 else parent.value.level + 1
  }

  /** Total cost from depth `g` and heuristic value `h`; A* weights the heuristic twice. */
  function TotalCost(s: Strategy, g: nat, h: nat): nat {
    match s
    case AStar => g + h * 2
    case Uniform => g
    case Greedy => h
  }

  /** A node whose level and cost agree with its parent and its cached heuristic value. */
  predicate Consistent(node: Node) {
    && node.level == LevelUnder(node.parent)
    && node.cost == TotalCost(node.strategy, node.level, node.hCost)
  }

  /** Construction with an already-validated strategy; the heuristic is evaluated once. */
  function Make(parent: Option<Node>, grid: seq<int>, goal: seq<int>, gridSize: int,
                heuristic: string, strategy: Strategy, evaluate: Evaluator): (r: Node)
    ensures Consistent(r)
    ensures r.parent == parent && r.grid == grid && r.gridSize == gridSize
    ensures r.heuristic == heuristic && r.strategy == strategy
    ensures r.hCost == evaluate(grid, goal, gridSize, heuristic)
  {
    var level := LevelUnder(parent);
    var h := evaluate(grid, goal, gridSize, heuristic);
    Node(parent, grid, gridSize, heuristic, strategy, level, h, TotalCost(strategy, level, h))
  }

  /** `Node(parentNode, grid, solutionGrid, gridSize, heuristic, searchStrategy)`: the
      level follows the parent, the cost follows the named strategy, and any other
      strategy name is refused with no node produced. */
  function NewNode(parent: Option<Node>, grid: seq<int>, goal: seq<int>, gridSize: int,
                   heuristic: string, strategyName: string, evaluate: Evaluator)
    : (r: Result<Node, NodeError>)
    ensures r.Failure? <==> strategyName !in {"a_star", "uniform", "greedy"}
    ensures r.Failure? ==> r.error == UnsupportedSearchType(strategyName)
    ensures r.Success? ==>
      && r.value.parent == parent && r.value.grid == grid && r.value.gridSize == gridSize
      && r.value.heuristic == heuristic && StrategyName(r.value.strategy) == strategyName
      && r.value.level == (if parent.None? then 0 else parent.value.level + 1)
      && r.value.hCost == evaluate(grid, goal, gridSize, heuristic)
    ensures strategyName == "a_star" ==> r.Success? && r.value.cost == r.value.level + 2 * r.value.hCost
    ensures strategyName == "uniform" ==> r.Success? && r.value.cost == r.value.level
    ensures strategyName == "greedy" ==> r.Success? && r.value.cost == r.value.hCost
  {
    match ParseStrategy(strategyName)
    case Failure(e) => Failure(e)
    case Success(strategy) => Success(Make(parent, grid, goal, gridSize, heuristic, strategy, evaluate))
  }

  /** `a < b`: nodes are compared by total cost alone. */
  predicate Less(a: Node, b: Node) {
    a.cost < b.cost
  }

  /** The frontier ordering is a strict weak order: irreflexive, asymmetric, transitive,
      and nodes of equal cost are incomparable whatever their grids. */
  lemma LessIsStrictWeakOrder(a: Node, b: Node, c: Node)
    ensures !Less(a, a)
    ensures Less(a, b) ==> !Less(b, a)
    ensures Less(a, b) && Less(b, c) ==> Less(a, c)
    ensures !Less(a, b) && !Less(b, a) <==> a.cost == b.cost
  {
  }

  /** Under uniform-cost search a node's cost is its depth, so every node is cheaper
      than any node built directly beneath it. */
  lemma UniformChildCostsOneMore(parent: Node, grid: seq<int>, goal: seq<int>, n: int, evaluate: Evaluator)
    requires Consistent(parent) && parent.strategy == Uniform
    ensures var child := Make(Some(parent), grid, goal, n, parent.heuristic, parent.strategy, evaluate);
      child.cost == parent.cost + 1 && Less(parent, child)
  {
  }

  /** Under greedy search the cost ignores ancestry: two nodes built on the same board
      with the same heuristic cost the same, whatever their parents. */
  lemma GreedyIgnoresAncestry(p1: Option<Node>, p2: Option<Node>, grid: seq<int>, goal: seq<int>,
                              n: int, heuristic: string, evaluate: Evaluator)
    ensures Make(p1, grid, goal, n, heuristic, Greedy, evaluate).cost
         == Make(p2, grid, goal, n, heuristic, Greedy, evaluate).cost
  {
  }

  /** Under the weighted A* a child's cost exceeds its parent's by one plus twice the
      change in heuristic value; in particular it is at least the child's depth. */
  lemma AStarStep(parent: Node, grid: seq<int>, goal: seq<int>, n: int, evaluate: Evaluator)
    requires Consistent(parent) && parent.strategy == AStar
    ensures var child := Make(Some(parent), grid, goal, n, parent.heuristic, parent.strategy, evaluate);
      && child.cost == parent.cost + 1 + 2 * (child.hCost - parent.hCost)
      && child.cost >= child.level
  {
  }

  /** The number of parent links from a node up to its root. */
  function Depth(node: Node): nat
    decreases node
  {
    match node.parent
    case None => 0
    case Some(p) => Depth(p) + 1
  }

  /** Every node on the chain of parents is consistent. */
  predicate ChainConsistent(node: Node)
    decreases node
  {
    && Consistent(node)
    && (node.parent.Some? ==> ChainConsistent(node.parent.value))
  }

  /** In a consistently built tree the level is exactly the number of moves from the root. */
  lemma {:induction false} LevelIsDepth(node: Node)
    requires ChainConsistent(node)
    ensures node.level == Depth(node)
    decreases node
  {
    if node.parent.Some? {
      LevelIsDepth(node.parent.value);
    }
  }
}
