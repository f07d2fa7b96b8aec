# Sliding-puzzle search node, in Dafny

This project models the `Node` class of an n-puzzle solver (`N-Puzzle/src/node.py`).
A node is one board of the search tree. The model covers:

- how a node is built: its depth (`level`), its cached heuristic value and its total cost under
  the three search strategies `a_star` (weighted: `level + 2*h`), `uniform` (`level`) and
  `greedy` (`h`);
- the refusal of any other strategy name;
- the cost-only ordering `<` that the search frontier uses;
- child expansion: the blank (`0`) slides Right, Left, Down, Up, in that order, wherever the
  edge of the board allows;
- the coordinate helper `getCoordinates`.

Modules:

- `Wrappers` (`wrappers.dfy`): `Option` and `Result`.
- `Grid` (`grid.dfy`): Python's floor `//` and `%`, `getCoordinates`, `list.index`, the two-cell
  swap, and what a legal board is (`IsPuzzleGrid`: the values `0 .. n*n-1`, each once).
- `PuzzleNode` (`puzzle_node.dfy`): the `Node` datatype, the `Strategy` enumeration, construction,
  cost, ordering, and the link between `level` and depth.
- `Expansion` (`expansion.dfy`): moves, edge guards and `createChildrenNodes` (`Children`). It also
  holds a move-by-move reference expansion (`SpawnAll` over `LegalMoves`) and the lemmas that
  tie the two together.
- `Scenarios` (`scenarios.dfy`): expansion with the blank in the top-left corner, plus
  concrete 3-by-3 cases.

Modelling choices:

- `Heuristic.evaluate` lives in a file that is not part of this model. It is a parameter
  `evaluate: Evaluator`, a total function `(grid, goal, gridSize, heuristicName) -> nat`. Each
  construction calls it once, on the new node's board.
- The strategy is stored as a three-case datatype. `ParseStrategy` turns the source's string
  into it and refuses every other name with `UnsupportedSearchType(name)`. That error stands for
  the source's `ValueError("Unsupported search type: ...")`, so the model follows the code's
  name for it, not `InvalidStrategy`.
- A child's parent is the expanding node itself, held as `Some(node)`.
- `createChildrenNodes` builds children with its `gridSize` argument, not the node's own
  `_gridSize`, and the model does the same. So `Children` needs no requirement that the two
  agree.
- The node's getters (`getParentNode`, `getGrid`, `getGridSize`, `getLevel`, `getCost`) are the
  datatype's fields `parent`, `grid`, `gridSize`, `level` and `cost`.

## Model

| member | source | states |
|---|---|---|
| Grid.FloorDiv | N-Puzzle/src/node.py:127 | `index // size` rounds towards negative infinity, for either sign of divisor |
| Grid.FloorMod | N-Puzzle/src/node.py:127 | `index % size` is the remainder matching `//`; it lies in `[0, size)` for a positive size and in `(size, 0]` for a negative one |
| Grid.GetCoordinates | N-Puzzle/src/node.py:123-127 | `getCoordinates` fails exactly when the size is 0 (division by zero). For a positive size the column is in `[0, size)` and `y*size + x == index`. An index inside the board gives a row in `[0, size)` |
| Grid.CoordinatesRoundTrip | N-Puzzle/src/node.py:125-127 | `getCoordinates` inverts the row-major layout: the index `y*size + x` of any in-row column `x` gives back `(x, y)` |
| Grid.FirstIndex | N-Puzzle/src/node.py:76-77 | `list.index(v)` returns a position holding `v` with no earlier position holding it |
| Grid.Swap | N-Puzzle/src/node.py:81-83 | the tuple swap on a copy exchanges the two cells and leaves every other cell and the length unchanged |
| Grid.SwapPermutes | N-Puzzle/src/node.py:81-83 | a swap keeps the multiset of values |
| Grid.SwapBack | N-Puzzle/src/node.py:81-83 | swapping the same two cells again restores the board |
| Grid.UniqueBlank | N-Puzzle/src/node.py:76 | on a legal board the `0` found by `index(0)` is the only `0` |
| PuzzleNode.ParseStrategy | N-Puzzle/src/node.py:33-40 | only `a_star`, `uniform` and `greedy` are accepted; every other name is an `UnsupportedSearchType` carrying that name; an accepted name reads back unchanged |
| PuzzleNode.ParseStrategyName | N-Puzzle/src/node.py:33-38 | each strategy's own name is accepted as that strategy, so a child that inherits the name never fails |
| PuzzleNode.Make | N-Puzzle/src/node.py:22-38 | a constructed node keeps its parent, board, size, heuristic name and strategy; its level agrees with the parent; its heuristic value is the estimator's on its own board; its cost follows its strategy |
| PuzzleNode.NewNode | N-Puzzle/src/node.py:10-40 | the constructor fails exactly for an unsupported strategy name, producing no node. On success: level 0 for a root and the parent's level + 1 otherwise; `a_star` costs `level + 2*h`, `uniform` costs `level`, `greedy` costs `h` |
| PuzzleNode.LessIsStrictWeakOrder | N-Puzzle/src/node.py:52-62 | `<` on nodes is irreflexive, asymmetric and transitive; two nodes are incomparable exactly when their costs are equal, whatever their boards |
| PuzzleNode.UniformChildCostsOneMore | N-Puzzle/src/node.py:27-36 | under uniform-cost search a node built beneath a parent costs exactly one more, so the parent is strictly cheaper |
| PuzzleNode.GreedyIgnoresAncestry | N-Puzzle/src/node.py:31-38 | under greedy search two nodes on the same board cost the same whatever their parents |
| PuzzleNode.AStarStep | N-Puzzle/src/node.py:27-34 | under weighted A* a child costs its parent's cost plus 1 plus twice the change in heuristic value, and never less than its own level |
| PuzzleNode.LevelIsDepth | N-Puzzle/src/node.py:27 | in a tree built by the constructor, a node's level is the number of parent links up to its root |
| Expansion.BlankIndex | N-Puzzle/src/node.py:76 | the blank's index is a position of the board holding `0` |
| Expansion.BlankAt | N-Puzzle/src/node.py:76-77 | the blank's `(zeroX, zeroY)` lie on the board, and `zeroY * gridSize + zeroX` is the blank's index |
| Expansion.BlankAtCell | N-Puzzle/src/node.py:76-77 | a cell holding `0` with no `0` before it is where expansion locates the blank |
| Expansion.BlankIsUnique | N-Puzzle/src/node.py:76 | on a legal board, any cell holding `0` is the one `index(0)` finds |
| Expansion.LegalMoves | N-Puzzle/src/node.py:79-105 | a move is produced exactly when its edge guard holds (`x < n-1`, `x > 0`, `y < n-1`, `y > 0`), and moves come out in the order Right, Left, Down, Up |
| Expansion.Spawn | N-Puzzle/src/node.py:84 | a child has the expanding node as parent, that node's level + 1, the new board, the size argument, and the inherited heuristic name and strategy |
| Expansion.Slide | N-Puzzle/src/node.py:81-83 | a move's board is a copy of the same length |
| Expansion.SlideAt | N-Puzzle/src/node.py:79-105 | a move swaps cell `y*n + x` with `y*n + x + 1`, `- 1`, `+ n` or `- n`, that target lies on the board, and it is the orthogonal neighbour the move names |
| Expansion.Branch | N-Puzzle/src/node.py:79-84 | one guarded step yields at most one node, and that node is a child of the expanding node |
| Expansion.Children | N-Puzzle/src/node.py:64-105 | expansion yields at most four nodes, each a child of the expanding node (parent, level + 1, inherited heuristic and strategy, same board length) |
| Expansion.SpawnAll | N-Puzzle/src/node.py:79-105 | reference expansion: the k-th node is the child for the k-th move of the list |
| Expansion.SpawnAllAppend | N-Puzzle/src/node.py:79-105 | expanding two move lists in turn equals expanding their concatenation |
| Expansion.ChildrenFollowMoves | N-Puzzle/src/node.py:79-105 | expansion equals the reference expansion of the legal moves, so the k-th child comes from the k-th legal move, in the order Right, Left, Down, Up |
| Expansion.ChildGridAt | N-Puzzle/src/node.py:79-105 | the k-th child's board swaps the blank's cell with the cell the k-th legal move points at |
| Expansion.ChildGrids | N-Puzzle/src/node.py:76-105 | with the blank at column x, row y, there is one child per legal move, and the k-th child's board swaps the blank's cell with the in-board cell the k-th legal move points at |
| Expansion.ChildCount | N-Puzzle/src/node.py:76-105 | the number of children is the number of satisfied edge guards. For n ≥ 2 that is 2 in a corner, 3 elsewhere on the border and 4 inside; it is 0 on a 1-by-1 board |
| Expansion.ExpansionKeepsChainConsistent | N-Puzzle/src/node.py:27 | children of a consistently built node are consistent up to the root, and their level equals their depth |
| Expansion.UniformChildrenCostMore | N-Puzzle/src/node.py:35-36 | under uniform-cost search every child costs its parent's cost + 1, so the parent is strictly cheaper than each child |
| Expansion.SlideSwaps | N-Puzzle/src/node.py:79-105 | an allowed move swaps the blank's cell with a different cell on the board, namely the one at the column and row the move steps to |
| Expansion.SlidePermutes | N-Puzzle/src/node.py:81-83 | an allowed move keeps the multiset of values on the board |
| Expansion.SlideMovesBlank | N-Puzzle/src/node.py:81-83 | on a legal board a move gives a legal board that differs from the original exactly at the blank's old cell and its neighbour, and the blank lands at the neighbouring column and row |
| Expansion.SlideIsReversible | N-Puzzle/src/node.py:79-105 | from a child's board the opposite move is allowed and restores the parent's board |
| Expansion.ChildIsNeighbour | N-Puzzle/src/node.py:81-84 | the child for one move has a legal board that differs from the parent's in exactly two cells, and the opposite move leads back |
| Expansion.ChildrenAreNeighbours | N-Puzzle/src/node.py:64-105 | every child of a legal board is a legal board that differs from the parent's in exactly two cells, and some allowed move leads back to the parent's board |
| Expansion.ChildrenPermuteParent | N-Puzzle/src/node.py:81-104 | every child's board is a rearrangement of the parent's values |
| Scenarios.DijkstraIsRefused | N-Puzzle/src/node.py:39-40 | `dijkstra` is refused with `UnsupportedSearchType("dijkstra")` for any board and heuristic |
| Scenarios.AStarWeightsHeuristicTwice | N-Puzzle/src/node.py:33-34 | under A*, level 3 with heuristic value 4 costs 11 |
| Scenarios.TopLeftCornerChildren | N-Puzzle/src/node.py:79-98 | a blank in the top-left corner gives exactly two children, Right (swap with index 1) then Down (swap with index n) |
| Scenarios.CornerBlankHasTwoChildren | N-Puzzle/src/node.py:76-98 | for any goal and strategy, expanding `[0,1,...,8]` yields exactly `[1,0,2,...]` then `[3,1,2,0,...]` |
| Scenarios.CornerChildrenCostOne | N-Puzzle/src/node.py:35-36 | under uniform-cost search, every child of the fresh root `[0,1,...,8]` costs exactly 1 |
| Scenarios.OneMoveFromGoal | N-Puzzle/src/node.py:10-105 | under uniform-cost search, the start `[0,1,...,8]` is accepted and its expansion yields two children, the first of which (the blank slides Right) is the goal `[1,0,2,...,8]`, at cost 1 |

## Left out

- `showGrid` (N-Puzzle/src/node.py:42-50) prints the board to the console. That is I/O.
- The `lru_cache` on `getCoordinates` only speeds things up and does not change results, so
  the model has no cache.
- `createChildrenNodes` is a generator. The model returns the same children, in the same order,
  as a finite sequence.
- The internals of `Heuristic.evaluate` are not part of this model. The estimator is a total
  function parameter returning `nat`. It receives the new node's board, not the half-built node
  object. Determinism follows because it is a function.
- The parent link is a value (`Option<Node>`), not an object reference. Object identity and
  sharing of ancestors are not modelled.
- The `searchStrategy` default of `'a_star'` is not modelled: every caller passes the name.
- Expansion.Children: requires a board of exactly `n*n` cells that contains a `0`, with `n > 0`.
  On other boards the source raises `ValueError` (no `0`) or `ZeroDivisionError` (`n == 0`), or
  reads a cell outside the intended board. That error behaviour is not modelled.
- Python integers are unbounded, as are Dafny's, so no wrap-around arises.
- The search driver, frontier, visited set and path reconstruction are not part of this model.
