/** Child expansion: sliding the blank one cell Right, Left, Down or Up, in that order,
    wherever the edge of the board allows it. */
module Expansion {
  import opened Wrappers
  import opened Grid
  import opened PuzzleNode

  /** A slide of the blank, named by the direction the blank travels. */
  datatype Move = Right | Left | Down | Up

  /** Position of a move in the fixed emission order Right, Left, Down, Up. */
  function Rank(m: Move): nat {
    match m
    case Right => 0
    case Left => 1
    case Down => 2
    case Up => 3
  }

  /** The move that slides the blank straight back. */
  function Opposite(m: Move): Move {
    match m
    case Right => Left
    case Left => Right
    case Down => Up
    case Up => Down
  }

  /** The edge guard: whether the blank at column `x`, row `y` of an `n`-wide board may make move `m`. */
  predicate Allowed(m: Move, x: int, y: int, n: int) {
    match m
    case Right => x < n - 1
    case Left => x > 0
    case Down => y < n - 1
    case Up => y > 0
  }

  /** The orthogonal neighbour `m` leads to, as column and row. */
  function Step(m: Move, x: int, y: int): (int, int) {
    match m
    case Right => (x + 1, y)
    case Left => (x - 1, y)
    case Down => (x, y + 1)
    case Up => (x, y - 1)
  }

  /** How far the blank's row-major index moves under `m` on an `n`-wide board. */
  function Offset(m: Move, n: int): int {
    match m
    case Right => 1
    case Left => -1
    case Down => n
    case Up => -n
  }

  /** What expansion assumes of a board: square, `n` wide, and holding a blank. */
  predicate Expandable(g: seq<int>, n: int) {
    n > 0 && |g| == n * n && 0 in g
  }

  /** The index of the blank: its first occurrence, as `list.index(0)` finds it. */
  function BlankIndex(g: seq<int>, n: int): (z: nat)
    requires Expandable(g, n)
    ensures z < |g| && g[z] == 0
  {
    FirstIndex(g, 0)
  }

  /** Column and row of the blank. */
  function BlankAt(g: seq<int>, n: int): (r: (int, int))
    requires Expandable(g, n)
    ensures 0 <= r.0 < n && 0 <= r.1 < n
    ensures CellIndex(r.0, r.1, n) == BlankIndex(g, n)
  {
    GetCoordinates(BlankIndex(g, n), n).value
  }

  /** The blank is located by its first occurrence: a cell holding 0 with no 0 before it. */
  lemma BlankAtCell(g: seq<int>, n: int, x: int, y: int)
    requires n > 0 && |g| == n * n && 0 <= x < n && 0 <= y < n
    requires 0 <= CellIndex(x, y, n) < |g| && g[CellIndex(x, y, n)] == 0
    requires forall j :: 0 <= j < CellIndex(x, y, n) ==> g[j] != 0
    ensures Expandable(g, n) && BlankIndex(g, n) == CellIndex(x, y, n) && BlankAt(g, n) == (x, y)
  {
    assert g[CellIndex(x, y, n)] in g;
    CoordinatesRoundTrip(x, y, n);
  }

  /** A cell of the board has a row-major index inside the board. */
  lemma CellInBoard(x: int, y: int, n: int)
    requires 0 <= x < n && 0 <= y < n
    ensures 0 <= CellIndex(x, y, n) < n * n
  {
    if y >= 1 {
      ScaleAtLeast(y, n);
    }
    var i := CellIndex(x, y, n);
    if i >= n * n {
      QuotientUnique(y, x, n, i - n * n, n);
    }
  }

  /** An allowed move leads to a cell of the board, `Offset` positions from the blank. */
  lemma StepInBoard(m: Move, x: int, y: int, n: int)
    requires 0 <= x < n && 0 <= y < n && Allowed(m, x, y, n)
    ensures var (x', y') := Step(m, x, y);
      && 0 <= x' < n && 0 <= y' < n
      && 0 <= CellIndex(x', y', n) < n * n
      && CellIndex(x', y', n) == CellIndex(x, y, n) + Offset(m, n)
  {
    var (x', y') := Step(m, x, y);
    CellInBoard(x', y', n);
  }

  /** The moves whose edge guard holds, in emission order. */
  function LegalMoves(x: int, y: int, n: int): (r: seq<Move>)
    ensures forall m :: m in r <==> Allowed(m, x, y, n)
    ensures forall i, j :: 0 <= i < j < |r| ==> Rank(r[i]) < Rank(r[j])
    ensures |r| <= 4
  {
    (if x < n - 1 then [Right] else [])
    + (if x > 0 then [Left] else [])
    + (if y < n - 1 then [Down] else [])
    + (if y > 0 then [Up] else [])
  }

  /** The node that `createChildrenNodes` builds for a new board: the expanding node is
      its parent and it keeps that node's heuristic name and strategy. */
  function Spawn(node: Node, grid: seq<int>, goal: seq<int>, n: int, evaluate: Evaluator): (c: Node)
    ensures Consistent(c)
    ensures c.parent == Some(node) && c.level == node.level + 1
    ensures c.grid == grid && c.gridSize == n
    ensures c.heuristic == node.heuristic && c.strategy == node.strategy
  {
    Make(Some(node), grid, goal, n, node.heuristic, node.strategy, evaluate)
  }

  /** The board after move `m`: a copy of `g` with the blank swapped into the neighbouring
      cell, which lies `Offset(m, n)` positions away in row-major order. */
  function Slide(g: seq<int>, n: int, m: Move): (r: seq<int>)
    requires Expandable(g, n) && Allowed(m, BlankAt(g, n).0, BlankAt(g, n).1, n)
    ensures |r| == |g|
  {
    var (x, y) := BlankAt(g, n);
    StepInBoard(m, x, y, n);
    var z := BlankIndex(g, n);
    Swap(g, z, z + Offset(m, n))
  }

  /** How a child relates to the node it was expanded from. */
  predicate ChildOf(c: Node, node: Node, n: int) {
    && Consistent(c)
    && c.parent == Some(node) && c.level == node.level + 1 && c.gridSize == n
    && c.heuristic == node.heuristic && c.strategy == node.strategy
    && |c.grid| == |node.grid|
  }

  /** One guarded step of `createChildrenNodes`: the child for move `m`, if its edge guard holds. */
  function Branch(node: Node, m: Move, goal: seq<int>, n: int, evaluate: Evaluator): (r: seq<Node>)
    requires Expandable(node.grid, n)
    ensures |r| <= 1
    ensures forall c :: c in r ==> ChildOf(c, node, n)
  {
    var (x, y) := BlankAt(node.grid, n);
    if Allowed(m, x, y, n) then [Spawn(node, Slide(node.grid, n, m), goal, n, evaluate)] else []
  }

  /** `createChildrenNodes(solutionGrid, gridSize)`: one child per satisfied edge guard,
      tried Right, Left, Down, Up. The expanding node is a value and stays as it was. */
  function Children(node: Node, goal: seq<int>, n: int, evaluate: Evaluator): (r: seq<Node>)
    requires Expandable(node.grid, n)
    ensures |r| <= 4
    ensures forall c :: c in r ==> ChildOf(c, node, n)
  {
    Branch(node, Right, goal, n, evaluate)
    + Branch(node, Left, goal, n, evaluate)
    + Branch(node, Down, goal, n, evaluate)
    + Branch(node, Up, goal, n, evaluate)
  }

  /** The moves expansion makes from a board, in emission order. */
  function MovesFrom(g: seq<int>, n: int): (r: seq<Move>)
    requires Expandable(g, n)
    ensures forall m :: m in r ==> Allowed(m, BlankAt(g, n).0, BlankAt(g, n).1, n)
  {
    LegalMoves(BlankAt(g, n).0, BlankAt(g, n).1, n)
  }

  /** With the blank at column `x`, row `y`, the moves are exactly the legal moves there. */
  lemma MovesAt(g: seq<int>, n: int, x: int, y: int)
    requires Expandable(g, n) && BlankAt(g, n) == (x, y)
    ensures MovesFrom(g, n) == LegalMoves(x, y, n)
  {
  }

  /** A move swaps the blank's cell `y * n + x` with the neighbouring cell: one to the
      right, one to the left, one row down or one row up. */
  lemma SlideAt(g: seq<int>, n: int, m: Move, x: int, y: int)
    requires Expandable(g, n) && BlankAt(g, n) == (x, y) && Allowed(m, x, y, n)
    ensures 0 <= y * n + x + Offset(m, n) < |g|
    ensures y * n + x + Offset(m, n) == CellIndex(Step(m, x, y).0, Step(m, x, y).1, n)
    ensures Slide(g, n, m) == Swap(g, y * n + x, y * n + x + Offset(m, n))
  {
    StepInBoard(m, x, y, n);
  }

  /** The k-th child's board, with the blank at column `x`, row `y`: the blank's cell
      `y * n + x` swapped with the cell the k-th legal move points at. */
  lemma ChildGridAt(node: Node, goal: seq<int>, n: int, evaluate: Evaluator, x: int, y: int, k: int)
    requires Expandable(node.grid, n) && BlankAt(node.grid, n) == (x, y)
    requires 0 <= k < |LegalMoves(x, y, n)|
    ensures var t := y * n + x + Offset(LegalMoves(x, y, n)[k], n);
      && 0 <= t < |node.grid|
      && k < |Children(node, goal, n, evaluate)|
      && Children(node, goal, n, evaluate)[k].grid == Swap(node.grid, y * n + x, t)
  {
    MovesAt(node.grid, n, x, y);
    ChildrenFollowMoves(node, goal, n, evaluate);
    SlideAt(node.grid, n, LegalMoves(x, y, n)[k], x, y);
  }

  /** All children at once, with the blank at column `x`, row `y`: one per legal move,
      the k-th swapping the blank's cell with the cell the k-th legal move points at. */
  lemma ChildGrids(node: Node, goal: seq<int>, n: int, evaluate: Evaluator, x: int, y: int)
    requires Expandable(node.grid, n) && BlankAt(node.grid, n) == (x, y)
    ensures |Children(node, goal, n, evaluate)| == |LegalMoves(x, y, n)|
    ensures forall k :: 0 <= k < |LegalMoves(x, y, n)| ==>
      && 0 <= y * n + x + Offset(LegalMoves(x, y, n)[k], n) < |node.grid|
      && Children(node, goal, n, evaluate)[k].grid
         == Swap(node.grid, y * n + x, y * n + x + Offset(LegalMoves(x, y, n)[k], n))
  {
    MovesAt(node.grid, n, x, y);
    ChildrenFollowMoves(node, goal, n, evaluate);
    forall k | 0 <= k < |LegalMoves(x, y, n)|
      ensures && 0 <= y * n + x + Offset(LegalMoves(x, y, n)[k], n) < |node.grid|
              && Children(node, goal, n, evaluate)[k].grid
                 == Swap(node.grid, y * n + x, y * n + x + Offset(LegalMoves(x, y, n)[k], n))
    {
      ChildGridAt(node, goal, n, evaluate, x, y, k);
    }
  }

  /** Reference expansion: one child per move of the list, in list order. */
  function SpawnAll(node: Node, moves: seq<Move>, goal: seq<int>, n: int, evaluate: Evaluator): (r: seq<Node>)
    requires Expandable(node.grid, n)
    requires forall m :: m in moves ==> Allowed(m, BlankAt(node.grid, n).0, BlankAt(node.grid, n).1, n)
    ensures |r| == |moves|
    ensures forall k :: 0 <= k < |moves| ==> r[k] == Spawn(node, Slide(node.grid, n, moves[k]), goal, n, evaluate)
  {
    if moves == [] then []
    else [Spawn(node, Slide(node.grid, n, moves[0]), goal, n, evaluate)] + SpawnAll(node, moves[1..], goal, n, evaluate)
  }

  /** The reference expansion of a concatenation is the concatenation of the expansions. */
  lemma {:induction false} SpawnAllAppend(node: Node, a: seq<Move>, b: seq<Move>, goal: seq<int>, n: int, evaluate: Evaluator)
    requires Expandable(node.grid, n)
    requires forall m :: m in a + b ==> Allowed(m, BlankAt(node.grid, n).0, BlankAt(node.grid, n).1, n)
    ensures SpawnAll(node, a + b, goal, n, evaluate)
         == SpawnAll(node, a, goal, n, evaluate) + SpawnAll(node, b, goal, n, evaluate)
    decreases |a|
  {
    if a == [] {
      assert a + b == b;
    } else {
      assert (a + b)[0] == a[0];
      assert (a + b)[1..] == a[1..] + b;
      SpawnAllAppend(node, a[1..], b, goal, n, evaluate);
    }
  }

  /** Expansion is the reference expansion of the legal moves: the k-th child is the
      k-th legal move applied to the parent's board, so children come out Right, Left,
      Down, Up, skipping the moves the edges forbid. */
  lemma {:induction false} ChildrenFollowMoves(node: Node, goal: seq<int>, n: int, evaluate: Evaluator)
    requires Expandable(node.grid, n)
    ensures Children(node, goal, n, evaluate) == SpawnAll(node, MovesFrom(node.grid, n), goal, n, evaluate)
  {
    var (x, y) := BlankAt(node.grid, n);
    var pr := if Allowed(Right, x, y, n) then [Right] else [];
    var pl := if Allowed(Left, x, y, n) then [Left] else [];
    var pd := if Allowed(Down, x, y, n) then [Down] else [];
    var pu := if Allowed(Up, x, y, n) then [Up] else [];
    assert MovesFrom(node.grid, n) == pr + pl + pd + pu;
    assert Branch(node, Right, goal, n, evaluate) == SpawnAll(node, pr, goal, n, evaluate);
    assert Branch(node, Left, goal, n, evaluate) == SpawnAll(node, pl, goal, n, evaluate);
    assert Branch(node, Down, goal, n, evaluate) == SpawnAll(node, pd, goal, n, evaluate);
    assert Branch(node, Up, goal, n, evaluate) == SpawnAll(node, pu, goal, n, evaluate);
    SpawnAllAppend(node, pr, pl, goal, n, evaluate);
    SpawnAllAppend(node, pr + pl, pd, goal, n, evaluate);
    SpawnAllAppend(node, pr + pl + pd, pu, goal, n, evaluate);
  }

  /** 1 when a guard holds, 0 otherwise. */
  function Count(b: bool): nat {
    if b then 1 else 0
  }

  /** The number of children is the number of edge guards the blank satisfies: two in
      a corner, three elsewhere on the border, four inside, none on a 1-by-1 board. */
  lemma ChildCount(node: Node, goal: seq<int>, n: int, evaluate: Evaluator)
    requires Expandable(node.grid, n)
    ensures var (x, y) := BlankAt(node.grid, n);
      var k := |Children(node, goal, n, evaluate)|;
      && k == Count(x < n - 1) + Count(x > 0) + Count(y < n - 1) + Count(y > 0)
      && (n == 1 ==> k == 0)
      && (n >= 2 && (x == 0 || x == n - 1) && (y == 0 || y == n - 1) ==> k == 2)
      && (n >= 2 && (0 < x < n - 1) != (0 < y < n - 1) ==> k == 3)
      && (n >= 2 && 0 < x < n - 1 && 0 < y < n - 1 ==> k == 4)
  {
    ChildrenFollowMoves(node, goal, n, evaluate);
  }

  /** Expansion keeps a tree consistent all the way up: if every ancestor's level and
      cost agree with its own parent, the same holds for each child. */
  lemma ExpansionKeepsChainConsistent(node: Node, goal: seq<int>, n: int, evaluate: Evaluator)
    requires Expandable(node.grid, n) && ChainConsistent(node)
    ensures forall c :: c in Children(node, goal, n, evaluate) ==> ChainConsistent(c) && c.level == Depth(c)
  {
    forall c | c in Children(node, goal, n, evaluate)
      ensures ChainConsistent(c) && c.level == Depth(c)
    {
      LevelIsDepth(c);
    }
  }

  /** Under uniform-cost search every child costs exactly one more than the node it
      came from, so the frontier never prefers a child over its parent. */
  lemma UniformChildrenCostMore(node: Node, goal: seq<int>, n: int, evaluate: Evaluator)
    requires Expandable(node.grid, n) && Consistent(node) && node.strategy == Uniform
    ensures forall c :: c in Children(node, goal, n, evaluate) ==> c.cost == node.cost + 1 && Less(node, c)
  {
  }

  /** On a legal board the blank is the only cell holding 0, so it sits at any index holding 0. */
  lemma BlankIsUnique(g: seq<int>, n: int, i: int)
    requires IsPuzzleGrid(g, n) && 0 <= i < |g| && g[i] == 0
    ensures Expandable(g, n) && BlankIndex(g, n) == i
  {
    UniqueBlank(g, n);
  }

  /** An allowed move swaps the blank's cell with a different cell of the board, the one
      at the neighbouring column and row. */
  lemma SlideSwaps(g: seq<int>, n: int, m: Move)
    requires Expandable(g, n) && Allowed(m, BlankAt(g, n).0, BlankAt(g, n).1, n)
    ensures var z := BlankIndex(g, n);
      var t := z + Offset(m, n);
      && 0 <= t < |g| && t != z
      && t == CellIndex(Step(m, BlankAt(g, n).0, BlankAt(g, n).1).0, Step(m, BlankAt(g, n).0, BlankAt(g, n).1).1, n)
      && Slide(g, n, m) == Swap(g, z, t)
  {
    var (x, y) := BlankAt(g, n);
    StepInBoard(m, x, y, n);
  }

  /** A move neither adds nor loses a value. */
  lemma SlidePermutes(g: seq<int>, n: int, m: Move)
    requires Expandable(g, n) && Allowed(m, BlankAt(g, n).0, BlankAt(g, n).1, n)
    ensures multiset(Slide(g, n, m)) == multiset(g)
  {
    SlideSwaps(g, n, m);
    SwapPermutes(g, BlankIndex(g, n), BlankIndex(g, n) + Offset(m, n));
  }

  /** A move on a legal board: the result is again a legal board; it differs from the
      original in exactly the blank's old cell and the neighbour's cell; and its blank
      sits at the neighbouring column and row the move names. */
  lemma {:induction false} SlideMovesBlank(g: seq<int>, n: int, m: Move)
    requires Expandable(g, n) && IsPuzzleGrid(g, n)
    requires Allowed(m, BlankAt(g, n).0, BlankAt(g, n).1, n)
    ensures var g' := Slide(g, n, m);
      var z := BlankIndex(g, n);
      && IsPuzzleGrid(g', n)
      && (forall k :: 0 <= k < |g| ==> (g'[k] != g[k] <==> k == z || k == z + Offset(m, n)))
      && Expandable(g', n)
      && BlankIndex(g', n) == z + Offset(m, n)
      && BlankAt(g', n) == Step(m, BlankAt(g, n).0, BlankAt(g, n).1)
  {
    var z := BlankIndex(g, n);
    var t := z + Offset(m, n);
    var g' := Slide(g, n, m);
    SlideSwaps(g, n, m);
    SlidePermutes(g, n, m);
    assert IsPuzzleGrid(g', n);
    assert g[t] != 0 by {
      UniqueBlank(g, n);
    }
    assert forall k :: 0 <= k < |g| ==> (g'[k] != g[k] <==> k == z || k == t);
    assert g'[t] == 0;
    BlankIsUnique(g', n, t);
    var (x', y') := Step(m, BlankAt(g, n).0, BlankAt(g, n).1);
    assert CellIndex(x', y', n) == t;
    StepInBoard(m, BlankAt(g, n).0, BlankAt(g, n).1, n);
    CoordinatesRoundTrip(x', y', n);
  }

  /** Every move can be undone: from the child's board the opposite move is allowed and
      restores the parent's board exactly. */
  lemma {:induction false} SlideIsReversible(g: seq<int>, n: int, m: Move)
    requires Expandable(g, n) && IsPuzzleGrid(g, n)
    requires Allowed(m, BlankAt(g, n).0, BlankAt(g, n).1, n)
    ensures var g' := Slide(g, n, m);
      && Expandable(g', n)
      && Allowed(Opposite(m), BlankAt(g', n).0, BlankAt(g', n).1, n)
      && Slide(g', n, Opposite(m)) == g
  {
    var (x, y) := BlankAt(g, n);
    StepInBoard(m, x, y, n);
    SlideMovesBlank(g, n, m);
    var z := BlankIndex(g, n);
    var t := z + Offset(m, n);
    var g' := Slide(g, n, m);
    assert g' == Swap(g, z, t);
    var (x', y') := BlankAt(g', n);
    assert (x', y') == Step(m, x, y);
    assert Allowed(Opposite(m), x', y', n);
    assert BlankIndex(g', n) == t;
    assert Offset(Opposite(m), n) == -Offset(m, n);
    assert Slide(g', n, Opposite(m)) == Swap(g', t, z);
    SwapBack(g, z, t);
  }

  /** Two boards that differ exactly at two distinct indices differ in two cells. */
  lemma TwoCellsDiffer(g: seq<int>, g': seq<int>, z: int, t: int)
    requires |g'| == |g| && 0 <= z < |g| && 0 <= t < |g| && z != t
    requires forall k :: 0 <= k < |g| ==> (g'[k] != g[k] <==> k == z || k == t)
    ensures |set k | 0 <= k < |g'| && g'[k] != g[k]| == 2
  {
    assert (set k | 0 <= k < |g'| && g'[k] != g[k]) == {z, t};
  }

  /** The child for one move on a legal board: its board is legal, differs from the
      parent's in exactly two cells, and one move leads back to the parent's board. */
  lemma ChildIsNeighbour(node: Node, m: Move, goal: seq<int>, n: int, evaluate: Evaluator)
    requires Expandable(node.grid, n) && IsPuzzleGrid(node.grid, n)
    requires Allowed(m, BlankAt(node.grid, n).0, BlankAt(node.grid, n).1, n)
    ensures var c := Spawn(node, Slide(node.grid, n, m), goal, n, evaluate);
      && IsPuzzleGrid(c.grid, n)
      && |set k | 0 <= k < |c.grid| && c.grid[k] != node.grid[k]| == 2
      && Expandable(c.grid, n)
      && Allowed(Opposite(m), BlankAt(c.grid, n).0, BlankAt(c.grid, n).1, n)
      && Slide(c.grid, n, Opposite(m)) == node.grid
  {
    var (x, y) := BlankAt(node.grid, n);
    StepInBoard(m, x, y, n);
    SlideMovesBlank(node.grid, n, m);
    SlideIsReversible(node.grid, n, m);
    var z := BlankIndex(node.grid, n);
    TwoCellsDiffer(node.grid, Slide(node.grid, n, m), z, z + Offset(m, n));
  }

  /** Expansion on a legal board: every child's board is again legal, differs from the
      parent's in exactly two cells, and a single move leads back to the parent's board. */
  lemma ChildrenAreNeighbours(node: Node, goal: seq<int>, n: int, evaluate: Evaluator)
    requires Expandable(node.grid, n) && IsPuzzleGrid(node.grid, n)
    ensures forall c :: c in Children(node, goal, n, evaluate) ==>
      && IsPuzzleGrid(c.grid, n)
      && |set k | 0 <= k < |c.grid| && c.grid[k] != node.grid[k]| == 2
      && Expandable(c.grid, n)
      && exists m :: Allowed(m, BlankAt(c.grid, n).0, BlankAt(c.grid, n).1, n) && Slide(c.grid, n, m) == node.grid
  {
    ChildrenFollowMoves(node, goal, n, evaluate);
    var moves := MovesFrom(node.grid, n);
    var kids := Children(node, goal, n, evaluate);
    forall c | c in kids
      ensures && IsPuzzleGrid(c.grid, n)
              && |set k | 0 <= k < |c.grid| && c.grid[k] != node.grid[k]| == 2
              && Expandable(c.grid, n)
              && exists m :: Allowed(m, BlankAt(c.grid, n).0, BlankAt(c.grid, n).1, n) && Slide(c.grid, n, m) == node.grid
    {
      var i :| 0 <= i < |kids| && kids[i] == c;
      ChildIsNeighbour(node, moves[i], goal, n, evaluate);
      var back := Opposite(moves[i]);
      assert Allowed(back, BlankAt(c.grid, n).0, BlankAt(c.grid, n).1, n) && Slide(c.grid, n, back) == node.grid;
    }
  }

  /** Every child's board holds the same values as its parent's, rearranged. */
  lemma ChildrenPermuteParent(node: Node, goal: seq<int>, n: int, evaluate: Evaluator)
    requires Expandable(node.grid, n)
    ensures forall c :: c in Children(node, goal, n, evaluate) ==> multiset(c.grid) == multiset(node.grid)
  {
    ChildrenFollowMoves(node, goal, n, evaluate);
    var moves := MovesFrom(node.grid, n);
    var kids := Children(node, goal, n, evaluate);
    forall c | c in kids
      ensures multiset(c.grid) == multiset(node.grid)
    {
      var i :| 0 <= i < |kids| && kids[i] == c;
      SlidePermutes(node.grid, n, moves[i]);
    }
  }
}
