/** Positions, the grid, the eight moves and the squared-distance heuristic. */
module Grid2D {

  /** A (row, column) pair; it may lie outside the grid. */
  type Pos = (int, int)

  /** Cell markers, read as grid[row][column]; a cell holding 1 is blocked. */
  type Grid = seq<seq<int>>

  /** The eight offsets, in the order the search tries them. */
  const Neighbors: seq<Pos> := [(0, 1), (0, -1), (1, 0), (-1, 0), (1, 1), (1, -1), (-1, 1), (-1, -1)]

  function Add(p: Pos, d: Pos): Pos
  {
    (p.0 + d.0, p.1 + d.1)
  }

  function Abs(x: int): nat
  {
    if x < 0 then -x else x
  }

  /** x * x (the source's `** 2`), built up as the sum of the first x odd numbers. It is recursive
      so that no product of two variables reaches the solver in the search proofs; SquareIsProduct
      ties it to x * x. */
  function Square(x: nat): (s: nat)
    ensures s == 0 <==> x == 0
  {
    if x == 0 then 0 else Square(x - 1) + 2 * x - 1
  }

  lemma {:induction false} SquareIsProduct(x: nat)
    ensures Square(x) == x * x
  {
    if x > 0 {
      SquareIsProduct(x - 1);
      assert (x - 1) * (x - 1) == x * x - 2 * x + 1;
    }
  }

  /** The squared Euclidean distance; it is both the cost of one move and the estimate to the goal. */
  function Heuristic(a: Pos, b: Pos): (h: nat)
    ensures h == 0 <==> a == b
  {
    Square(Abs(b.0 - a.0)) + Square(Abs(b.1 - a.1))
  }

  /** The estimate is the sum of the squared row and column differences, and is symmetric. */
  lemma HeuristicIsSquaredDistance(a: Pos, b: Pos)
    ensures Heuristic(a, b) == (b.0 - a.0) * (b.0 - a.0) + (b.1 - a.1) * (b.1 - a.1)
    ensures Heuristic(a, b) == Heuristic(b, a)
  {
    SquareIsProduct(Abs(b.0 - a.0));
    SquareIsProduct(Abs(b.1 - a.1));
    assert Abs(b.0 - a.0) * Abs(b.0 - a.0) == (b.0 - a.0) * (b.0 - a.0);
    assert Abs(b.1 - a.1) * Abs(b.1 - a.1) == (b.1 - a.1) * (b.1 - a.1);
  }

  /** b is one of the eight moves away from a. */
  predicate Adjacent(a: Pos, b: Pos)
  {
    (b.0 - a.0, b.1 - a.1) in Neighbors
  }

  /** A right-angle move costs 1 and a diagonal move costs 2, so every move adds at least 1
      to the cost of the cell it starts from. */
  lemma MoveCost(p: Pos, k: int)
    requires 0 <= k < |Neighbors|
    ensures Adjacent(p, Add(p, Neighbors[k]))
    ensures Heuristic(p, Add(p, Neighbors[k])) == if k < 4 then 1 else 2
  {
  }

  /** Adjacency is exactly the eight-neighbourhood: distinct cells at most one row and one column apart. */
  lemma AdjacentMeans(a: Pos, b: Pos)
    ensures Adjacent(a, b) <==> a != b && -1 <= b.0 - a.0 <= 1 && -1 <= b.1 - a.1 <= 1
    ensures Adjacent(a, b) ==> 1 <= Heuristic(a, b) <= 2
    ensures Adjacent(a, b) <==> Adjacent(b, a)
  {
    if Adjacent(a, b) {
      var k :| 0 <= k < |Neighbors| && Neighbors[k] == (b.0 - a.0, b.1 - a.1);
      assert b == Add(a, Neighbors[k]);
      MoveCost(a, k);
    }
  }

  /** Every row is as long as the first one, which exists. */
  predicate WellFormed(grid: Grid)
  {
    |grid| > 0 && forall r :: 0 <= r < |grid| ==> |grid[r]| == |grid[0]|
  }

  /** A position the search may step onto: inside the grid and not blocked. */
  predicate Passable(grid: Grid, p: Pos)
    requires WellFormed(grid)
  {
    0 <= p.0 < |grid| && 0 <= p.1 < |grid[0]| && grid[p.0][p.1] != 1
  }
}
