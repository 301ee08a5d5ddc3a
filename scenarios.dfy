/** The map of the unit tests and what the search returns on it. */
module Scenarios {
  import opened Grid2D
  import opened SearchState
  import opened SearchSpec

  /** Eleven rows of fourteen columns: free rows alternate with walls that have one gap each,
      the gaps lying at column 12 and column 1 by turns. */
  const TestGrid: Grid := [
    [0,0,0,0,0,0,0,0,0,0,0,0,0,0],
    [1,1,1,1,1,1,1,1,1,1,1,1,0,1],
    [0,0,0,0,0,0,0,0,0,0,0,0,0,0],
    [1,0,1,1,1,1,1,1,1,1,1,1,1,1],
    [0,0,0,0,0,0,0,0,0,0,0,0,0,0],
    [1,1,1,1,1,1,1,1,1,1,1,1,0,1],
    [0,0,0,0,0,0,0,0,0,0,0,0,0,0],
    [1,0,1,1,1,1,1,1,1,1,1,1,1,1],
    [0,0,0,0,0,0,0,0,0,0,0,0,0,0],
    [1,1,1,1,1,1,1,1,1,1,1,1,0,1],
    [0,0,0,0,0,0,0,0,0,0,0,0,0,0]]

  /** Row 1 is a wall from column 0 to column 11. */
  lemma FirstWall()
    ensures WellFormed(TestGrid)
    ensures forall c :: 0 <= c <= 11 ==> TestGrid[1][c] == 1
  {
  }

  /** The only free cell next to the corner (0, 0) is (0, 1). */
  lemma CornerExit(p: Pos)
    requires WellFormed(TestGrid) && Adjacent((0, 0), p) && Passable(TestGrid, p)
    ensures p == (0, 1)
  {
    FirstWall();
    AdjacentMeans((0, 0), p);
  }

  /** A back trail from the corner ends in (0, 1). */
  lemma TrailFromCorner(goal: Pos, w: seq<Pos>)
    requires WellFormed(TestGrid) && BackTrail(TestGrid, (0, 0), goal, w) && w != []
    ensures w[|w| - 1] == (0, 1)
  {
    CornerExit(w[|w| - 1]);
  }

  /** The only back trail from (0, 1) to the corner is [(0, 1)]. */
  lemma NextCellTrail(w: seq<Pos>)
    requires WellFormed(TestGrid) && BackTrail(TestGrid, (0, 0), (0, 1), w)
    ensures w == [(0, 1)]
  {
    TrailFromCorner((0, 1), w);
    assert w[0] == w[|w| - 1];
  }

  /** astar(nmap, (0,0), (0,1)) == [(0,1)], in either order. */
  lemma NextCell(reverse: bool)
    ensures WellFormed(TestGrid)
    ensures AStarResult(TestGrid, (0, 0), (0, 1), reverse) == Found([(0, 1)])
  {
    FirstWall();
    var route := [(0, 1)];
    assert Adjacent(Prev((0, 0), route, 0), route[0]);
    assert IsRoute(TestGrid, (0, 0), route) && RouteEnd((0, 0), route) == (0, 1);
    NotFoundIffUnreachable(TestGrid, (0, 0), (0, 1), false);
    ForwardResult(TestGrid, (0, 0), (0, 1));
    NextCellTrail(AStarResult(TestGrid, (0, 0), (0, 1), false).path);
    ReverseRoundTrip(TestGrid, (0, 0), (0, 1));
    SingleReversed((0, 1));
  }

  /** A one-entry list is its own reverse. */
  lemma SingleReversed(p: Pos)
    ensures Reversed([p]) == [p]
  {
    assert Reversed([p])[0] == p;
  }

  /** astar(nmap, (0,0), (1,5)) is False: the goal is a wall cell. */
  lemma WallGoal()
    ensures WellFormed(TestGrid)
    ensures AStarResult(TestGrid, (0, 0), (1, 5), true) == NotFound
  {
    FirstWall();
    BlockedGoal(TestGrid, (0, 0), (1, 5), true);
  }

  /** astar(nmap, (-1,20), (100,500)) is False: the goal lies outside the map. */
  lemma OutsideGoal()
    ensures WellFormed(TestGrid)
    ensures AStarResult(TestGrid, (-1, 20), (100, 500), true) == NotFound
  {
    FirstWall();
    BlockedGoal(TestGrid, (-1, 20), (100, 500), true);
  }

  /** From the start (-1, 20), outside the map, every other goal gives False. */
  lemma OutsideStart(goal: Pos, reverse: bool)
    requires goal != (-1, 20)
    ensures WellFormed(TestGrid)
    ensures AStarResult(TestGrid, (-1, 20), goal, reverse) == NotFound
  {
    FirstWall();
    forall p | Adjacent((-1, 20), p)
      ensures !Passable(TestGrid, p)
    {
      AdjacentMeans((-1, 20), p);
    }
    IsolatedStart(TestGrid, (-1, 20), goal, reverse);
  }

  // ----- the corridor along the top row -----

  /** Row 0 up to column 5: the stretch the wall below closes off from the rest of the map. */
  predicate LeftOfGap(p: Pos)
  {
    p.0 == 0 && p.1 <= 5
  }

  /** Apart from (0, 5), a free cell of that stretch has free neighbours only inside it. */
  lemma Gate(a: Pos, b: Pos)
    requires WellFormed(TestGrid) && Passable(TestGrid, a) && Passable(TestGrid, b) && Adjacent(a, b)
    ensures LeftOfGap(b) && b != (0, 5) ==> LeftOfGap(a)
  {
    FirstWall();
    AdjacentMeans(a, b);
  }

  /** A back trail from (0, 5) whose second cell lies outside the stretch never enters it, since
      it cannot pass (0, 5) a second time. */
  lemma {:induction false} StaysOutside(w: seq<Pos>, i: nat)
    requires WellFormed(TestGrid) && BackTrail(TestGrid, (0, 0), (0, 5), w) && 1 <= i < |w|
    ensures !LeftOfGap(w[1]) ==> !LeftOfGap(w[i])
  {
    if i > 1 {
      var j: nat := i - 1;
      StaysOutside(w, j);
      assert Adjacent(w[j + 1], w[j]);
      AdjacentMeans(w[i], w[j]);
      assert w[0] != w[i];
      Gate(w[j], w[i]);
    }
  }

  /** Below row 0 lies wall up to column 11, so a free cell one move from a cell of row 0 left
      of column 11 is its left or right neighbour. */
  lemma AlongTopRow(a: Pos, b: Pos)
    requires WellFormed(TestGrid) && a.0 == 0 && a.1 <= 10 && Passable(TestGrid, b) && Adjacent(b, a)
    ensures b == (0, a.1 - 1) || b == (0, a.1 + 1)
  {
    FirstWall();
    AdjacentMeans(b, a);
  }

  /** Inside the stretch a back trail from (0, 5) can only keep moving left. */
  lemma LeftStep(w: seq<Pos>, i: nat)
    requires WellFormed(TestGrid) && BackTrail(TestGrid, (0, 0), (0, 5), w)
    requires 1 <= i <= 3 && i + 1 < |w| && w[i - 1] == (0, 6 - i) && w[i] == (0, 5 - i)
    ensures w[i + 1] == (0, 4 - i)
  {
    assert Adjacent(w[i + 1], w[i]) && Passable(TestGrid, w[i + 1]);
    AlongTopRow(w[i], w[i + 1]);
    assert w[i - 1] != w[i + 1];
  }

  /** The top row is a route from the corner to (0, 5). */
  lemma TopRowReachable()
    ensures WellFormed(TestGrid) && Reachable(TestGrid, (0, 0), (0, 5))
  {
    FirstWall();
    var route := [(0, 1), (0, 2), (0, 3), (0, 4), (0, 5)];
    forall i | 0 <= i < |route|
      ensures Passable(TestGrid, route[i]) && Adjacent(Prev((0, 0), route, i), route[i])
    {
    }
    assert IsRoute(TestGrid, (0, 0), route) && RouteEnd((0, 0), route) == (0, 5);
  }

  /** The only back trail from (0, 5) to the corner is the straight one along the top row. */
  lemma TopRowTrail(w: seq<Pos>)
    requires WellFormed(TestGrid) && BackTrail(TestGrid, (0, 0), (0, 5), w)
    ensures w == [(0, 5), (0, 4), (0, 3), (0, 2), (0, 1)]
  {
    FirstWall();
    TrailFromCorner((0, 5), w);
    var last := |w| - 1;
    assert w[0] == (0, 5) && w[last] == (0, 1);
    StaysOutside(w, last);
    assert Adjacent(w[1], w[0]) && Passable(TestGrid, w[1]);
    AlongTopRow(w[0], w[1]);
    assert w[1] == (0, 4);
    LeftStep(w, 1);
    LeftStep(w, 2);
    LeftStep(w, 3);
    assert w[4] == w[last];
  }

  /** astar(nmap, (0,0), (0,5)) walks the top row: [(0,5), (0,4), (0,3), (0,2), (0,1)] without
      reverse and [(0,1), (0,2), (0,3), (0,4), (0,5)] with it. */
  lemma TopRow()
    ensures WellFormed(TestGrid)
    ensures AStarResult(TestGrid, (0, 0), (0, 5), false) == Found([(0, 5), (0, 4), (0, 3), (0, 2), (0, 1)])
    ensures AStarResult(TestGrid, (0, 0), (0, 5), true) == Found([(0, 1), (0, 2), (0, 3), (0, 4), (0, 5)])
  {
    TopRowReachable();
    NotFoundIffUnreachable(TestGrid, (0, 0), (0, 5), false);
    ForwardResult(TestGrid, (0, 0), (0, 5));
    var w := AStarResult(TestGrid, (0, 0), (0, 5), false).path;
    TopRowTrail(w);
    ReverseRoundTrip(TestGrid, (0, 0), (0, 5));
    TopRowReversed();
  }

  /** The two lists the tests compare against are each other's reverse. */
  lemma TopRowReversed()
    ensures Reversed([(0, 5), (0, 4), (0, 3), (0, 2), (0, 1)]) == [(0, 1), (0, 2), (0, 3), (0, 4), (0, 5)]
  {
    var r := Reversed([(0, 5), (0, 4), (0, 3), (0, 2), (0, 1)]);
    assert r[0] == (0, 1) && r[1] == (0, 2) && r[2] == (0, 3) && r[3] == (0, 4) && r[4] == (0, 5);
  }

  // ----- the far corner -----

  /** Rows 0, 2, 4, 6, 8 and 10 are free from end to end. */
  lemma FreeRows()
    ensures WellFormed(TestGrid)
    ensures forall r, c :: r in {0, 2, 4, 6, 8, 10} && 0 <= c < 14 ==> Passable(TestGrid, (r, c))
  {
  }

  /** The start reaches (10, 13) by running along each free row to its gap and stepping through. */
  lemma FarCornerReachable()
    ensures WellFormed(TestGrid) && Reachable(TestGrid, (0, 0), (10, 13))
  {
    FreeRows();
    var s := (0, 0);
    assert IsRoute(TestGrid, s, []) && RouteEnd(s, []) == s;
    ReachAlongRow(TestGrid, s, 0, 0, 11);
    ReachStep(TestGrid, s, (0, 11), (1, 12));
    ReachStep(TestGrid, s, (1, 12), (2, 11));
    ReachAlongRow(TestGrid, s, 2, 11, 2);
    ReachStep(TestGrid, s, (2, 2), (3, 1));
    ReachStep(TestGrid, s, (3, 1), (4, 2));
    ReachAlongRow(TestGrid, s, 4, 2, 11);
    ReachStep(TestGrid, s, (4, 11), (5, 12));
    ReachStep(TestGrid, s, (5, 12), (6, 11));
    ReachAlongRow(TestGrid, s, 6, 11, 2);
    ReachStep(TestGrid, s, (6, 2), (7, 1));
    ReachStep(TestGrid, s, (7, 1), (8, 2));
    ReachAlongRow(TestGrid, s, 8, 2, 11);
    ReachStep(TestGrid, s, (8, 11), (9, 12));
    ReachStep(TestGrid, s, (9, 12), (10, 13));
  }

  /** astar(nmap, (0,0), (10,13)) finds a path, and like the list the test expects it starts at
      (10, 13) and ends at (0, 1). */
  lemma FarCorner()
    ensures WellFormed(TestGrid) && AStarResult(TestGrid, (0, 0), (10, 13), false).Found?
    ensures var p := AStarResult(TestGrid, (0, 0), (10, 13), false).path;
      |p| > 0 && p[0] == (10, 13) && p[|p| - 1] == (0, 1)
  {
    FarCornerReachable();
    NotFoundIffUnreachable(TestGrid, (0, 0), (10, 13), false);
    ForwardResult(TestGrid, (0, 0), (10, 13));
    TrailFromCorner((10, 13), AStarResult(TestGrid, (0, 0), (10, 13), false).path);
  }
}
