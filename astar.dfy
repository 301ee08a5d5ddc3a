/** The search itself, written as the loops it is: pop the least tuple, stop at the goal and walk
    back, otherwise close the position and try its eight neighbours. Each step is proved to follow
    the search as a function, so the theorems about that function hold for what this returns. */
module AStar {
  import opened Grid2D
  import opened OpenHeap
  import opened SearchState
  import opened SearchInvariant
  import opened SearchSpec

  /** astar(grid, start, goal, reverse): NotFound stands for the source's False. */
  method AStar(grid: Grid, start: Pos, goal: Pos, reverse: bool) returns (r: Outcome)
    requires WellFormed(grid)
    ensures r == AStarResult(grid, start, goal, reverse)
  {
    var closeSet: set<Pos> := {};
    var cameFrom: map<Pos, Pos> := map[];
    var gscore: map<Pos, int> := map[start := 0];
    var fscore: map<Pos, int> := map[start := Heuristic(start, goal)];
    var oheap: seq<Entry> := [(fscore[start], start)];
    assert State(multiset(oheap), closeSet, cameFrom, gscore, fscore) == Init(start, goal);
    InitInv(grid, start, goal);

    while |oheap| > 0
      invariant Inv(grid, start, goal, State(multiset(oheap), closeSet, cameFrom, gscore, fscore))
      invariant Run(grid, start, goal, State(multiset(oheap), closeSet, cameFrom, gscore, fscore))
        == Run(grid, start, goal, Init(start, goal))
      decreases Missing(grid, State(multiset(oheap), closeSet, cameFrom, gscore, fscore)),
        Cost(grid, State(multiset(oheap), closeSet, cameFrom, gscore, fscore)), |oheap|
    {
      ghost var st := State(multiset(oheap), closeSet, cameFrom, gscore, fscore);
      var e, rest := PopMin(oheap);
      MinUnique(st.heap, e, MinOf(st.heap));
      var current := e.1;

      if current == goal {
        CoreDescending(grid, start, goal, st);
        var data := WalkBack(cameFrom, gscore, current);
        return if reverse then Found(Reversed(data)) else Found(data);
      }

      PopStep(grid, start, goal, st, e);
      oheap := rest;
      closeSet := closeSet + {current};
      oheap, cameFrom, gscore, fscore := ExpandNeighbors(grid, goal, current, oheap, closeSet, cameFrom, gscore, fscore);
    }
    return NotFound;
  }

  /** Tries the eight neighbours of current, in the order of the offset list. */
  method ExpandNeighbors(grid: Grid, goal: Pos, current: Pos, oheap0: seq<Entry>, closeSet: set<Pos>,
                         cameFrom0: map<Pos, Pos>, gscore0: map<Pos, int>, fscore0: map<Pos, int>)
    returns (oheap: seq<Entry>, cameFrom: map<Pos, Pos>, gscore: map<Pos, int>, fscore: map<Pos, int>)
    requires WellFormed(grid) && current in gscore0
    ensures State(multiset(oheap), closeSet, cameFrom, gscore, fscore)
      == ExpandPrefix(grid, goal, State(multiset(oheap0), closeSet, cameFrom0, gscore0, fscore0), current, |Neighbors|)
  {
    ghost var pre := State(multiset(oheap0), closeSet, cameFrom0, gscore0, fscore0);
    oheap, cameFrom, gscore, fscore := oheap0, cameFrom0, gscore0, fscore0;
    for k := 0 to |Neighbors|
      invariant State(multiset(oheap), closeSet, cameFrom, gscore, fscore)
        == ExpandPrefix(grid, goal, pre, current, k)
    {
      oheap, cameFrom, gscore, fscore := TryNeighbor(grid, goal, current, Neighbors[k], oheap, closeSet, cameFrom, gscore, fscore);
    }
  }

  /** One pass of the neighbour loop, for the neighbour at offset from current: one outside the
      grid or on a blocked cell is skipped, so is a closed one the new score does not improve, and
      any other is recorded when its new score improves on the known one (0 when it has none) or
      it has no tuple in the open list. */
  method TryNeighbor(grid: Grid, goal: Pos, current: Pos, offset: Pos, oheap0: seq<Entry>, closeSet: set<Pos>,
                     cameFrom0: map<Pos, Pos>, gscore0: map<Pos, int>, fscore0: map<Pos, int>)
    returns (oheap: seq<Entry>, cameFrom: map<Pos, Pos>, gscore: map<Pos, int>, fscore: map<Pos, int>)
    requires WellFormed(grid) && current in gscore0
    ensures State(multiset(oheap), closeSet, cameFrom, gscore, fscore)
      == Relax(grid, goal, State(multiset(oheap0), closeSet, cameFrom0, gscore0, fscore0), current, offset)
  {
    ghost var s := State(multiset(oheap0), closeSet, cameFrom0, gscore0, fscore0);
    oheap, cameFrom, gscore, fscore := oheap0, cameFrom0, gscore0, fscore0;
    var (i, j) := offset;
    var neighbor := (current.0 + i, current.1 + j);
    assert neighbor == Add(current, offset);
    var tentative := gscore[current] + Heuristic(current, neighbor);
    if !(0 <= neighbor.0 < |grid|) || !(0 <= neighbor.1 < |grid[0]|) || grid[neighbor.0][neighbor.1] == 1 {
      assert !Passable(grid, neighbor);
      return;
    }
    var known := if neighbor in gscore then gscore[neighbor] else 0;
    assert known == KnownScore(s.g, neighbor);
    if neighbor in closeSet && tentative >= known {
      assert !Admits(grid, s, current, neighbor);
      return;
    }
    var inHeap := HasPosition(oheap, neighbor);
    if tentative < known || !inHeap {
      assert Admits(grid, s, current, neighbor);
      AdmittedFields(goal, s, current, neighbor);
      cameFrom := cameFrom[neighbor := current];
      gscore := gscore[neighbor := tentative];
      fscore := fscore[neighbor := tentative + Heuristic(neighbor, goal)];
      oheap := oheap + [(fscore[neighbor], neighbor)];
      assert multiset(oheap) == s.heap + multiset{(fscore[neighbor], neighbor)};
    } else {
      assert !Admits(grid, s, current, neighbor);
    }
  }

  /** Collects the positions met following the predecessor map back from current, current first,
      stopping at the first position without a predecessor. */
  method WalkBack(cameFrom: map<Pos, Pos>, gscore: map<Pos, int>, from: Pos) returns (data: seq<Pos>)
    requires Descending(cameFrom, gscore)
    ensures data == Walk(cameFrom, gscore, from)
  {
    var current := from;
    data := [];
    while current in cameFrom
      invariant Walk(cameFrom, gscore, from) == data + Walk(cameFrom, gscore, current)
      decreases if current in cameFrom then gscore[current] else 0
    {
      var next := cameFrom[current];
      ghost var rest := Walk(cameFrom, gscore, next);
      assert Walk(cameFrom, gscore, current) == [current] + rest;
      ConcatAssoc(data, [current], rest);
      data := data + [current];
      current := next;
    }
  }

  /** Regrouping a concatenation, kept apart so the walk-back loop proves it without its own facts in view. */
  lemma ConcatAssoc(a: seq<Pos>, b: seq<Pos>, c: seq<Pos>)
    ensures a + (b + c) == (a + b) + c
  {
  }
}
