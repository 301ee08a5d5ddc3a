/** What a search returns, as a function of the grid, the endpoints and the reverse flag, and
    the theorems about it: a returned list is a trail of free cells one move apart that leads
    back from the goal to a cell next to the start, and nothing is returned exactly when no
    route of such moves leads from the start to the goal. */
module SearchSpec {
  import opened Grid2D
  import opened OpenHeap
  import opened SearchState
  import opened SearchInvariant

  /** The result of a search: no path (the source's False) or the list of positions. */
  datatype Outcome = NotFound | Found(path: seq<Pos>)

  // ----- routes -----

  /** The cell a route step starts from: the start for the first step. */
  function Prev(start: Pos, route: seq<Pos>, i: int): Pos
    requires 0 <= i < |route|
  {
    if i == 0 then start else route[i - 1]
  }

  /** A route from start: each listed cell is free and one move from the cell before it. */
  ghost predicate IsRoute(grid: Grid, start: Pos, route: seq<Pos>)
    requires WellFormed(grid)
  {
    forall i {:trigger Prev(start, route, i)} :: 0 <= i < |route| ==> Passable(grid, route[i]) && Adjacent(Prev(start, route, i), route[i])
  }

  /** Where a route ends; the empty route stays at the start. */
  function RouteEnd(start: Pos, route: seq<Pos>): Pos
  {
    if route == [] then start else route[|route| - 1]
  }

  ghost predicate Reachable(grid: Grid, start: Pos, goal: Pos)
    requires WellFormed(grid)
  {
    exists route :: IsRoute(grid, start, route) && RouteEnd(start, route) == goal
  }

  /** No position occurs twice. */
  ghost predicate Distinct(s: seq<Pos>)
  {
    forall i, j :: 0 <= i < j < |s| ==> s[i] != s[j]
  }

  /** The list a search returns when reverse is not set: empty exactly when start is the goal,
      otherwise the goal first and a cell next to the start last, each entry free, not the start,
      one move from the entry after it, and no entry repeated. */
  ghost predicate BackTrail(grid: Grid, start: Pos, goal: Pos, w: seq<Pos>)
    requires WellFormed(grid)
  {
    && (w == [] <==> start == goal)
    && (w != [] ==> w[0] == goal && Adjacent(start, w[|w| - 1]))
    && (forall i :: 0 <= i < |w| ==> Passable(grid, w[i]) && w[i] != start)
    && (forall i :: 0 <= i < |w| - 1 ==> Adjacent(w[i + 1], w[i]))
    && Distinct(w)
  }

  // ----- the search as a function -----

  /** The outcome of the search loop from a state that satisfies the loop invariant: the least
      tuple is popped; the goal ends the search with the walk back from it; any other position is
      closed and its neighbours tried; an empty open list ends it with no path. */
  ghost function Run(grid: Grid, start: Pos, goal: Pos, st: State): Outcome
    requires WellFormed(grid) && Inv(grid, start, goal, st)
    decreases Missing(grid, st), Cost(grid, st), |st.heap|
  {
    if |st.heap| == 0 then NotFound
    else
      var e := MinOf(st.heap);
      if e.1 == goal then
        CoreDescending(grid, start, goal, st);
        Found(Walk(st.cameFrom, st.g, goal))
      else
        PopStep(grid, start, goal, st, e);
        Run(grid, start, goal, Expand(grid, goal, st.(heap := st.heap - multiset{e}), e.1))
  }

  /** The result of astar(grid, start, goal, reverse). */
  ghost function AStarResult(grid: Grid, start: Pos, goal: Pos, reverse: bool): Outcome
    requires WellFormed(grid)
  {
    InitInv(grid, start, goal);
    var o := Run(grid, start, goal, Init(start, goal));
    if reverse && o.Found? then Found(Reversed(o.path)) else o
  }

  // ----- the walk back -----

  /** g-scores fall strictly along the walk, so no position repeats. */
  lemma {:induction false} WalkDescends(cameFrom: map<Pos, Pos>, g: map<Pos, int>, p: Pos)
    requires Descending(cameFrom, g)
    ensures forall i, j :: 0 <= i < j < |Walk(cameFrom, g, p)| ==>
      g[Walk(cameFrom, g, p)[j]] < g[Walk(cameFrom, g, p)[i]]
    ensures Distinct(Walk(cameFrom, g, p))
    decreases if p in cameFrom then g[p] else 0
  {
    var w := Walk(cameFrom, g, p);
    if p in cameFrom {
      var q := cameFrom[p];
      WalkDescends(cameFrom, g, q);
      var u := Walk(cameFrom, g, q);
      assert w == [p] + u;
      if u != [] {
        assert u[0] == q;
      }
      forall i, j | 0 <= i < j < |w|
        ensures g[w[j]] < g[w[i]]
      {
        if i > 0 {
          assert w[i] == u[i - 1] && w[j] == u[j - 1];
        } else {
          assert w[j] == u[j - 1];
          if j > 1 {
            assert g[u[j - 1]] < g[u[0]];
          }
        }
      }
    }
  }

  /** Once the goal is the least tuple of a state satisfying the invariant, the walk back from it
      is a back trail. */
  lemma WalkIsBackTrail(grid: Grid, start: Pos, goal: Pos, st: State)
    requires WellFormed(grid) && Inv(grid, start, goal, st) && |st.heap| > 0 && MinOf(st.heap).1 == goal
    ensures Descending(st.cameFrom, st.g)
    ensures BackTrail(grid, start, goal, Walk(st.cameFrom, st.g, goal))
  {
    CoreDescending(grid, start, goal, st);
    var w := Walk(st.cameFrom, st.g, goal);
    WalkDescends(st.cameFrom, st.g, goal);
    var e := MinOf(st.heap);
    assert e in st.heap;
    assert goal == start || goal in st.cameFrom;
    forall i | 0 <= i < |w|
      ensures Passable(grid, w[i]) && w[i] != start
    {
      assert Link(grid, start, st, w[i]);
    }
    forall i | 0 <= i < |w| - 1
      ensures Adjacent(w[i + 1], w[i])
    {
      assert Link(grid, start, st, w[i]);
    }
    if w != [] {
      var last := w[|w| - 1];
      assert Link(grid, start, st, last);
    }
  }

  /** Read backwards and entered from the start, a back trail is a route to the goal that
      never returns to the start. */
  lemma BackTrailRoute(grid: Grid, start: Pos, goal: Pos, w: seq<Pos>)
    requires WellFormed(grid) && BackTrail(grid, start, goal, w)
    ensures IsRoute(grid, start, Reversed(w)) && RouteEnd(start, Reversed(w)) == goal
    ensures start !in Reversed(w) && Distinct(Reversed(w))
  {
    var r := Reversed(w);
    var n := |w|;
    forall i | 0 <= i < |r|
      ensures Passable(grid, r[i]) && Adjacent(Prev(start, r, i), r[i])
    {
      assert r[i] == w[n - 1 - i];
      if i > 0 {
        assert r[i - 1] == w[n - 1 - i + 1];
      }
    }
    forall i, j | 0 <= i < j < |r|
      ensures r[i] != r[j]
    {
      assert r[i] == w[n - 1 - i] && r[j] == w[n - 1 - j];
    }
    forall i | 0 <= i < |r|
      ensures r[i] != start
    {
      assert r[i] == w[n - 1 - i];
    }
  }

  // ----- an exhausted search -----

  /** With the open list empty, every cell on a route from the start is closed. */
  lemma {:induction false} RouteClosed(grid: Grid, start: Pos, st: State, route: seq<Pos>, k: nat)
    requires WellFormed(grid) && IsRoute(grid, start, route) && k < |route|
    requires ClosedSettled(grid, st, {}) && Positions(st.heap) == {} && start in st.closed
    ensures route[k] in st.closed
  {
    var a, b := Prev(start, route, k), route[k];
    if k > 0 {
      var j: nat := k - 1;
      RouteClosed(grid, start, st, route, j);
      assert a == route[j];
    }
    assert Passable(grid, b) && Adjacent(a, b);
    var d :| 0 <= d < |Neighbors| && Neighbors[d] == (b.0 - a.0, b.1 - a.1);
    assert b == Add(a, Neighbors[d]);
  }

  /** When the open list runs empty under the invariant, no route leads to the goal. */
  lemma ExhaustedUnreachable(grid: Grid, start: Pos, goal: Pos, st: State)
    requires WellFormed(grid) && Inv(grid, start, goal, st) && |st.heap| == 0
    ensures !Reachable(grid, start, goal)
  {
    assert Positions(st.heap) == {};
    forall route | IsRoute(grid, start, route)
      ensures RouteEnd(start, route) != goal
    {
      if route != [] {
        RouteClosed(grid, start, st, route, |route| - 1);
      }
    }
  }

  // ----- building routes -----

  /** A free cell one move from a reachable one is reachable. */
  lemma ReachStep(grid: Grid, start: Pos, a: Pos, b: Pos)
    requires WellFormed(grid) && Reachable(grid, start, a) && Adjacent(a, b) && Passable(grid, b)
    ensures Reachable(grid, start, b)
  {
    var r :| IsRoute(grid, start, r) && RouteEnd(start, r) == a;
    var route := r + [b];
    forall i | 0 <= i < |route|
      ensures Passable(grid, route[i]) && Adjacent(Prev(start, route, i), route[i])
    {
      if i < |r| {
        assert Prev(start, route, i) == Prev(start, r, i) && route[i] == r[i];
        assert Adjacent(Prev(start, r, i), r[i]);
      } else {
        assert Prev(start, route, i) == RouteEnd(start, r);
      }
    }
    assert IsRoute(grid, start, route) && RouteEnd(start, route) == b;
  }

  /** Along a free stretch of a row, every cell is reachable once one end is. */
  lemma {:induction false} ReachAlongRow(grid: Grid, start: Pos, row: int, c: int, c2: int)
    requires WellFormed(grid) && Reachable(grid, start, (row, c))
    requires forall k :: (c <= k <= c2 || c2 <= k <= c) ==> Passable(grid, (row, k))
    ensures Reachable(grid, start, (row, c2))
    decreases Abs(c2 - c)
  {
    if c != c2 {
      var next := if c < c2 then c + 1 else c - 1;
      assert Passable(grid, (row, next));
      ReachStep(grid, start, (row, c), (row, next));
      ReachAlongRow(grid, start, row, next, c2);
    }
  }

  // ----- the theorems -----

  /** From any state satisfying the invariant, the search returns a back trail or establishes
      that the goal cannot be reached. */
  lemma {:induction false} RunFacts(grid: Grid, start: Pos, goal: Pos, st: State)
    requires WellFormed(grid) && Inv(grid, start, goal, st)
    ensures Run(grid, start, goal, st).Found? ==> BackTrail(grid, start, goal, Run(grid, start, goal, st).path)
    ensures Run(grid, start, goal, st) == NotFound ==> !Reachable(grid, start, goal)
    decreases Missing(grid, st), Cost(grid, st), |st.heap|
  {
    if |st.heap| == 0 {
      ExhaustedUnreachable(grid, start, goal, st);
    } else {
      var e := MinOf(st.heap);
      if e.1 == goal {
        WalkIsBackTrail(grid, start, goal, st);
      } else {
        PopStep(grid, start, goal, st, e);
        RunFacts(grid, start, goal, Expand(grid, goal, st.(heap := st.heap - multiset{e}), e.1));
      }
    }
  }

  /** Without reverse, a returned list is a back trail from the goal. */
  lemma ForwardResult(grid: Grid, start: Pos, goal: Pos)
    requires WellFormed(grid)
    ensures AStarResult(grid, start, goal, false).Found? ==>
      BackTrail(grid, start, goal, AStarResult(grid, start, goal, false).path)
  {
    InitInv(grid, start, goal);
    RunFacts(grid, start, goal, Init(start, goal));
  }

  /** With reverse, a returned list is a route from the start to the goal that never revisits a
      cell and never returns to the start. */
  lemma ReversedResult(grid: Grid, start: Pos, goal: Pos)
    requires WellFormed(grid)
    ensures AStarResult(grid, start, goal, true).Found? ==>
      var p := AStarResult(grid, start, goal, true).path;
      IsRoute(grid, start, p) && RouteEnd(start, p) == goal && start !in p && Distinct(p)
  {
    InitInv(grid, start, goal);
    RunFacts(grid, start, goal, Init(start, goal));
    var o := Run(grid, start, goal, Init(start, goal));
    if o.Found? {
      BackTrailRoute(grid, start, goal, o.path);
    }
  }

  /** The reverse flag only reverses: with it the path is the reverse of the path without it,
      and reversing that again gives the path without it back. */
  lemma ReverseRoundTrip(grid: Grid, start: Pos, goal: Pos)
    requires WellFormed(grid)
    ensures AStarResult(grid, start, goal, true).Found? == AStarResult(grid, start, goal, false).Found?
    ensures AStarResult(grid, start, goal, false).Found? ==>
      AStarResult(grid, start, goal, true).path == Reversed(AStarResult(grid, start, goal, false).path)
      && Reversed(AStarResult(grid, start, goal, true).path) == AStarResult(grid, start, goal, false).path
  {
    var o := AStarResult(grid, start, goal, false);
    if o.Found? {
      ReversedTwice(o.path);
    }
  }

  /** The search reports no path exactly when no route leads from the start to the goal,
      whichever order is asked for. */
  lemma NotFoundIffUnreachable(grid: Grid, start: Pos, goal: Pos, reverse: bool)
    requires WellFormed(grid)
    ensures AStarResult(grid, start, goal, reverse) == NotFound <==> !Reachable(grid, start, goal)
  {
    InitInv(grid, start, goal);
    RunFacts(grid, start, goal, Init(start, goal));
    var o := Run(grid, start, goal, Init(start, goal));
    if o.Found? {
      BackTrailRoute(grid, start, goal, o.path);
    }
  }

  /** Starting on the goal returns the empty list, not "no path". */
  lemma StartIsGoal(grid: Grid, p: Pos, reverse: bool)
    requires WellFormed(grid)
    ensures AStarResult(grid, p, p, reverse) == Found([])
  {
    NotFoundIffUnreachable(grid, p, p, reverse);
    assert IsRoute(grid, p, []) && RouteEnd(p, []) == p;
    ForwardResult(grid, p, p);
  }

  /** A goal other than the start that lies outside the grid or on a blocked cell is never found. */
  lemma BlockedGoal(grid: Grid, start: Pos, goal: Pos, reverse: bool)
    requires WellFormed(grid) && goal != start && !Passable(grid, goal)
    ensures AStarResult(grid, start, goal, reverse) == NotFound
  {
    NotFoundIffUnreachable(grid, start, goal, reverse);
    forall route | IsRoute(grid, start, route)
      ensures RouteEnd(start, route) != goal
    {
      if route != [] {
        var j := |route| - 1;
        assert Adjacent(Prev(start, route, j), route[j]);
      }
    }
  }

  /** A start with no free cell one move away, such as one two or more cells outside the grid, reaches
      nothing but itself. */
  lemma IsolatedStart(grid: Grid, start: Pos, goal: Pos, reverse: bool)
    requires WellFormed(grid) && goal != start
    requires forall p :: Adjacent(start, p) ==> !Passable(grid, p)
    ensures AStarResult(grid, start, goal, reverse) == NotFound
  {
    NotFoundIffUnreachable(grid, start, goal, reverse);
    forall route | IsRoute(grid, start, route)
      ensures RouteEnd(start, route) != goal
    {
      FirstStep(grid, start, route);
    }
  }

  /** A route's first cell is free and one move from the start. */
  lemma FirstStep(grid: Grid, start: Pos, route: seq<Pos>)
    requires WellFormed(grid) && IsRoute(grid, start, route)
    ensures |route| > 0 ==> Adjacent(start, route[0]) && Passable(grid, route[0])
  {
    if |route| > 0 {
      assert Adjacent(Prev(start, route, 0), route[0]);
    }
  }
}
