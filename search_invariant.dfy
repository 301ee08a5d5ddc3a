/** What holds of the search state between pops, why one pop-and-expand keeps it, and the
    measure that one pop-and-expand lowers, so that the search always ends. */
module SearchInvariant {
  import opened Grid2D
  import opened OpenHeap
  import opened SearchState

  /** g-scores are non-negative, the start keeps 0, and every f-score is its g-score plus the
      estimate to the goal. */
  ghost predicate ScoresOk(start: Pos, goal: Pos, st: State)
  {
    && start in st.g && st.g[start] == 0
    && st.f.Keys == st.g.Keys
    && (forall p {:trigger p in st.g} :: p in st.g ==> st.g[p] >= 0 && st.f[p] == st.g[p] + Heuristic(p, goal))
  }

  /** The predecessor entry of n: n is passable, one move from its predecessor, and costs at least
      the predecessor's g-score plus that move; the predecessor is the start or has an entry itself. */
  ghost predicate Link(grid: Grid, start: Pos, st: State, n: Pos)
    requires WellFormed(grid) && n in st.cameFrom
  {
    var p := st.cameFrom[n];
    && Passable(grid, n) && Adjacent(p, n)
    && n in st.g && p in st.g && st.g[p] + Heuristic(p, n) <= st.g[n]
    && (p == start || p in st.cameFrom)
  }

  /** The start never gets a predecessor, and every entry is a good link. */
  ghost predicate TreeOk(grid: Grid, start: Pos, st: State)
    requires WellFormed(grid)
  {
    start !in st.cameFrom && forall n {:trigger Link(grid, start, st, n)} :: n in st.cameFrom ==> Link(grid, start, st, n)
  }

  /** Every tuple in the open list names a scored position whose f-score is at most the tuple's
      priority (older tuples may be stale), and which is the start or has a predecessor. */
  ghost predicate HeapOk(start: Pos, st: State)
  {
    forall e {:trigger st.heap[e]} :: e in st.heap ==>
      e.1 in st.g && e.1 in st.f && st.f[e.1] <= e.0 && (e.1 == start || e.1 in st.cameFrom)
  }

  /** A scored position is closed or still has a tuple in the open list. */
  ghost predicate OpenOrClosed(st: State)
  {
    forall p {:trigger p in st.g} :: p in st.g ==> p in st.closed || p in Positions(st.heap)
  }

  /** Each of the first i passable neighbours of c is closed or has a tuple in the open list. */
  ghost predicate Settled(grid: Grid, st: State, c: Pos, i: int)
    requires WellFormed(grid)
  {
    forall k :: 0 <= k < i && k < |Neighbors| && Passable(grid, Add(c, Neighbors[k])) ==>
      Add(c, Neighbors[k]) in st.closed || Add(c, Neighbors[k]) in Positions(st.heap)
  }

  /** Every passable neighbour of a closed position outside skip is closed or has a tuple in the open list. */
  ghost predicate ClosedSettled(grid: Grid, st: State, skip: set<Pos>)
    requires WellFormed(grid)
  {
    forall c, k {:trigger Add(c, Neighbors[k])} :: c in st.closed && c !in skip && 0 <= k < |Neighbors| && Passable(grid, Add(c, Neighbors[k])) ==>
      Add(c, Neighbors[k]) in st.closed || Add(c, Neighbors[k]) in Positions(st.heap)
  }

  /** The part of the invariant that also holds while the neighbours of a position are tried. */
  ghost predicate Core(grid: Grid, start: Pos, goal: Pos, st: State)
    requires WellFormed(grid)
  {
    ScoresOk(start, goal, st) && TreeOk(grid, start, st) && HeapOk(start, st)
    && OpenOrClosed(st) && goal !in st.closed
  }

  /** The invariant of the search loop. */
  ghost predicate Inv(grid: Grid, start: Pos, goal: Pos, st: State)
    requires WellFormed(grid)
  {
    && Core(grid, start, goal, st)
    && (start !in st.closed ==> Positions(st.heap) == {start})
    && ClosedSettled(grid, st, {})
  }

  /** The invariant while the neighbours of the popped position cur are tried, i of them so far. */
  ghost predicate ExpandInv(grid: Grid, start: Pos, goal: Pos, st: State, cur: Pos, i: int)
    requires WellFormed(grid)
  {
    && Core(grid, start, goal, st)
    && start in st.closed && cur in st.closed && cur in st.g
    && (cur == start || cur in st.cameFrom)
    && ClosedSettled(grid, st, {cur})
    && Settled(grid, st, cur, i)
  }

  // ----- the termination measure -----

  /** 1 for a position without a g-score. */
  function CellMissing(g: map<Pos, int>, p: Pos): nat
  {
    if p in g then 0 else 1
  }

  /** Missing cells among the first cols cells of row r. */
  function RowMissing(g: map<Pos, int>, r: int, cols: nat): nat
  {
    if cols == 0 then 0 else RowMissing(g, r, cols - 1) + CellMissing(g, (r, cols - 1))
  }

  /** Missing cells among the first rows rows. */
  function GridMissing(g: map<Pos, int>, rows: nat, cols: nat): nat
  {
    if rows == 0 then 0 else GridMissing(g, rows - 1, cols) + RowMissing(g, rows - 1, cols)
  }

  /** The number of grid cells that have no g-score yet. */
  ghost function Missing(grid: Grid, st: State): nat
    requires WellFormed(grid)
  {
    GridMissing(st.g, |grid|, |grid[0]|)
  }

  /** The g-score of a position, 0 when it has none. */
  function CellCost(g: map<Pos, int>, p: Pos): nat
  {
    if p in g && g[p] >= 0 then g[p] else 0
  }

  /** The g-scores of the first cols cells of row r, summed. */
  function RowCost(g: map<Pos, int>, r: int, cols: nat): nat
  {
    if cols == 0 then 0 else RowCost(g, r, cols - 1) + CellCost(g, (r, cols - 1))
  }

  /** The g-scores of the first rows rows, summed. */
  function GridCost(g: map<Pos, int>, rows: nat, cols: nat): nat
  {
    if rows == 0 then 0 else GridCost(g, rows - 1, cols) + RowCost(g, rows - 1, cols)
  }

  /** The sum of the g-scores of the grid cells. */
  ghost function Cost(grid: Grid, st: State): nat
    requires WellFormed(grid)
  {
    GridCost(st.g, |grid|, |grid[0]|)
  }

  /** Giving a score to one position never adds a missing cell, and removes one when the
      position is a grid cell that had no score; lowering a score that exists keeps the count. */
  lemma {:induction false} RowMissingUpdate(g: map<Pos, int>, p: Pos, v: int, r: int, cols: nat)
    ensures RowMissing(g[p := v], r, cols) <= RowMissing(g, r, cols)
    ensures p in g ==> RowMissing(g[p := v], r, cols) == RowMissing(g, r, cols)
    ensures p !in g && r == p.0 && 0 <= p.1 < cols ==> RowMissing(g[p := v], r, cols) < RowMissing(g, r, cols)
  {
    if cols > 0 {
      RowMissingUpdate(g, p, v, r, cols - 1);
      var q := (r, cols - 1);
      assert CellMissing(g[p := v], q) <= CellMissing(g, q);
      assert p in g ==> CellMissing(g[p := v], q) == CellMissing(g, q);
      assert p !in g && q == p ==> CellMissing(g[p := v], q) < CellMissing(g, q);
    }
  }

  /** The same, over the whole grid. */
  lemma {:induction false} GridMissingUpdate(g: map<Pos, int>, p: Pos, v: int, rows: nat, cols: nat)
    ensures GridMissing(g[p := v], rows, cols) <= GridMissing(g, rows, cols)
    ensures p in g ==> GridMissing(g[p := v], rows, cols) == GridMissing(g, rows, cols)
    ensures p !in g && 0 <= p.0 < rows && 0 <= p.1 < cols ==>
      GridMissing(g[p := v], rows, cols) < GridMissing(g, rows, cols)
  {
    if rows > 0 {
      GridMissingUpdate(g, p, v, rows - 1, cols);
      RowMissingUpdate(g, p, v, rows - 1, cols);
    }
  }

  /** Lowering one g-score lowers a row sum that covers it and leaves the others. */
  lemma {:induction false} RowCostLower(g: map<Pos, int>, p: Pos, v: int, r: int, cols: nat)
    requires p in g && 0 <= v < g[p]
    ensures RowCost(g[p := v], r, cols) <= RowCost(g, r, cols)
    ensures r == p.0 && 0 <= p.1 < cols ==> RowCost(g[p := v], r, cols) < RowCost(g, r, cols)
  {
    if cols > 0 {
      RowCostLower(g, p, v, r, cols - 1);
      var q := (r, cols - 1);
      assert CellCost(g[p := v], q) <= CellCost(g, q);
      assert q == p ==> CellCost(g[p := v], q) < CellCost(g, q);
    }
  }

  /** Lowering the g-score of a cell lowers the grid sum. */
  lemma {:induction false} GridCostLower(g: map<Pos, int>, p: Pos, v: int, rows: nat, cols: nat)
    requires p in g && 0 <= v < g[p]
    ensures GridCost(g[p := v], rows, cols) <= GridCost(g, rows, cols)
    ensures 0 <= p.0 < rows && 0 <= p.1 < cols ==> GridCost(g[p := v], rows, cols) < GridCost(g, rows, cols)
  {
    if rows > 0 {
      GridCostLower(g, p, v, rows - 1, cols);
      RowCostLower(g, p, v, rows - 1, cols);
    }
  }

  /** b is no higher than a in the measure; where it is level, the open list is no longer. */
  ghost predicate NoWorse(grid: Grid, a: State, b: State)
    requires WellFormed(grid)
  {
    && Missing(grid, b) <= Missing(grid, a)
    && (Missing(grid, b) == Missing(grid, a) ==>
          Cost(grid, b) <= Cost(grid, a) && (Cost(grid, b) == Cost(grid, a) ==> |b.heap| <= |a.heap|))
  }

  /** b is strictly lower than a in the lexicographic measure (missing cells, cost, open list size). */
  ghost predicate Lower(grid: Grid, a: State, b: State)
    requires WellFormed(grid)
  {
    Missing(grid, b) < Missing(grid, a)
    || (Missing(grid, b) == Missing(grid, a)
        && (Cost(grid, b) < Cost(grid, a) || (Cost(grid, b) == Cost(grid, a) && |b.heap| < |a.heap|)))
  }

  /** Being no worse is transitive. */
  lemma NoWorseTrans(grid: Grid, a: State, b: State, c: State)
    requires WellFormed(grid) && NoWorse(grid, a, b) && NoWorse(grid, b, c)
    ensures NoWorse(grid, a, c)
  {
  }

  // ----- open-list positions -----

  /** Pushing a tuple adds exactly its position. */
  lemma PositionsAdd(m: multiset<Entry>, e: Entry)
    ensures Positions(m + multiset{e}) == Positions(m) + {e.1}
  {
    var a, b := Positions(m + multiset{e}), Positions(m) + {e.1};
    forall p | p in a ensures p in b {
      var x :| x in m + multiset{e} && x.1 == p;
    }
    assert e in m + multiset{e};
    forall p | p in b ensures p in a {
      if p != e.1 {
        var x :| x in m && x.1 == p;
        assert x in m + multiset{e};
      }
    }
  }

  /** Taking one tuple out keeps every other position that has a tuple. */
  lemma PositionsRemove(m: multiset<Entry>, e: Entry, p: Pos)
    requires p in Positions(m) && p != e.1
    ensures p in Positions(m - multiset{e})
  {
    var x :| x in m && x.1 == p;
    assert x != e;
    assert x in m - multiset{e};
  }

  // ----- the initial state -----

  /** The state before the first pop satisfies the loop invariant. */
  lemma InitInv(grid: Grid, start: Pos, goal: Pos)
    requires WellFormed(grid)
    ensures Inv(grid, start, goal, Init(start, goal))
  {
    var st := Init(start, goal);
    assert (Heuristic(start, goal), start) in st.heap;
    forall p | p in Positions(st.heap) ensures p == start {
      var x :| x in st.heap && x.1 == p;
    }
  }

  // ----- one neighbour -----

  /** Trying the neighbour at offset i keeps the expansion invariant and does not raise the measure. */
  lemma RelaxStep(grid: Grid, start: Pos, goal: Pos, st: State, cur: Pos, i: nat)
    requires WellFormed(grid) && i < |Neighbors| && ExpandInv(grid, start, goal, st, cur, i)
    ensures ExpandInv(grid, start, goal, Relax(grid, goal, st, cur, Neighbors[i]), cur, i + 1)
    ensures NoWorse(grid, st, Relax(grid, goal, st, cur, Neighbors[i]))
  {
    var n := Add(cur, Neighbors[i]);
    var r := Relax(grid, goal, st, cur, Neighbors[i]);
    MoveCost(cur, i);
    if Admits(grid, st, cur, n) {
      AdmitStep(grid, start, goal, st, cur, i);
      assert r == Admitted(goal, st, cur, n);
    } else {
      assert r == st;
      forall k | 0 <= k < i + 1 && k < |Neighbors| && Passable(grid, Add(cur, Neighbors[k]))
        ensures Add(cur, Neighbors[k]) in st.closed || Add(cur, Neighbors[k]) in Positions(st.heap)
      {
        if k == i {
          assert Add(cur, Neighbors[k]) == n;
        }
      }
    }
  }

  /** Admitting the neighbour at offset i keeps the expansion invariant, now with i + 1
      neighbours settled, and does not raise the measure. */
  lemma AdmitStep(grid: Grid, start: Pos, goal: Pos, st: State, cur: Pos, i: nat)
    requires WellFormed(grid) && i < |Neighbors| && ExpandInv(grid, start, goal, st, cur, i)
    requires Admits(grid, st, cur, Add(cur, Neighbors[i]))
    ensures ExpandInv(grid, start, goal, Admitted(goal, st, cur, Add(cur, Neighbors[i])), cur, i + 1)
    ensures NoWorse(grid, st, Admitted(goal, st, cur, Add(cur, Neighbors[i])))
  {
    var n := Add(cur, Neighbors[i]);
    AdmitFacts(grid, start, goal, st, cur, i);
    AdmitScores(start, goal, st, cur, n);
    AdmitTree(grid, start, goal, st, cur, n);
    AdmitHeap(start, goal, st, cur, n);
    AdmitOpen(goal, st, cur, n);
    AdmitSettled(grid, goal, st, cur, i);
    AdmitMeasure(grid, goal, st, cur, n);
  }

  /** The three maps after an admission, as whole maps. */
  lemma AdmittedFields(goal: Pos, st: State, cur: Pos, n: Pos)
    requires cur in st.g
    ensures Admitted(goal, st, cur, n).cameFrom == st.cameFrom[n := cur]
    ensures Admitted(goal, st, cur, n).g == st.g[n := st.g[cur] + Heuristic(cur, n)]
    ensures Admitted(goal, st, cur, n).f == st.f[n := st.g[cur] + Heuristic(cur, n) + Heuristic(n, goal)]
  {
  }

  /** What an admission tells: the new score improves on a known one, and the neighbour is
      neither the start nor cur. */
  lemma AdmitFacts(grid: Grid, start: Pos, goal: Pos, st: State, cur: Pos, i: nat)
    requires WellFormed(grid) && i < |Neighbors| && cur in st.g
    requires ScoresOk(start, goal, st) && OpenOrClosed(st) && start in st.closed
    requires Admits(grid, st, cur, Add(cur, Neighbors[i]))
    ensures Add(cur, Neighbors[i]) != start && Add(cur, Neighbors[i]) != cur
    ensures Passable(grid, Add(cur, Neighbors[i])) && Adjacent(cur, Add(cur, Neighbors[i]))
    ensures Add(cur, Neighbors[i]) in st.g ==>
      st.g[cur] + Heuristic(cur, Add(cur, Neighbors[i])) < st.g[Add(cur, Neighbors[i])]
  {
    var n := Add(cur, Neighbors[i]);
    MoveCost(cur, i);
    assert n != start by {
      assert KnownScore(st.g, start) == 0;
    }
    if n in st.g {
      assert n in st.closed || n in Positions(st.heap);
    }
  }

  /** An admission keeps the score facts. */
  lemma AdmitScores(start: Pos, goal: Pos, st: State, cur: Pos, n: Pos)
    requires ScoresOk(start, goal, st) && cur in st.g && n != start
    ensures ScoresOk(start, goal, Admitted(goal, st, cur, n))
  {
    AdmittedFields(goal, st, cur, n);
  }

  /** An admission keeps every predecessor entry a good link. */
  lemma AdmitTree(grid: Grid, start: Pos, goal: Pos, st: State, cur: Pos, n: Pos)
    requires WellFormed(grid) && TreeOk(grid, start, st)
    requires n != start && n != cur && Passable(grid, n) && Adjacent(cur, n)
    requires cur in st.g && (cur == start || cur in st.cameFrom)
    requires n in st.g ==> st.g[cur] + Heuristic(cur, n) < st.g[n]
    ensures TreeOk(grid, start, Admitted(goal, st, cur, n))
  {
    var r := Admitted(goal, st, cur, n);
    AdmittedFields(goal, st, cur, n);
    forall m | m in r.cameFrom
      ensures Link(grid, start, r, m)
    {
      if m != n {
        assert Link(grid, start, st, m);
      }
    }
  }

  /** An admission keeps every tuple of the open list pointing at a scored position. */
  lemma AdmitHeap(start: Pos, goal: Pos, st: State, cur: Pos, n: Pos)
    requires HeapOk(start, st) && ScoresOk(start, goal, st) && cur in st.g
    requires n in st.g ==> st.g[cur] + Heuristic(cur, n) < st.g[n]
    ensures HeapOk(start, Admitted(goal, st, cur, n))
  {
    var r := Admitted(goal, st, cur, n);
    AdmittedFields(goal, st, cur, n);
    forall e | e in r.heap
      ensures e.1 in r.g && e.1 in r.f && r.f[e.1] <= e.0 && (e.1 == start || e.1 in r.cameFrom)
    {
      if e != (r.f[n], n) {
        assert e in st.heap;
        if e.1 == n {
          assert st.f[n] == st.g[n] + Heuristic(n, goal);
        }
      }
    }
  }

  /** An admission adds the neighbour to the open positions and keeps every scored position open or closed. */
  lemma AdmitOpen(goal: Pos, st: State, cur: Pos, n: Pos)
    requires OpenOrClosed(st) && cur in st.g
    ensures OpenOrClosed(Admitted(goal, st, cur, n))
    ensures Positions(Admitted(goal, st, cur, n).heap) == Positions(st.heap) + {n}
  {
    var r := Admitted(goal, st, cur, n);
    PositionsAdd(st.heap, (r.f[n], n));
    AdmittedFields(goal, st, cur, n);
  }

  /** After an admission the neighbour just tried is open, so one more neighbour is settled. */
  lemma AdmitSettled(grid: Grid, goal: Pos, st: State, cur: Pos, i: nat)
    requires WellFormed(grid) && i < |Neighbors| && cur in st.g
    requires Settled(grid, st, cur, i) && ClosedSettled(grid, st, {cur})
    ensures Settled(grid, Admitted(goal, st, cur, Add(cur, Neighbors[i])), cur, i + 1)
    ensures ClosedSettled(grid, Admitted(goal, st, cur, Add(cur, Neighbors[i])), {cur})
  {
    var n := Add(cur, Neighbors[i]);
    var r := Admitted(goal, st, cur, n);
    PositionsAdd(st.heap, (r.f[n], n));
  }

  /** An admission either scores a new cell or lowers an existing score, so the measure does not rise. */
  lemma AdmitMeasure(grid: Grid, goal: Pos, st: State, cur: Pos, n: Pos)
    requires WellFormed(grid) && Passable(grid, n) && cur in st.g && (forall p :: p in st.g ==> st.g[p] >= 0)
    requires n in st.g ==> st.g[cur] + Heuristic(cur, n) < st.g[n]
    ensures NoWorse(grid, st, Admitted(goal, st, cur, n))
  {
    AdmittedFields(goal, st, cur, n);
    var t := st.g[cur] + Heuristic(cur, n);
    GridMissingUpdate(st.g, n, t, |grid|, |grid[0]|);
    if n in st.g {
      GridCostLower(st.g, n, t, |grid|, |grid[0]|);
    }
  }

  // ----- all eight neighbours -----

  /** Trying the first i neighbours keeps the expansion invariant and does not raise the measure. */
  lemma {:induction false} ExpandSteps(grid: Grid, start: Pos, goal: Pos, st: State, cur: Pos, i: nat)
    requires WellFormed(grid) && i <= |Neighbors| && ExpandInv(grid, start, goal, st, cur, 0)
    ensures ExpandInv(grid, start, goal, ExpandPrefix(grid, goal, st, cur, i), cur, i)
    ensures NoWorse(grid, st, ExpandPrefix(grid, goal, st, cur, i))
  {
    if i > 0 {
      var j: nat := i - 1;
      ExpandSteps(grid, start, goal, st, cur, j);
      var s := ExpandPrefix(grid, goal, st, cur, j);
      RelaxStep(grid, start, goal, s, cur, j);
      NoWorseTrans(grid, st, s, ExpandPrefix(grid, goal, st, cur, j + 1));
    }
  }

  /** Popping any tuple whose position is not the goal, closing that position and trying its
      neighbours keeps the loop invariant and lowers the measure. */
  lemma PopStep(grid: Grid, start: Pos, goal: Pos, st: State, e: Entry)
    requires WellFormed(grid) && Inv(grid, start, goal, st) && e in st.heap && e.1 != goal
    ensures e.1 in st.g
    ensures Inv(grid, start, goal, Expand(grid, goal, st.(heap := st.heap - multiset{e}), e.1))
    ensures Lower(grid, st, Expand(grid, goal, st.(heap := st.heap - multiset{e}), e.1))
  {
    var cur := e.1;
    var rest := st.(heap := st.heap - multiset{e});
    var pre := rest.(closed := rest.closed + {cur});
    PopClose(grid, start, goal, st, e);
    ExpandSteps(grid, start, goal, pre, cur, |Neighbors|);
    var next := ExpandPrefix(grid, goal, pre, cur, |Neighbors|);
    ExpandDone(grid, start, goal, next, cur);
    PopLower(grid, st, pre, next);
  }

  /** Taking a tuple out and closing its position starts the expansion with its invariant. */
  lemma PopClose(grid: Grid, start: Pos, goal: Pos, st: State, e: Entry)
    requires WellFormed(grid) && Inv(grid, start, goal, st) && e in st.heap && e.1 != goal
    ensures e.1 in st.g
    ensures ExpandInv(grid, start, goal, st.(heap := st.heap - multiset{e}).(closed := st.closed + {e.1}), e.1, 0)
    ensures |st.heap - multiset{e}| < |st.heap|
  {
    var cur := e.1;
    var pre := st.(heap := st.heap - multiset{e}).(closed := st.closed + {e.1});
    assert HeapOk(start, pre) by {
      forall x | x in pre.heap ensures x in st.heap { }
    }
    assert OpenOrClosed(pre) by {
      forall p | p in pre.g ensures p in pre.closed || p in Positions(pre.heap) {
        if p != cur && p !in st.closed {
          PositionsRemove(st.heap, e, p);
        }
      }
    }
    assert start in pre.closed by {
      if start !in st.closed {
        assert cur in Positions(st.heap);
      }
    }
    assert TreeOk(grid, start, pre) by {
      forall n | n in pre.cameFrom ensures Link(grid, start, pre, n) {
        assert Link(grid, start, st, n);
      }
    }
    forall c, k | c in pre.closed && c !in {cur} && 0 <= k < |Neighbors| && Passable(grid, Add(c, Neighbors[k]))
      ensures Add(c, Neighbors[k]) in pre.closed || Add(c, Neighbors[k]) in Positions(pre.heap)
    {
      var q := Add(c, Neighbors[k]);
      if q != cur && q !in st.closed {
        PositionsRemove(st.heap, e, q);
      }
    }
  }

  /** Once all eight neighbours are tried, the expansion invariant is the loop invariant again. */
  lemma ExpandDone(grid: Grid, start: Pos, goal: Pos, st: State, cur: Pos)
    requires WellFormed(grid) && ExpandInv(grid, start, goal, st, cur, |Neighbors|)
    ensures Inv(grid, start, goal, st)
  {
    forall c, k | c in st.closed && 0 <= k < |Neighbors| && Passable(grid, Add(c, Neighbors[k]))
      ensures Add(c, Neighbors[k]) in st.closed || Add(c, Neighbors[k]) in Positions(st.heap)
    {
      if c == cur {
        assert Settled(grid, st, cur, |Neighbors|);
      } else {
        assert c !in {cur};
      }
    }
  }

  /** The pop shortens the open list without touching the scores, and the expansion is no worse. */
  lemma PopLower(grid: Grid, st: State, pre: State, next: State)
    requires WellFormed(grid) && pre.g == st.g && |pre.heap| < |st.heap| && NoWorse(grid, pre, next)
    ensures Lower(grid, st, next)
  {
  }

  /** The loop invariant yields the well-founded predecessor map the walk back needs. */
  lemma CoreDescending(grid: Grid, start: Pos, goal: Pos, st: State)
    requires WellFormed(grid) && Core(grid, start, goal, st)
    ensures Descending(st.cameFrom, st.g)
  {
    forall n | n in st.cameFrom
      ensures n in st.g && st.cameFrom[n] in st.g && 0 <= st.g[st.cameFrom[n]] < st.g[n]
    {
      assert Link(grid, start, st, n);
      AdjacentMeans(st.cameFrom[n], n);
    }
  }
}
