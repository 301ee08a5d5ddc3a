# A* on a grid with eight moves

This project models `astar.py`, a small A* path finder on a 2-D grid.

The grid is a list of rows. A cell holding `1` is blocked; any other value is free. From a cell the search may move to any of its eight neighbours, tried in a fixed order. The squared Euclidean distance `heuristic(a, b)` does two jobs: it is the cost of a move (1 straight, 2 diagonal) and the estimate to the goal.

`astar(array, start, goal, reverse)` works as follows:
- It keeps a binary heap of `(f, position)` tuples, a closed set and three dictionaries: `came_from`, `gscore` and `fscore`.
- It pops the least tuple.
- When that is the goal, it walks `came_from` back from the goal and returns the list: goal first, start excluded, and reversed when `reverse` is set.
- Otherwise it closes the position and tries each neighbour:
  - neighbours outside the grid or blocked are skipped;
  - so is a closed neighbour whose tentative score is not below `gscore.get(neighbor, 0)`;
  - any other neighbour is recorded and pushed when its score beats that default-0 lookup, or when no tuple of the heap carries it.
- When the heap runs empty it returns `False`.

The model has seven modules:
- `Grid2D`: positions, the offset list, the heuristic, adjacency and passability.
- `OpenHeap`: heap tuples and their lexicographic order. It also has the least tuple of a multiset, the popping method and the membership scan of line 67.
- `SearchState`: the state record, plus the initial state, the relaxation of one neighbour, the expansion of a popped position and the walk back, written as functions.
- `SearchInvariant`: the invariant kept between pops, why each step keeps it, and a lexicographic measure each step lowers. The measure is (grid cells without a g-score, sum of the grid's g-scores, heap size); it makes the search total.
- `SearchSpec`: `Run`, the search loop as a well-founded recursive function; `AStarResult`, the whole call; and the theorems about both.
- `AStar`: the imperative rendering of `astar`, with the same loops, proved to return `AStarResult`.
- `Scenarios`: the unit tests' map and what the search returns on it.

Python's heap pops the least tuple under tuple comparison: `f`, then the row, then the column. Identical tuples are interchangeable, so the model holds the open list as a multiset, and the popped tuple is the unique least one. The method keeps a plain list and scans it for the least tuple.

Main results:
- A returned list (without `reverse`) is a *back trail*: empty exactly when start is the goal; otherwise the goal first and a cell next to the start last; every entry a free grid cell other than the start; each entry one move from the next; no entry repeated.
- With `reverse`, the list is a route from the start to the goal, and it is exactly the reverse of the list returned without `reverse`.
- `False` is returned exactly when no route of free cells, one move apart, leads from the start to the goal.

Passing a non-rectangular list of rows is outside the model: the source reads the width from row 0 and may then index past the end of a shorter row. Every operation requires `WellFormed(grid)`: a non-empty grid whose rows all have the length of row 0.

## Model

| member | source | states |
|---|---|---|
| Grid2D.Neighbors | astar.py:28 | the eight offsets tried around a popped position: four straight moves, then four diagonal ones, in the source's order |
| Grid2D.Add | astar.py:51 | the neighbour at an offset: the row offset added to the row, the column offset to the column |
| Grid2D.Heuristic | astar.py:6-7 | the estimate is a natural number that is 0 exactly when the two positions coincide |
| Grid2D.HeuristicIsSquaredDistance | astar.py:6-7 | the estimate equals the squared row difference plus the squared column difference, and is symmetric |
| Grid2D.SquareIsProduct | astar.py:7 | the recursive square used by the estimate is x * x |
| Grid2D.MoveCost | astar.py:28 | each of the eight offsets yields an adjacent cell; the four straight moves cost 1 and the four diagonal ones 2 |
| Grid2D.AdjacentMeans | astar.py:28 | one move apart means distinct and at most one row and one column apart; that costs 1 or 2, and the relation is symmetric |
| Grid2D.WellFormed | astar.py:25-26 | the list of rows is non-empty and every row is as long as row 0, so the height is its length and the width the length of row 0 |
| Grid2D.Passable | astar.py:53-62 | the cell is inside the grid (row below the height, column below the width of row 0, neither negative) and does not hold 1 |
| OpenHeap.Le | astar.py:36-40 | Python's tuple comparison on (f, (row, column)): f first, then the row, then the column, the order heappop uses |
| OpenHeap.LeTotalOrder | astar.py:36-40 | the tuple order on (f, row, column) used by the heap is reflexive, total, antisymmetric and transitive |
| OpenHeap.MinExists | astar.py:40 | a non-empty open list has a least tuple |
| OpenHeap.MinUnique | astar.py:40 | the least tuple is unique, so the pop is determined |
| OpenHeap.MinOf | astar.py:40 | the tuple taken is a least element of the open list |
| OpenHeap.Positions | astar.py:67 | a position has a tuple in the open list exactly when some tuple carries it |
| OpenHeap.PositionsOfList | astar.py:67 | for a list, that is exactly when some index of the list holds a tuple with that position |
| OpenHeap.PopMin | astar.py:40 | heappop returns a tuple of the list that is no greater than any other, and the rest is the list minus one copy of it |
| OpenHeap.HasPosition | astar.py:67 | the scan `neighbor not in [i[1] for i in oheap]` is true exactly when the neighbour has no tuple in the open list |
| SearchState.State | astar.py:30-36 | what the search keeps: `oheap` (as a multiset of tuples), `close_set`, `came_from`, `gscore` and `fscore` |
| SearchState.KnownScore | astar.py:64-67 | `gscore.get(neighbor, 0)`: the recorded g-score, or 0 for a position without one |
| SearchState.Admits | astar.py:53-67 | the neighbour passes the bounds and wall tests, is not a closed position that the tentative score fails to beat, and either beats the known score or has no tuple in the open list |
| SearchState.Init | astar.py:30-36 | before the first pop only the start is scored (g 0, f its estimate), its tuple is the only one open, nothing is closed and no predecessor is recorded |
| SearchState.Admitted | astar.py:67-71 | an admitted neighbour gets the current position as predecessor, g-score through it, f-score g plus estimate, and a tuple carrying that f-score; the closed set is kept and no score is lost |
| SearchState.Relax | astar.py:51-71 | a neighbour outside the grid or blocked leaves the state unchanged; trying a neighbour never changes the closed set or drops a score |
| SearchState.ExpandPrefix | astar.py:50-71 | trying the first i offsets keeps the closed set and every score |
| SearchState.Expand | astar.py:49-71 | after the expansion exactly the popped position has been added to the closed set |
| SearchState.Walk | astar.py:43-46 | the walk back is empty exactly when the position has no predecessor; it starts at that position, each entry has a predecessor that is the next entry, and the last entry's predecessor has none |
| SearchState.Reversed | astar.py:47 | data[::-1] has the same length with the entries in the opposite order |
| SearchState.ReversedTwice | astar.py:47 | reversing twice gives the list back |
| SearchInvariant.InitInv | astar.py:30-36 | the initial state satisfies the loop invariant |
| SearchInvariant.RelaxStep | astar.py:51-71 | trying one neighbour keeps the expansion invariant and does not raise the measure |
| SearchInvariant.AdmitStep | astar.py:64-71 | admitting a neighbour keeps scores, predecessor links, heap tuples and open-or-closed coverage consistent, settles one more neighbour, and does not raise the measure |
| SearchInvariant.AdmitFacts | astar.py:52-67 | an admitted neighbour is free, one move away, neither the start nor the current position, and any score it had is strictly improved |
| SearchInvariant.AdmitMeasure | astar.py:67-71 | an admission scores a new cell or strictly lowers an existing score, so the measure does not rise |
| SearchInvariant.GridMissingUpdate | astar.py:69 | giving a grid cell its first score lowers the count of unscored cells; rescoring keeps it |
| SearchInvariant.GridCostLower | astar.py:69 | lowering a score lowers the grid's score sum |
| SearchInvariant.PositionsAdd | astar.py:71 | pushing a tuple adds exactly its position to the open positions |
| SearchInvariant.PopClose | astar.py:40-49 | popping a non-goal tuple and closing its position starts the expansion invariant and shortens the open list |
| SearchInvariant.ExpandSteps | astar.py:50-71 | trying the first i offsets keeps the expansion invariant and does not raise the measure |
| SearchInvariant.ExpandDone | astar.py:50-71 | after all eight offsets every passable neighbour of every closed position is closed or open again |
| SearchInvariant.PopStep | astar.py:38-71 | one pop of a non-goal position followed by its expansion keeps the loop invariant and strictly lowers the measure, so the loop ends |
| SearchInvariant.CoreDescending | astar.py:44-46 | the predecessor map strictly lowers non-negative g-scores, so following it back ends |
| SearchSpec.Outcome | astar.py:47-73 | a call returns either `False` (NotFound) or a list of positions (Found) |
| SearchSpec.Run | astar.py:38-73 | the `while oheap` loop from a given state: False on an empty heap, the walk back when the least tuple is the goal, otherwise the loop on the expanded state |
| SearchSpec.AStarResult | astar.py:9-73 | the whole call: the loop from the initial state, with a found list reversed when reverse is set |
| SearchSpec.WalkDescends | astar.py:44-46 | g-scores fall strictly along the walk back, so it never repeats a position |
| SearchSpec.WalkIsBackTrail | astar.py:42-46 | when the goal is popped, the walk back from it is a back trail |
| SearchSpec.BackTrailRoute | astar.py:47 | a back trail read backwards is a route from the start to the goal that never returns to the start and never repeats a cell |
| SearchSpec.RouteClosed | astar.py:38-73 | once the open list is empty every cell of every route from the start is closed |
| SearchSpec.ExhaustedUnreachable | astar.py:38-73 | an empty open list means no route leads to the goal |
| SearchSpec.RunFacts | astar.py:38-73 | the loop returns a back trail or stops with no path only when the goal is unreachable |
| SearchSpec.ForwardResult | astar.py:11-14 | without reverse the result is a back trail: goal first, a neighbour of the start last, free cells one move apart, no repeats, without the start |
| SearchSpec.ReversedResult | astar.py:47 | with reverse the result is a route from the start to the goal, free cells one move apart, no repeats, without the start |
| SearchSpec.ReverseRoundTrip | astar.py:47 | the reverse flag changes nothing but the order: both calls find a path or neither does, and each path is the other reversed |
| SearchSpec.NotFoundIffUnreachable | astar.py:38-73 | False is returned exactly when no route of free cells one move apart leads from the start to the goal, in both orders |
| SearchSpec.StartIsGoal | astar.py:32-47 | starting on the goal returns the empty list, not False |
| SearchSpec.BlockedGoal | astar.py:53-62 | a goal other than the start that is outside the grid or blocked gives False |
| SearchSpec.IsolatedStart | astar.py:53-62 | a start with no free neighbour, such as one two or more cells outside the grid, gives False for every other goal |
| SearchSpec.FirstStep | astar.py:28 | a route's first cell is free and one move from the start |
| SearchSpec.ReachStep | astar.py:51-55 | a free cell one move from a reachable cell is reachable |
| SearchSpec.ReachAlongRow | astar.py:51-55 | along a free stretch of a row every cell is reachable once one end is |
| AStar.AStar | astar.py:9-73 | the imperative search returns exactly AStarResult: False, or the walk back, reversed when asked |
| AStar.ExpandNeighbors | astar.py:50-71 | the neighbour loop leaves the open list, predecessor map and scores as trying the eight offsets in order does |
| AStar.TryNeighbor | astar.py:51-71 | one pass of the neighbour loop, with its bounds, wall, closed-set and improvement tests, leaves the state as one relaxation does |
| AStar.WalkBack | astar.py:43-46 | the reconstruction loop collects exactly the walk back from the goal |
| Scenarios.TestGrid | astar.py:78-89 | the 11 by 14 map the unit tests search |
| Scenarios.FirstWall | astar.py:78-89 | the test map is rectangular and row 1 is a wall from column 0 to 11 |
| Scenarios.CornerExit | astar.py:78-89 | the only free neighbour of (0, 0) on the test map is (0, 1) |
| Scenarios.TrailFromCorner | astar.py:109-120 | every back trail from (0, 0) on the test map ends in (0, 1) |
| Scenarios.NextCellTrail | astar.py:113-114 | the only back trail from (0, 1) to (0, 0) on the test map is [(0, 1)] |
| Scenarios.NextCell | astar.py:113-114 | astar(nmap, (0,0), (0,1)) is [(0,1)], in either order |
| Scenarios.WallGoal | astar.py:122-123 | astar(nmap, (0,0), (1,5), reverse=True) is False |
| Scenarios.OutsideGoal | astar.py:125-126 | astar(nmap, (-1,20), (100,500), reverse=True) is False |
| Scenarios.OutsideStart | astar.py:125-126 | from (-1, 20) every other goal gives False, in either order |
| Scenarios.Gate | astar.py:78-80 | apart from (0, 5), the free neighbours of a cell of row 0 left of column 6 lie in that stretch |
| Scenarios.StaysOutside | astar.py:78-80 | a back trail from (0, 5) whose second cell is outside that stretch never enters it |
| Scenarios.AlongTopRow | astar.py:78-80 | a free cell one move from a cell of row 0 left of column 11 is that cell's left or right neighbour |
| Scenarios.LeftStep | astar.py:78-80 | inside the stretch a back trail from (0, 5) can only go on leftwards |
| Scenarios.TopRowReachable | astar.py:78-79 | the top row leads from (0, 0) to (0, 5) |
| Scenarios.TopRowTrail | astar.py:116-117 | the only back trail from (0, 5) to (0, 0) is [(0,5), (0,4), (0,3), (0,2), (0,1)] |
| Scenarios.TopRowReversed | astar.py:116-120 | the two lists the tests compare against are each other's reverse |
| Scenarios.TopRow | astar.py:116-120 | astar(nmap, (0,0), (0,5)) is [(0,5), (0,4), (0,3), (0,2), (0,1)], and with reverse=True [(0,1), (0,2), (0,3), (0,4), (0,5)] |
| Scenarios.FreeRows | astar.py:78-89 | rows 0, 2, 4, 6, 8 and 10 of the test map are free |
| Scenarios.FarCornerReachable | astar.py:78-89 | (10, 13) is reachable from (0, 0) through the gaps |
| Scenarios.FarCorner | astar.py:109-111 | astar(nmap, (0,0), (10,13)) returns a path that, like the expected one, starts at (10, 13) and ends at (0, 1) |

## Left out

- The `numpy.ndarray` shape branch (astar.py:21-26): the grid is a rectangular list of rows, and its height and width are its length and the length of row 0. numpy is a foreign library.
- The internals of `heapq`: the open list is a list from which the least tuple is removed by a scan. Ties between identical tuples cannot be observed, so the pop order is the same as the binary heap's.
- The `unittest` harness (astar.py:76-130): its concrete expectations are lemmas in `Scenarios`.
- Scenarios.FarCorner: states only that a path is found and what its two ends are, not that it equals the 57-entry list the test expects (astar.py:110-111). Pinning that down needs the search unrolled pop by pop on the map, and several back trails of the map fit every property proved here.
- Optimality: the docstring (astar.py:10-11) promises a shortest path, but the code does not guarantee one, and the model claims nothing about path length. The squared estimate can overestimate the remaining cost: from (0, 0) to (0, 2) on an open row it is 4 while the cost is 2, so it is not admissible.
- AStar.AStar: requires a non-empty grid whose rows all have the length of row 0. An empty grid makes the source raise at `len(array[0])` (astar.py:26), which the model does not capture. With ragged rows the source may index past the end of a short row and raise, and that behaviour is not modelled. Rows longer than row 0 never raise, since the source reads only their first `len(array[0])` cells, but the requires excludes them as well.
- The default `reverse=False` is a plain boolean parameter.
- The result type: Python's `False` is the constructor `NotFound`, and a list is `Found(list)`.
