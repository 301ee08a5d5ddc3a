/** The bookkeeping of one search and the single steps that change it: the initial state, the
    relaxation of one neighbour, the expansion of a popped position and the walk back along
    the predecessor map. */
module SearchState {
  import opened Grid2D
  import opened OpenHeap

  /** What a search keeps: the open list, the closed set, the predecessor map and the g and f scores. */
  datatype State = State(
    heap: multiset<Entry>,
    closed: set<Pos>,
    cameFrom: map<Pos, Pos>,
    g: map<Pos, int>,
    f: map<Pos, int>)

  /** The state before the first pop: only the start is known, with g-score 0. */
  function Init(start: Pos, goal: Pos): (st: State)
    ensures st.g.Keys == {start} && st.f.Keys == {start} && st.g[start] == 0
    ensures st.heap == multiset{(st.f[start], start)} && st.f[start] == st.g[start] + Heuristic(start, goal)
    ensures st.closed == {} && st.cameFrom == map[]
  {
    State(multiset{(Heuristic(start, goal), start)}, {}, map[], map[start := 0], map[start := Heuristic(start, goal)])
  }

  /** The score a neighbour is compared against; an unknown position counts as 0. */
  function KnownScore(g: map<Pos, int>, p: Pos): int
  {
    if p in g then g[p] else 0
  }

  /** A passable neighbour n of cur is recorded when it is not a closed position that the new
      score fails to improve, and either the new score improves on the known one or n has no
      tuple in the open list. */
  ghost predicate Admits(grid: Grid, st: State, cur: Pos, n: Pos)
    requires WellFormed(grid) && cur in st.g
  {
    var t := st.g[cur] + Heuristic(cur, n);
    Passable(grid, n)
    && !(n in st.closed && t >= KnownScore(st.g, n))
    && (t < KnownScore(st.g, n) || n !in Positions(st.heap))
  }

  /** Records n as reached from cur: its predecessor, its g-score through cur, its f-score, and a
      tuple carrying that f-score pushed onto the open list; nothing else changes. */
  ghost function Admitted(goal: Pos, st: State, cur: Pos, n: Pos): (r: State)
    requires cur in st.g
    ensures n in r.cameFrom && r.cameFrom[n] == cur
    ensures n in r.g && r.g[n] == st.g[cur] + Heuristic(cur, n)
    ensures n in r.f && r.f[n] == r.g[n] + Heuristic(n, goal)
    ensures r.heap == st.heap + multiset{(r.f[n], n)} && r.closed == st.closed
    ensures st.g.Keys <= r.g.Keys && st.cameFrom.Keys <= r.cameFrom.Keys
  {
    var t := st.g[cur] + Heuristic(cur, n);
    var fn := t + Heuristic(n, goal);
    State(st.heap + multiset{(fn, n)}, st.closed, st.cameFrom[n := cur], st.g[n := t], st.f[n := fn])
  }

  /** Tries the neighbour of cur at offset d: a position outside the grid or blocked is skipped,
      and so is one that Admits rejects; otherwise it is Admitted. */
  ghost function Relax(grid: Grid, goal: Pos, st: State, cur: Pos, d: Pos): (r: State)
    requires WellFormed(grid) && cur in st.g
    ensures !Passable(grid, Add(cur, d)) ==> r == st
    ensures r.closed == st.closed && st.g.Keys <= r.g.Keys
  {
    var n := Add(cur, d);
    if Admits(grid, st, cur, n) then Admitted(goal, st, cur, n) else st
  }

  /** The state after trying the first i offsets around cur. */
  ghost function ExpandPrefix(grid: Grid, goal: Pos, st: State, cur: Pos, i: nat): (r: State)
    requires WellFormed(grid) && cur in st.g && i <= |Neighbors|
    ensures r.closed == st.closed && st.g.Keys <= r.g.Keys
  {
    if i == 0 then st
    else Relax(grid, goal, ExpandPrefix(grid, goal, st, cur, i - 1), cur, Neighbors[i - 1])
  }

  /** Closes cur and tries all eight offsets around it. */
  ghost function Expand(grid: Grid, goal: Pos, st: State, cur: Pos): (r: State)
    requires WellFormed(grid) && cur in st.g
    ensures r.closed == st.closed + {cur}
  {
    ExpandPrefix(grid, goal, st.(closed := st.closed + {cur}), cur, |Neighbors|)
  }

  /** Following the predecessor map from any position lowers the g-score, which stays non-negative. */
  ghost predicate Descending(cameFrom: map<Pos, Pos>, g: map<Pos, int>)
  {
    forall n {:trigger n in cameFrom} :: n in cameFrom ==> n in g && cameFrom[n] in g && 0 <= g[cameFrom[n]] < g[n]
  }

  /** The positions met walking back from p while the predecessor map has an entry, p first. */
  function Walk(cameFrom: map<Pos, Pos>, g: map<Pos, int>, p: Pos): (w: seq<Pos>)
    requires Descending(cameFrom, g)
    ensures w == [] <==> p !in cameFrom
    ensures forall i :: 0 <= i < |w| ==> w[i] in cameFrom
    ensures forall i :: 0 <= i < |w| - 1 ==> w[i + 1] == cameFrom[w[i]]
    ensures w != [] ==> w[0] == p && cameFrom[w[|w| - 1]] !in cameFrom
    decreases if p in cameFrom then g[p] else 0
  {
    if p in cameFrom then [p] + Walk(cameFrom, g, cameFrom[p]) else []
  }

  /** The list in the opposite order. */
  function Reversed(s: seq<Pos>): (r: seq<Pos>)
    ensures |r| == |s|
    ensures forall i :: 0 <= i < |s| ==> r[i] == s[|s| - 1 - i]
  {
    seq(|s|, i requires 0 <= i < |s| => s[|s| - 1 - i])
  }

  /** Reversing is its own inverse. */
  lemma ReversedTwice(s: seq<Pos>)
    ensures Reversed(Reversed(s)) == s
  {
  }
}
