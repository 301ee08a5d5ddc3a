/** The open list: a collection of (f-score, position) tuples from which the least tuple is taken,
    comparing f first, then the row, then the column. Equal tuples are interchangeable, so the
    contents are modelled as a multiset and the tuple taken out is fully determined. */
module OpenHeap {
  import opened Grid2D

  type Entry = (int, Pos)

  /** Tuple order: f-score, then row, then column. */
  predicate Le(a: Entry, b: Entry)
  {
    a.0 < b.0 || (a.0 == b.0 && (a.1.0 < b.1.0 || (a.1.0 == b.1.0 && a.1.1 <= b.1.1)))
  }

  lemma LeTotalOrder(a: Entry, b: Entry, c: Entry)
    ensures Le(a, a)
    ensures Le(a, b) || Le(b, a)
    ensures Le(a, b) && Le(b, a) ==> a == b
    ensures Le(a, b) && Le(b, c) ==> Le(a, c)
  {
  }

  /** e is a least element of m. */
  ghost predicate IsMin(m: multiset<Entry>, e: Entry)
  {
    e in m && forall x :: x in m ==> Le(e, x)
  }

  lemma {:induction false} MinExists(m: multiset<Entry>)
    requires |m| > 0
    ensures exists e :: IsMin(m, e)
    decreases |m|
  {
    var x :| x in m;
    var m' := m - multiset{x};
    if |m'| == 0 {
      assert m == multiset{x};
      assert IsMin(m, x);
    } else {
      MinExists(m');
      var y :| IsMin(m', y);
      LeTotalOrder(x, y, x);
      var z := if Le(x, y) then x else y;
      forall w | w in m
        ensures Le(z, w)
      {
        if w != x {
          assert w in m';
          LeTotalOrder(z, y, w);
        } else {
          LeTotalOrder(z, x, x);
        }
      }
      assert IsMin(m, z);
    }
  }

  /** The least element is unique. */
  lemma MinUnique(m: multiset<Entry>, a: Entry, b: Entry)
    requires IsMin(m, a) && IsMin(m, b)
    ensures a == b
  {
    LeTotalOrder(a, b, a);
  }

  /** The tuple a pop returns. */
  ghost function MinOf(m: multiset<Entry>): (e: Entry)
    requires |m| > 0
    ensures IsMin(m, e)
  {
    MinExists(m);
    var e :| IsMin(m, e);
    e
  }

  /** The positions that have at least one tuple in the open list. */
  ghost function Positions(m: multiset<Entry>): (ps: set<Pos>)
    ensures forall e {:trigger m[e]} :: e in m ==> e.1 in ps
    ensures forall p :: p in ps ==> exists e {:trigger m[e]} :: e in m && e.1 == p
  {
    set e {:trigger m[e]} | e in m :: e.1
  }

  /** A position has a tuple in a list exactly when some index of the list holds it. */
  lemma PositionsOfList(s: seq<Entry>, p: Pos)
    ensures p in Positions(multiset(s)) <==> exists q :: 0 <= q < |s| && s[q].1 == p
  {
    if p in Positions(multiset(s)) {
      var e :| e in multiset(s) && e.1 == p;
      assert e in s;
      var q :| 0 <= q < |s| && s[q] == e;
    }
    if exists q :: 0 <= q < |s| && s[q].1 == p {
      var q :| 0 <= q < |s| && s[q].1 == p;
      assert s[q] in multiset(s);
    }
  }

  /** Takes the least tuple out of a list of tuples. */
  method PopMin(heap: seq<Entry>) returns (e: Entry, rest: seq<Entry>)
    requires |heap| > 0
    ensures e in heap
    ensures forall x :: x in heap ==> Le(e, x)
    ensures multiset(rest) == multiset(heap) - multiset{e}
  {
    var m := 0;
    for i := 1 to |heap|
      invariant 0 <= m < i
      invariant forall j :: 0 <= j < i ==> Le(heap[m], heap[j])
    {
      if !Le(heap[m], heap[i]) {
        forall j | 0 <= j < i
          ensures Le(heap[i], heap[j])
        {
          LeTotalOrder(heap[i], heap[m], heap[j]);
        }
        m := i;
      }
    }
    e := heap[m];
    assert heap == heap[..m] + [heap[m]] + heap[m + 1..];
    rest := heap[..m] + heap[m + 1..];
    forall x | x in heap
      ensures Le(e, x)
    {
      var j :| 0 <= j < |heap| && heap[j] == x;
    }
  }

  /** Whether some tuple of the list carries position p (a scan over the whole list). */
  method HasPosition(heap: seq<Entry>, p: Pos) returns (b: bool)
    ensures b <==> p in Positions(multiset(heap))
  {
    b := false;
    for q := 0 to |heap|
      invariant b <==> exists j :: 0 <= j < q && heap[j].1 == p
    {
      if heap[q].1 == p {
        b := true;
      }
    }
    PositionsOfList(heap, p);
  }
}
