/** Misc/GraphVisualizer.java: the adjacency matrix of a graph and the edge list the
    constructor builds from it, one edge per non-zero entry in row-major order. */
module GraphEdges {

  /** `Edge`: the indices of its two nodes and its weight. */
  datatype Edge = Edge(source: int, target: int, weight: int)

  /** Every row has an entry for every node. */
  ghost predicate Matrix(adj: seq<seq<int>>)
  {
    forall i :: 0 <= i < |adj| ==> |adj[i]| >= |adj|
  }

  /** An arc `u -> v`: a non-zero entry of the matrix. */
  predicate Arc(adj: seq<seq<int>>, u: int, v: int)
  {
    0 <= u < |adj| && 0 <= v < |adj| && v < |adj[u]| && adj[u][v] != 0
  }



  /** The edge of the entry in row `i`, column `j`, if it is non-zero. */
  ghost function EntryEdges(adj: seq<seq<int>>, i: nat, j: nat): seq<Edge>
    requires Matrix(adj) && i < |adj| && j < |adj|
  {
    if adj[i][j] != 0 then [Edge(i, j, adj[i][j])] else []
  }

  /** The edges of row `i` in columns `0 .. j - 1`, left to right. */
  ghost function RowEdges(adj: seq<seq<int>>, i: nat, j: nat): seq<Edge>
    requires Matrix(adj) && i < |adj| && j <= |adj|
  {
    if j == 0 then [] else RowEdges(adj, i, j - 1) + EntryEdges(adj, i, j - 1)
  }

  /** The edges of rows `0 .. i - 1`, row by row. */
  ghost function EdgesUpTo(adj: seq<seq<int>>, i: nat): seq<Edge>
    requires Matrix(adj) && i <= |adj|
  {
    if i == 0 then [] else EdgesUpTo(adj, i - 1) + RowEdges(adj, i - 1, |adj|)
  }

  /** The edge list `initializeGraph` builds. */
  ghost function RowMajor(adj: seq<seq<int>>): seq<Edge>
    requires Matrix(adj)
  {
    EdgesUpTo(adj, |adj|)
  }

  /** `e` comes before `f` in row-major order. */
  predicate Before(e: Edge, f: Edge)
  {
    e.source < f.source || (e.source == f.source && e.target < f.target)
  }

  /** Each edge comes before the next in row-major order. */
  ghost predicate InRowMajorOrder(es: seq<Edge>)
  {
    forall a, b :: 0 <= a < b < |es| && b == a + 1 ==> Before(es[a], es[b])
  }

  lemma OrderedAppend(x: seq<Edge>, y: seq<Edge>)
    requires InRowMajorOrder(x) && InRowMajorOrder(y)
    requires x != [] && y != [] ==> Before(x[|x| - 1], y[0])
    ensures InRowMajorOrder(x + y)
  {
    var z := x + y;
    forall a, b | 0 <= a < b < |z| && b == a + 1
      ensures Before(z[a], z[b])
    {
      if b < |x| {
        assert z[a] == x[a] && z[b] == x[b];
      } else if a >= |x| {
        assert z[a] == y[a - |x|] && z[b] == y[b - |x|];
      }
    }
  }

  /** Rows in order: `y` starts in row `r` and `x` ends in an earlier row. */
  lemma JoinRows(x: seq<Edge>, y: seq<Edge>, r: int)
    requires InRowMajorOrder(x) && InRowMajorOrder(y)
    requires x != [] && y != [] ==> x[|x| - 1].source < r && y[0].source == r
    ensures InRowMajorOrder(x + y)
  {
    OrderedAppend(x, y);
  }

  /** Within row `r`: `y` starts at column `c` and `x` ends at an earlier column. */
  lemma JoinColumns(x: seq<Edge>, y: seq<Edge>, r: int, c: int)
    requires InRowMajorOrder(x) && InRowMajorOrder(y)
    requires x != [] && y != [] ==> x[|x| - 1].source == r && x[|x| - 1].target < c
    requires y != [] ==> y[0].source == r && y[0].target == c
    ensures InRowMajorOrder(x + y)
  {
    OrderedAppend(x, y);
  }

  /** Row-major order is transitive: in an ordered list every edge comes before every later one. */
  lemma {:induction false} OrderedPairs(es: seq<Edge>)
    requires InRowMajorOrder(es)
    ensures forall a, b :: 0 <= a < b < |es| ==> Before(es[a], es[b])
  {
    if |es| > 1 {
      var front := es[..|es| - 1];
      OrderedPairs(front);
      forall a, b | 0 <= a < b < |es|
        ensures Before(es[a], es[b])
      {
        if b < |es| - 1 {
          assert es[a] == front[a] && es[b] == front[b];
        } else if a < b - 1 {
          assert es[a] == front[a] && es[b - 1] == front[b - 1];
        }
      }
    }
  }

  /** `e` is the edge of a non-zero entry, carrying that entry as its weight. */
  predicate Listed(adj: seq<seq<int>>, e: Edge)
  {
    Arc(adj, e.source, e.target) && e.weight == adj[e.source][e.target]
  }

  lemma {:induction false} RowEdgesBounds(adj: seq<seq<int>>, i: nat, j: nat)
    requires Matrix(adj) && i < |adj| && j <= |adj|
    ensures forall k :: 0 <= k < |RowEdges(adj, i, j)| ==>
      RowEdges(adj, i, j)[k].source == i && RowEdges(adj, i, j)[k].target < j
  {
    if j > 0 {
      RowEdgesBounds(adj, i, j - 1);
      var front: seq<Edge>, tail: seq<Edge> := RowEdges(adj, i, j - 1), EntryEdges(adj, i, j - 1);
      forall k: int | 0 <= k < |front + tail|
        ensures (front + tail)[k].source == i && (front + tail)[k].target < j
      {
        if k < |front| {
          assert (front + tail)[k] == front[k];
        } else {
          assert (front + tail)[k] == tail[k - |front|];
        }
      }
    }
  }

  lemma {:induction false} RowEdgesMembers(adj: seq<seq<int>>, i: nat, j: nat)
    requires Matrix(adj) && i < |adj| && j <= |adj|
    ensures forall e :: e in RowEdges(adj, i, j) <==> e.source == i && e.target < j && Listed(adj, e)
  {
    if j > 0 {
      RowEdgesMembers(adj, i, j - 1);
      var front: seq<Edge>, tail: seq<Edge> := RowEdges(adj, i, j - 1), EntryEdges(adj, i, j - 1);
      forall e: Edge
        ensures e in front + tail <==> e.source == i && e.target < j && Listed(adj, e)
      {
        assert e in front + tail <==> e in front || e in tail;
      }
    }
  }

  lemma {:induction false} RowEdgesOrder(adj: seq<seq<int>>, i: nat, j: nat)
    requires Matrix(adj) && i < |adj| && j <= |adj|
    ensures InRowMajorOrder(RowEdges(adj, i, j))
  {
    if j > 0 {
      RowEdgesOrder(adj, i, j - 1);
      RowEdgesBounds(adj, i, j - 1);
      JoinColumns(RowEdges(adj, i, j - 1), EntryEdges(adj, i, j - 1), i, j - 1);
    }
  }

  lemma {:induction false} EdgesUpToBounds(adj: seq<seq<int>>, i: nat)
    requires Matrix(adj) && i <= |adj|
    ensures forall k :: 0 <= k < |EdgesUpTo(adj, i)| ==> EdgesUpTo(adj, i)[k].source < i
  {
    if i > 0 {
      EdgesUpToBounds(adj, i - 1);
      RowEdgesBounds(adj, i - 1, |adj|);
      var front: seq<Edge>, row: seq<Edge> := EdgesUpTo(adj, i - 1), RowEdges(adj, i - 1, |adj|);
      forall k: int | 0 <= k < |front + row|
        ensures (front + row)[k].source < i
      {
        if k < |front| {
          assert (front + row)[k] == front[k];
        } else {
          assert (front + row)[k] == row[k - |front|];
        }
      }
    }
  }

  lemma {:induction false} EdgesUpToMembers(adj: seq<seq<int>>, i: nat)
    requires Matrix(adj) && i <= |adj|
    ensures forall e :: e in EdgesUpTo(adj, i) <==> e.source < i && Listed(adj, e)
  {
    if i > 0 {
      EdgesUpToMembers(adj, i - 1);
      RowEdgesMembers(adj, i - 1, |adj|);
      var front: seq<Edge>, row: seq<Edge> := EdgesUpTo(adj, i - 1), RowEdges(adj, i - 1, |adj|);
      forall e: Edge
        ensures e in front + row <==> e.source < i && Listed(adj, e)
      {
        assert e in front + row <==> e in front || e in row;
        assert e in front <==> e.source < i - 1 && Listed(adj, e);
        assert e in row <==> e.source == i - 1 && e.target < |adj| && Listed(adj, e);
        assert Listed(adj, e) ==> e.target < |adj|;
      }
    }
  }

  lemma {:induction false} EdgesUpToOrder(adj: seq<seq<int>>, i: nat)
    requires Matrix(adj) && i <= |adj|
    ensures InRowMajorOrder(EdgesUpTo(adj, i))
  {
    if i > 0 {
      EdgesUpToOrder(adj, i - 1);
      RowEdgesOrder(adj, i - 1, |adj|);
      EdgesUpToBounds(adj, i - 1);
      RowEdgesBounds(adj, i - 1, |adj|);
      JoinRows(EdgesUpTo(adj, i - 1), RowEdges(adj, i - 1, |adj|), i - 1);
    }
  }

  /** The edge list holds exactly one edge per non-zero entry, carrying that entry as its weight,
      in row-major order (so no entry is listed twice). */
  lemma RowMajorEdges(adj: seq<seq<int>>)
    requires Matrix(adj)
    ensures forall e :: e in RowMajor(adj) <==> Listed(adj, e)
    ensures forall a, b :: 0 <= a < b < |RowMajor(adj)| ==> Before(RowMajor(adj)[a], RowMajor(adj)[b])
  {
    EdgesUpToMembers(adj, |adj|);
    EdgesUpToOrder(adj, |adj|);
    OrderedPairs(RowMajor(adj));
  }
}
