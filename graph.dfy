/** Misc/GraphVisualizer.java: a directed weighted graph given as an adjacency matrix with a
    label per node, the edge list the panel draws, Dijkstra's search from one node to another,
    the lookup of a node by its label and the hit test of a node's disc. */
module Graphs {
  import opened Common
  import opened GraphEdges

  /** `Node.RADIUS`. */
  const RADIUS := 25

  /** `Node`: its index in the graph and the centre of its disc. */
  datatype Node = Node(id: int, x: int, y: int)
  {
    /** `contains`: the point lies in the closed disc of radius `RADIUS` around the centre. */
    predicate Contains(px: int, py: int)
    {
      (px - x) * (px - x) + (py - y) * (py - y) <= RADIUS * RADIUS
    }
  }

  lemma {:induction false} SquareMono(p: nat, q: nat)
    requires p <= q
    ensures p * p <= q * q
  {
    if p < q {
      SquareMono(p, q - 1);
      assert q * q == (q - 1) * (q - 1) + 2 * q - 1;
    }
  }

  lemma AbsSquare(d: int)
    ensures d * d == Abs(d) * Abs(d)
  {
    if d < 0 {
      assert d * d == (-d) * (-d);
    }
  }

  lemma SquareOfSum(a: nat, b: nat)
    ensures a * a + b * b <= (a + b) * (a + b)
  {
    assert (a + b) * (a + b) == a * a + 2 * (a * b) + b * b;
  }

  /** The disc lies between the diamond and the square of radius `RADIUS`: a point within
      `RADIUS` steps of the centre is inside, a point farther than `RADIUS` along either axis is not. */
  lemma ContainsBetween(node: Node, px: int, py: int)
    ensures node.Contains(px, py) ==> Abs(px - node.x) <= RADIUS && Abs(py - node.y) <= RADIUS
    ensures Abs(px - node.x) + Abs(py - node.y) <= RADIUS ==> node.Contains(px, py)
  {
    var a, b := Abs(px - node.x), Abs(py - node.y);
    AbsSquare(px - node.x);
    AbsSquare(py - node.y);
    if a > RADIUS {
      SquareMono(RADIUS + 1, a);
    }
    if b > RADIUS {
      SquareMono(RADIUS + 1, b);
    }
    if a + b <= RADIUS {
      SquareMono(a + b, RADIUS);
      SquareOfSum(a, b);
    }
  }

  /** `DijkstraResult`. */
  datatype DijkstraResult = DijkstraResult(path: seq<int>, totalDistance: int, pathLabels: seq<string>)

  /** An entry `{node, distance}` of `dijkstra`'s priority queue. */
  datatype Entry = Entry(node: int, dist: int)

  /** A distance of `dijkstra`: a number, or `Integer.MAX_VALUE`, which stands for "not reached". */
  datatype Dist = Fin(n: int) | Inf

  /** `newDist < distance[v]`. */
  predicate Shorter(x: int, d: Dist)
  {
    d.Inf? || x < d.n
  }

  /** The matrix has no negative entry. */
  ghost predicate NonNegative(adj: seq<seq<int>>)
  {
    forall i, j :: 0 <= i < |adj| && 0 <= j < |adj[i]| ==> adj[i][j] >= 0
  }

  // ---------------------------------------------------------------- walks and their costs

  /** A walk from `a` to `b` along arcs. */
  ghost predicate Walk(adj: seq<seq<int>>, w: seq<int>, a: int, b: int)
  {
    && w != [] && w[0] == a && w[|w| - 1] == b
    && (forall i :: 0 <= i < |w| ==> 0 <= w[i] < |adj|)
    && (forall i :: 0 <= i < |w| - 1 ==> Arc(adj, w[i], w[i + 1]))
  }

  /** The weight of the arc `u -> v`. */
  function Weight(adj: seq<seq<int>>, u: int, v: int): int
  {
    if Arc(adj, u, v) then adj[u][v] else 0
  }

  /** The sum of the weights of a walk's arcs. */
  ghost function Cost(adj: seq<seq<int>>, w: seq<int>): int
  {
    if |w| <= 1 then 0 else Cost(adj, w[..|w| - 1]) + Weight(adj, w[|w| - 2], w[|w| - 1])
  }

  ghost predicate Reachable(adj: seq<seq<int>>, a: int, b: int)
  {
    exists w :: Walk(adj, w, a, b)
  }

  /** No walk from `a` to `b` costs less than `c`. */
  ghost predicate Least(adj: seq<seq<int>>, a: int, b: int, c: int)
  {
    forall w :: Walk(adj, w, a, b) ==> c <= Cost(adj, w)
  }

  lemma {:induction false} CostCons(adj: seq<seq<int>>, x: int, w: seq<int>)
    requires w != []
    ensures Cost(adj, [x] + w) == Weight(adj, x, w[0]) + Cost(adj, w)
    decreases |w|
  {
    var xw := [x] + w;
    if |w| == 1 {
      assert xw[..1] == [x];
    } else {
      var v := w[..|w| - 1];
      CostCons(adj, x, v);
      assert xw[..|xw| - 1] == [x] + v;
    }
  }

  /** With no negative weight, a walk costs at least as much as any of its prefixes. */
  lemma {:induction false} CostPrefix(adj: seq<seq<int>>, w: seq<int>, k: nat)
    requires NonNegative(adj) && 1 <= k <= |w|
    ensures Cost(adj, w[..k]) <= Cost(adj, w)
    decreases |w| - k
  {
    if k < |w| {
      var v := w[..|w| - 1];
      CostPrefix(adj, v, k);
      assert v[..k] == w[..k];
    } else {
      assert w[..k] == w;
    }
  }

  // ---------------------------------------------------------------- the search state

  /** The arrays `distance`, `previous` and `visited` and the priority queue of `dijkstra`. */
  datatype Search = Search(dist: seq<Dist>, prev: seq<int>, visited: seq<bool>, pq: seq<Entry>)

  /** The nodes not visited yet. */
  ghost function Unvisited(vis: seq<bool>): set<int>
  {
    set v | 0 <= v < |vis| && !vis[v]
  }

  /** The arrays have one entry per node; the start keeps distance 0 and no predecessor. */
  ghost predicate Shaped(adj: seq<seq<int>>, start: int, s: Search)
  {
    && |s.dist| == |adj| && |s.prev| == |adj| && |s.visited| == |adj|
    && 0 <= start < |adj| && s.dist[start] == Fin(0) && s.prev[start] == -1
  }

  /** `rank` numbers the visited nodes in the order they were visited; the start comes first. */
  ghost predicate Ranked(adj: seq<seq<int>>, start: int, s: Search, rank: map<int, nat>)
    requires Shaped(adj, start, s)
  {
    && (forall v :: 0 <= v < |adj| ==> (s.visited[v] <==> v in rank))
    && (forall v :: v in rank ==> 0 <= v < |adj| && rank[v] < |rank|)
    && (|rank| > 0 ==> start in rank)
  }

  /** Each predecessor link is an arc out of a node visited earlier, and the distance it records
      is the predecessor's plus the arc's weight; a reached node without a link is the start. */
  ghost predicate Linked(adj: seq<seq<int>>, start: int, s: Search, rank: map<int, nat>)
    requires Shaped(adj, start, s)
  {
    forall v :: 0 <= v < |adj| ==>
      if s.prev[v] == -1 then s.dist[v].Fin? ==> v == start
      else
        var u := s.prev[v];
        && u in rank && Arc(adj, u, v) && s.dist[u].Fin? && s.dist[v].Fin?
        && s.dist[v].n == s.dist[u].n + adj[u][v]
        && (v in rank ==> rank[u] < rank[v])
  }

  /** Every entry names a reached node and is no shorter than its distance; every reached node
      not visited yet has an entry holding exactly its distance. */
  ghost predicate Queued(adj: seq<seq<int>>, start: int, s: Search)
    requires Shaped(adj, start, s)
  {
    && (forall e :: e in s.pq ==> 0 <= e.node < |adj| && s.dist[e.node].Fin? && s.dist[e.node].n <= e.dist)
    && (forall v :: 0 <= v < |adj| && !s.visited[v] && s.dist[v].Fin? ==> Entry(v, s.dist[v].n) in s.pq)
  }

  /** Visited nodes are reached, and with no negative weight each one's distance is the least
      cost of a walk to it from the start. */
  ghost predicate Settled(adj: seq<seq<int>>, start: int, s: Search)
    requires Shaped(adj, start, s)
  {
    forall v :: 0 <= v < |adj| && s.visited[v] ==>
      s.dist[v].Fin? && (NonNegative(adj) ==> Least(adj, start, v, s.dist[v].n))
  }

  /** Every arc from a visited node into a node not visited yet has been relaxed, except the
      arcs from `u` to columns `k` and beyond. */
  ghost predicate RelaxedBelow(adj: seq<seq<int>>, start: int, s: Search, u: int, k: int)
    requires Shaped(adj, start, s)
  {
    forall y, x :: 0 <= y < |adj| && s.visited[y] && Arc(adj, y, x) && !s.visited[x] && (y == u ==> x < k) ==>
      s.dist[y].Fin? && s.dist[x].Fin? && s.dist[x].n <= s.dist[y].n + adj[y][x]
  }

  ghost predicate Core(adj: seq<seq<int>>, start: int, s: Search, rank: map<int, nat>)
  {
    && Matrix(adj) && Shaped(adj, start, s) && Ranked(adj, start, s, rank)
    && Linked(adj, start, s, rank) && Queued(adj, start, s) && Settled(adj, start, s)
  }

  /** The invariant of `dijkstra`'s main loop: every arc out of a visited node has been relaxed
      (no node is numbered -1, so nothing is exempt). */
  ghost predicate Searching(adj: seq<seq<int>>, start: int, s: Search, rank: map<int, nat>)
  {
    Core(adj, start, s, rank) && RelaxedBelow(adj, start, s, -1, 0)
  }

  /** The invariant of the relaxation loop over `u`'s row, at column `k`. */
  ghost predicate Relaxing(adj: seq<seq<int>>, start: int, s: Search, rank: map<int, nat>, u: int, k: int)
  {
    Core(adj, start, s, rank) && 0 <= u < |adj| && s.visited[u] && RelaxedBelow(adj, start, s, u, k)
  }

  // ---------------------------------------------------------------- the priority queue

  /** The index of the first entry with the least distance: the entry `poll` takes (which of
      several equally short entries the heap yields is not modelled). */
  function LeastEntry(q: seq<Entry>): (m: nat)
    requires q != []
    ensures m < |q| && forall e :: e in q ==> q[m].dist <= e.dist
  {
    if |q| == 1 then 0
    else
      var k := LeastEntry(q[..|q| - 1]);
      assert forall e :: e in q ==> e in q[..|q| - 1] || e == q[|q| - 1];
      if q[|q| - 1].dist < q[k].dist then |q| - 1 else k
  }

  /** The queue after `poll` took the entry at `m`: every other entry stays. */
  function Without(q: seq<Entry>, m: nat): (r: seq<Entry>)
    requires m < |q|
    ensures |r| == |q| - 1
    ensures forall e :: e in r ==> e in q
    ensures forall e :: e in q && e != q[m] ==> e in r
  {
    var r := q[..m] + q[m + 1..];
    assert forall j :: 0 <= j < |q| && j != m ==> q[j] == r[if j < m then j else j - 1];
    r
  }

  // ---------------------------------------------------------------- the loop steps

  /** The state before the main loop satisfies its invariant. */
  lemma StartSearch(adj: seq<seq<int>>, start: int, s: Search)
    requires Matrix(adj) && 0 <= start < |adj|
    requires |s.dist| == |adj| && |s.prev| == |adj| && |s.visited| == |adj|
    requires forall v :: 0 <= v < |adj| ==>
      s.dist[v] == (if v == start then Fin(0) else Inf) && s.prev[v] == -1 && !s.visited[v]
    requires s.pq == [Entry(start, 0)]
    ensures Searching(adj, start, s, map[])
  {
  }

  /** Polling an entry of a node already visited (a stale entry) keeps the invariant. */
  lemma SkipVisited(adj: seq<seq<int>>, start: int, s: Search, rank: map<int, nat>, m: nat)
    requires Searching(adj, start, s, rank) && m < |s.pq| && s.visited[s.pq[m].node]
    ensures Searching(adj, start, s.(pq := Without(s.pq, m)), rank)
  {
  }

  /** The facts about visited nodes the optimality argument uses. */
  ghost predicate Frontier(adj: seq<seq<int>>, start: int, s: Search)
  {
    Shaped(adj, start, s) && Settled(adj, start, s) && RelaxedBelow(adj, start, s, -1, 0) && NonNegative(adj)
  }

  /** A prefix of a walk is a walk to its own last node. */
  lemma WalkPrefix(adj: seq<seq<int>>, w: seq<int>, a: int, k: nat)
    requires 1 <= k <= |w| && Walk(adj, w, a, w[|w| - 1])
    ensures Walk(adj, w[..k], a, w[k - 1])
  {
    assert forall i :: 0 <= i < k ==> w[..k][i] == w[i];
  }

  /** A walk from the start whose last arc leaves a visited node for one not visited yet reaches
      that node at no less than the node's distance. */
  lemma OpenAfterVisited(adj: seq<seq<int>>, start: int, s: Search, w: seq<int>)
    requires Frontier(adj, start, s)
    requires |w| >= 2 && Walk(adj, w, start, w[|w| - 1])
    requires s.visited[w[|w| - 2]] && !s.visited[w[|w| - 1]]
    ensures s.dist[w[|w| - 1]].Fin? && s.dist[w[|w| - 1]].n <= Cost(adj, w)
  {
    var k := |w| - 1;
    var y := w[k - 1];
    WalkPrefix(adj, w, start, k);
    assert Arc(adj, y, w[k]);
  }

  /** On a walk from the start whose `j`-th node is not visited yet, some node not visited yet, no
      later than the `j`-th, has a distance no greater than the cost of the walk up to it. */
  lemma {:induction false} FirstOpen(adj: seq<seq<int>>, start: int, s: Search, w: seq<int>, j: nat)
    returns (i: nat)
    requires Frontier(adj, start, s)
    requires w != [] && Walk(adj, w, start, w[|w| - 1])
    requires j < |w| && !s.visited[w[j]]
    ensures i <= j && !s.visited[w[i]] && s.dist[w[i]].Fin? && s.dist[w[i]].n <= Cost(adj, w[..i + 1])
  {
    if j == 0 {
      assert w[..1] == [start];
      i := 0;
    } else if s.visited[w[j - 1]] {
      WalkPrefix(adj, w, start, j + 1);
      OpenAfterVisited(adj, start, s, w[..j + 1]);
      i := j;
    } else {
      i := FirstOpen(adj, start, s, w, j - 1);
    }
  }

  /** The node of the least entry, when not visited yet, has the least cost of a walk from the start. */
  lemma PolledLeast(adj: seq<seq<int>>, start: int, s: Search, rank: map<int, nat>, m: nat)
    requires Searching(adj, start, s, rank) && NonNegative(adj)
    requires m < |s.pq| && (forall e :: e in s.pq ==> s.pq[m].dist <= e.dist)
    requires !s.visited[s.pq[m].node]
    ensures s.dist[s.pq[m].node].Fin? && Least(adj, start, s.pq[m].node, s.dist[s.pq[m].node].n)
  {
    var u := s.pq[m].node;
    assert s.pq[m] in s.pq;
    forall w | Walk(adj, w, start, u)
      ensures s.dist[u].n <= Cost(adj, w)
    {
      var i := FirstOpen(adj, start, s, w, |w| - 1);
      CostPrefix(adj, w, i + 1);
      assert Entry(w[i], s.dist[w[i]].n) in s.pq;
    }
  }

  /** Visiting the node of the least entry: the invariant of the relaxation loop holds before
      its first column. */
  lemma VisitPolled(adj: seq<seq<int>>, start: int, s: Search, rank: map<int, nat>, m: nat)
    requires Searching(adj, start, s, rank)
    requires m < |s.pq| && (forall e :: e in s.pq ==> s.pq[m].dist <= e.dist)
    requires !s.visited[s.pq[m].node]
    ensures var u := s.pq[m].node;
      Relaxing(adj, start, Search(s.dist, s.prev, s.visited[u := true], Without(s.pq, m)), rank[u := |rank|], u, 0)
  {
    var u := s.pq[m].node;
    assert s.pq[m] in s.pq;
    if NonNegative(adj) {
      PolledLeast(adj, start, s, rank, m);
    }
    if |rank| == 0 {
      assert s.prev[u] == -1;
    }
  }

  /** A shorter distance found through `u` for the node `k`. */
  lemma Improve(adj: seq<seq<int>>, start: int, s: Search, rank: map<int, nat>, u: int, k: int, nd: int)
    requires Relaxing(adj, start, s, rank, u, k) && 0 <= k < |adj|
    requires Arc(adj, u, k) && !s.visited[k] && s.dist[u].Fin? && nd == s.dist[u].n + adj[u][k]
    requires Shorter(nd, s.dist[k])
    ensures Relaxing(adj, start, Search(s.dist[k := Fin(nd)], s.prev[k := u], s.visited, s.pq + [Entry(k, nd)]), rank, u, k + 1)
  {
  }

  /** No shorter distance through `u` for the node `k`. */
  lemma Keep(adj: seq<seq<int>>, start: int, s: Search, rank: map<int, nat>, u: int, k: int)
    requires Relaxing(adj, start, s, rank, u, k) && 0 <= k < |adj| && s.dist[u].Fin?
    requires Arc(adj, u, k) && !s.visited[k] ==> !Shorter(s.dist[u].n + adj[u][k], s.dist[k])
    ensures Relaxing(adj, start, s, rank, u, k + 1)
  {
  }

  /** After the last column every arc out of `u` has been relaxed. */
  lemma RowDone(adj: seq<seq<int>>, start: int, s: Search, rank: map<int, nat>, u: int)
    requires Relaxing(adj, start, s, rank, u, |adj|)
    ensures Searching(adj, start, s, rank)
  {
  }

  /** Once the queue is empty, every node a walk from the start reaches has been visited. */
  lemma {:induction false} Closed(adj: seq<seq<int>>, start: int, s: Search, rank: map<int, nat>, w: seq<int>)
    requires Searching(adj, start, s, rank) && s.pq == []
    requires w != [] && Walk(adj, w, start, w[|w| - 1])
    ensures s.visited[w[|w| - 1]]
    decreases |w|
  {
    if |w| > 1 {
      var v := w[..|w| - 1];
      assert Walk(adj, v, start, v[|v| - 1]);
      Closed(adj, start, s, rank, v);
      assert Arc(adj, w[|w| - 2], w[|w| - 1]);
    }
  }

  /** Once the queue is empty, every node a walk from the start reaches has been visited. */
  lemma ReachedVisited(adj: seq<seq<int>>, start: int, s: Search, rank: map<int, nat>, z: int)
    requires Searching(adj, start, s, rank) && s.pq == [] && 0 <= z < |adj|
    ensures Reachable(adj, start, z) ==> s.visited[z]
  {
    if Reachable(adj, start, z) {
      var w :| Walk(adj, w, start, z);
      Closed(adj, start, s, rank, w);
    }
  }

  /** The loop invariant of the path-building loop: `path` is a walk to `end` without repeated
      nodes, costing `end`'s distance less its first node's, whose nodes were visited after
      `current`, the first node's predecessor; when no predecessor is left, the walk starts at
      the start. */
  ghost predicate Tracing(adj: seq<seq<int>>, start: int, s: Search, rank: map<int, nat>, end: int, current: int, path: seq<int>)
    requires Shaped(adj, start, s)
  {
    && 0 <= end < |adj| && s.dist[end].Fin?
    && (current == -1 || (0 <= current < |adj| && current in rank))
    && (path == [] ==> current == end)
    && (path != [] ==> Walk(adj, path, path[0], end) && s.dist[path[0]].Fin? && Cost(adj, path) == s.dist[end].n - s.dist[path[0]].n)
    && (path != [] && current != -1 ==> s.prev[path[0]] == current)
    && (current == -1 ==> path != [] && path[0] == start)
    && Distinct(path) && (forall j :: 0 <= j < |path| ==> path[j] in rank)
    && (current != -1 ==> forall j :: 0 <= j < |path| ==> rank[current] < rank[path[j]])
  }

  /** Putting a node in front of a walk, along an arc into its first node, gives a walk. */
  lemma PrependWalk(adj: seq<seq<int>>, c: int, path: seq<int>, end: int)
    requires 0 <= c < |adj|
    requires path == [] ==> c == end
    requires path != [] ==> Walk(adj, path, path[0], end) && Arc(adj, c, path[0])
    ensures Walk(adj, [c] + path, c, end)
  {
    var cp := [c] + path;
    assert forall j :: 1 <= j < |cp| ==> cp[j] == path[j - 1];
    if path != [] {
      forall i | 0 <= i < |cp| - 1
        ensures Arc(adj, cp[i], cp[i + 1])
      {
        if i > 0 {
          assert cp[i] == path[i - 1] && cp[i + 1] == path[i];
        }
      }
    }
  }

  lemma PrependDistinct(c: int, path: seq<int>)
    requires Distinct(path) && c !in path
    ensures Distinct([c] + path)
  {
    var cp := [c] + path;
    assert forall j :: 1 <= j < |cp| ==> cp[j] == path[j - 1];
  }

  /** One step of the path-building loop: putting `current` in front and following its
      predecessor link keeps the loop's invariant. */
  lemma TraceStep(adj: seq<seq<int>>, start: int, s: Search, rank: map<int, nat>, end: int, current: int, path: seq<int>)
    requires Searching(adj, start, s, rank) && current != -1 && Tracing(adj, start, s, rank, end, current, path)
    ensures Tracing(adj, start, s, rank, end, s.prev[current], [current] + path)
  {
    var cp := [current] + path;
    assert s.visited[current] && s.dist[current].Fin?;
    if path != [] {
      CostCons(adj, current, path);
      assert Arc(adj, current, path[0]);
    }
    PrependWalk(adj, current, path, end);
    assert current !in path;
    PrependDistinct(current, path);
    assert forall j :: 1 <= j < |cp| ==> cp[j] == path[j - 1];
  }

  /** The path's labels are the labels of its nodes. */
  ghost predicate Labelled(labels: seq<string>, path: seq<int>, pathLabels: seq<string>)
  {
    |pathLabels| == |path| && forall i :: 0 <= i < |path| ==> 0 <= path[i] < |labels| && pathLabels[i] == labels[path[i]]
  }

  /** What `dijkstra` promises: the path and its labels; an empty path, with total -1, exactly when
      no walk leads from the start to the end; otherwise a walk without repeated nodes whose total
      is its cost, and, with no negative weight, the least cost of any walk. */
  ghost predicate Answers(adj: seq<seq<int>>, labels: seq<string>, start: int, end: int, res: DijkstraResult)
  {
    && Labelled(labels, res.path, res.pathLabels)
    && (res.path == [] <==> !Reachable(adj, start, end))
    && (res.path == [] ==> res.totalDistance == -1)
    && (res.path != [] ==> Walk(adj, res.path, start, end) && Distinct(res.path) && res.totalDistance == Cost(adj, res.path))
    && (res.path != [] && NonNegative(adj) ==> Least(adj, start, end, res.totalDistance))
  }

  /** What `runDijkstra` does with the two labels it is given. */
  datatype Outcome =
    | NotFound
    | SameNode
    | Ran(startIndex: int, endIndex: int, result: DijkstraResult)

  class Graph {
    const adjacencyMatrix: seq<seq<int>>
    const labels: seq<string>
    var edges: seq<Edge>

    /** The constructor: stores the matrix and the labels and builds the edge list. */
    constructor (adjacencyMatrix: seq<seq<int>>, l: seq<string>)
      requires Matrix(adjacencyMatrix)
      ensures this.adjacencyMatrix == adjacencyMatrix && labels == l
      ensures edges == RowMajor(adjacencyMatrix)
    {
      this.adjacencyMatrix := adjacencyMatrix;
      labels := l;
      edges := [];
      new;
      InitializeGraph();
    }

    /** The edge loop of `initializeGraph`: one edge per non-zero entry, appended in row-major order. */
    method InitializeGraph()
      requires Matrix(adjacencyMatrix)
      modifies this`edges
      ensures edges == old(edges) + RowMajor(adjacencyMatrix)
    {
      var n := |adjacencyMatrix|;
      for i := 0 to n
        invariant edges == old(edges) + EdgesUpTo(adjacencyMatrix, i)
      {
        for j := 0 to n
          invariant edges == old(edges) + EdgesUpTo(adjacencyMatrix, i) + RowEdges(adjacencyMatrix, i, j)
        {
          if adjacencyMatrix[i][j] != 0 {
            edges := edges + [Edge(i, j, adjacencyMatrix[i][j])];
          }
        }
      }
    }

    /** `getNodeIndexByLabel`: the first index holding the label, or -1. */
    method GetNodeIndexByLabel(labelName: string) returns (i: int)
      ensures i == -1 ==> labelName !in labels
      ensures i != -1 ==> 0 <= i < |labels| && labels[i] == labelName && labelName !in labels[..i]
    {
      var k := 0;
      while k < |labels|
        invariant 0 <= k <= |labels| && labelName !in labels[..k]
      {
        if labels[k] == labelName {
          return k;
        }
        assert labels[..k + 1] == labels[..k] + [labels[k]];
        k := k + 1;
      }
      assert labels[..k] == labels;
      return -1;
    }

    /** `dijkstra`: distances start at "not reached" but for the start's 0, the queue holds the
        start; a polled node already visited is skipped, otherwise it is visited and every arc
        from it into a node not visited yet is relaxed on a strictly shorter distance; at the end
        the path is rebuilt from the predecessor links, or reported empty with total -1. */
    method Dijkstra(start: int, end: int) returns (res: DijkstraResult)
      requires Matrix(adjacencyMatrix) && |labels| >= |adjacencyMatrix|
      requires 0 <= start < |adjacencyMatrix| && 0 <= end < |adjacencyMatrix|
      ensures Answers(adjacencyMatrix, labels, start, end, res)
    {
      var n := |adjacencyMatrix|;
      var distance := new Dist[n](_ => Inf);
      var previous := new int[n](_ => -1);
      var visited := new bool[n](_ => false);
      distance[start] := Fin(0);
      var pq := [Entry(start, 0)];
      ghost var rank: map<int, nat> := map[];
      StartSearch(adjacencyMatrix, start, Search(distance[..], previous[..], visited[..], pq));
      while pq != []
        invariant Searching(adjacencyMatrix, start, Search(distance[..], previous[..], visited[..], pq), rank)
        decreases Unvisited(visited[..]), |pq|
      {
        pq, rank := Round(distance, previous, visited, pq, start, rank);
      }
      ghost var s := Search(distance[..], previous[..], visited[..], pq);
      ReachedVisited(adjacencyMatrix, start, s, rank, end);
      if distance[end] == Inf {
        return DijkstraResult([], -1, []);
      }
      var path, pathLabels := Reconstruct(previous, end, start, s, rank);
      res := DijkstraResult(path, distance[end].n, pathLabels);
    }

    /** One round of `dijkstra`'s main loop: polls the least entry; a node already visited is
        skipped (the queue shrinks), otherwise it is visited (one node fewer is left) and its row
        is relaxed. */
    method Round(distance: array<Dist>, previous: array<int>, visited: array<bool>, pq0: seq<Entry>,
                 ghost start: int, ghost rank0: map<int, nat>)
      returns (pq: seq<Entry>, ghost rank: map<int, nat>)
      requires pq0 != [] && Searching(adjacencyMatrix, start, Search(distance[..], previous[..], visited[..], pq0), rank0)
      modifies distance, previous, visited
      ensures Searching(adjacencyMatrix, start, Search(distance[..], previous[..], visited[..], pq), rank)
      ensures Unvisited(visited[..]) < old(Unvisited(visited[..]))
        || (Unvisited(visited[..]) == old(Unvisited(visited[..])) && |pq| < |pq0|)
    {
      ghost var s := Search(distance[..], previous[..], visited[..], pq0);
      var m := LeastEntry(pq0);
      var u := pq0[m].node;
      pq := Without(pq0, m);
      rank := rank0;
      if visited[u] {
        SkipVisited(adjacencyMatrix, start, s, rank, m);
      } else {
        visited[u] := true;
        VisitPolled(adjacencyMatrix, start, s, rank, m);
        rank := rank[u := |rank|];
        assert visited[..] == s.visited[u := true];
        assert u in Unvisited(s.visited) && Unvisited(visited[..]) == Unvisited(s.visited) - {u};
        pq := RelaxNeighbors(distance, previous, visited, u, pq, start, rank);
      }
    }

    /** The relaxation loop over `u`'s row: for each node `v` joined to `u` by an arc and not
        visited yet, a strictly shorter distance through `u` is recorded, with `u` as `v`'s
        predecessor and a new queue entry. */
    method RelaxNeighbors(distance: array<Dist>, previous: array<int>, visited: array<bool>, u: int,
                          pq0: seq<Entry>, ghost start: int, ghost rank: map<int, nat>)
      returns (pq: seq<Entry>)
      requires Relaxing(adjacencyMatrix, start, Search(distance[..], previous[..], visited[..], pq0), rank, u, 0)
      modifies distance, previous
      ensures Searching(adjacencyMatrix, start, Search(distance[..], previous[..], visited[..], pq), rank)
    {
      pq := pq0;
      for v := 0 to |adjacencyMatrix|
        invariant Relaxing(adjacencyMatrix, start, Search(distance[..], previous[..], visited[..], pq), rank, u, v)
      {
        ghost var s := Search(distance[..], previous[..], visited[..], pq);
        if adjacencyMatrix[u][v] != 0 && !visited[v] {
          var newDist := distance[u].n + adjacencyMatrix[u][v];
          if Shorter(newDist, distance[v]) {
            distance[v] := Fin(newDist);
            previous[v] := u;
            pq := pq + [Entry(v, newDist)];
            Improve(adjacencyMatrix, start, s, rank, u, v, newDist);
            assert distance[..] == s.dist[v := Fin(newDist)] && previous[..] == s.prev[v := u];
          } else {
            Keep(adjacencyMatrix, start, s, rank, u, v);
          }
        } else {
          Keep(adjacencyMatrix, start, s, rank, u, v);
        }
      }
      RowDone(adjacencyMatrix, start, Search(distance[..], previous[..], visited[..], pq), rank, u);
    }

    /** The path-building loop of `dijkstra`: from `end`, each node and its label are put in
        front and the predecessor link is followed, until there is none. The result is a walk
        from the start to `end` without repeated nodes, and its cost is `end`'s distance. */
    method Reconstruct(previous: array<int>, end: int, ghost start: int, ghost s: Search, ghost rank: map<int, nat>)
      returns (path: seq<int>, pathLabels: seq<string>)
      requires Searching(adjacencyMatrix, start, s, rank) && s.pq == [] && previous[..] == s.prev
      requires |labels| >= |adjacencyMatrix| && 0 <= end < |adjacencyMatrix| && s.dist[end].Fin?
      ensures Walk(adjacencyMatrix, path, start, end) && Distinct(path)
      ensures Cost(adjacencyMatrix, path) == s.dist[end].n
      ensures Labelled(labels, path, pathLabels)
    {
      assert s.visited[end];
      var current := end;
      path := [];
      pathLabels := [];
      while current != -1
        invariant Tracing(adjacencyMatrix, start, s, rank, end, current, path)
        invariant Labelled(labels, path, pathLabels)
        decreases if current == -1 then 0 else rank[current] + 1
      {
        TraceStep(adjacencyMatrix, start, s, rank, end, current, path);
        path := [current] + path;
        pathLabels := [labels[current]] + pathLabels;
        current := previous[current];
      }
    }

    /** `runDijkstra`'s guards: either label missing, or both naming the same node, stop it;
        otherwise `dijkstra` runs between the two nodes. */
    method RunDijkstra(startLabel: string, endLabel: string) returns (outcome: Outcome)
      requires Matrix(adjacencyMatrix) && |labels| == |adjacencyMatrix|
      ensures outcome.NotFound? <==> startLabel !in labels || endLabel !in labels
      ensures outcome.SameNode? <==> startLabel in labels && endLabel in labels && startLabel == endLabel
      ensures outcome.Ran? ==>
        && 0 <= outcome.startIndex < |labels| && labels[outcome.startIndex] == startLabel && startLabel !in labels[..outcome.startIndex]
        && 0 <= outcome.endIndex < |labels| && labels[outcome.endIndex] == endLabel && endLabel !in labels[..outcome.endIndex]
        && Answers(adjacencyMatrix, labels, outcome.startIndex, outcome.endIndex, outcome.result)
    {
      var startIndex := GetNodeIndexByLabel(startLabel);
      var endIndex := GetNodeIndexByLabel(endLabel);
      if startIndex == -1 || endIndex == -1 {
        return NotFound;
      }
      if startIndex == endIndex {
        return SameNode;
      }
      FirstIndices(labels, startIndex, endIndex);
      var result := Dijkstra(startIndex, endIndex);
      return Ran(startIndex, endIndex, result);
    }
  }

  /** Two first occurrences in the same sequence are at the same index exactly when they are
      occurrences of the same value. */
  lemma FirstIndices<T>(s: seq<T>, i: int, j: int)
    requires 0 <= i < |s| && s[i] !in s[..i] && 0 <= j < |s| && s[j] !in s[..j]
    ensures i == j <==> s[i] == s[j]
  {
    if i < j {
      assert s[..j][i] == s[i];
    } else if j < i {
      assert s[..i][j] == s[j];
    }
  }
}
