/** Maze/PathAlgorithms.java: BFS, DFS, Dijkstra and A* over a grid of `Cell` objects. Each
    search takes, as a ghost argument, a `Board` picturing the grid it searches. */
module PathAlgorithms {
  import opened Common
  import opened Cells
  import opened Grids

  /** What every search returns: the cells in the order they were polled, and the path found
      (empty when the end was not reached). */
  datatype Result = Result(visitedOrder: seq<Cell>, path: seq<Cell>)

  // ---------------------------------------------------------------------------
  // getNeighbors
  // ---------------------------------------------------------------------------

  method GetNeighbors(grid: array2<Cell>, x: Cell, ghost b: Board) returns (list: seq<Cell>)
    requires Pictures(grid, b)
    ensures list == Neighbors(b, x) && Pictures(grid, b)
  {
    list := [];
    for i := 0 to 4
      invariant list == NeighborsUpTo(b, x, i)
    {
      var nr, nc := x.r + DR[i], x.c + DC[i];
      ProbePictured(grid, b, x, i);
      assert NeighborsUpTo(b, x, i + 1) == list + Probe(b, x, i);
      if 0 <= nr < grid.Length0 && 0 <= nc < grid.Length1 {
        if grid[nr, nc].terrain != WALL {
          list := list + [grid[nr, nc]];
        }
      }
    }
  }

  /** What the `k`-th direction contributes, read off the grid a board pictures. */
  lemma ProbePictured(grid: array2<Cell>, b: Board, x: Cell, k: nat)
    requires Pictures(grid, b) && k < 4
    ensures var nr, nc := x.r + DR[k], x.c + DC[k];
      Probe(b, x, k) == if 0 <= nr < grid.Length0 && 0 <= nc < grid.Length1 && grid[nr, nc].terrain != WALL
                        then [grid[nr, nc]] else []
  {
  }

  // ---------------------------------------------------------------------------
  // reconstructPath and calculatePathCost
  // ---------------------------------------------------------------------------

  /** The parent pointers of the cells in `rank` form a tree of steps rooted at `start`: each
      parent is one open step back and has a smaller rank, so following parents stops, and the
      only cell without a parent is the start. */
  ghost predicate ParentTree(b: Board, start: Cell, rank: map<Cell, nat>)
    reads rank.Keys`parent
  {
    forall x :: x in rank ==>
      && OnBoard(b, x)
      && (x.parent == null ==> x == start)
      && (x.parent != null ==> x.parent in rank && rank[x.parent] < rank[x] && Step(b, x.parent, x))
  }

  /** `path` is the chain of parents ending at `end`: it starts at a cell without a parent and
      each cell is the parent of the next. */
  ghost predicate IsParentChain(path: seq<Cell>, end: Cell)
    reads Elems(path)`parent
  {
    && |path| > 0 && path[|path| - 1] == end && path[0].parent == null
    && forall i :: 0 < i < |path| ==> path[i].parent == path[i - 1]
  }

  /** Each cell of `path` after the first has the one before it as parent and is one step from it. */
  ghost predicate Linked(b: Board, path: seq<Cell>)
    reads Elems(path)`parent
  {
    forall i :: 0 < i < |path| ==> path[i].parent == path[i - 1] && Step(b, path[i - 1], path[i])
  }

  lemma LinkedPrepend(b: Board, c: Cell, path: seq<Cell>)
    requires Linked(b, path) && (path != [] ==> path[0].parent == c && Step(b, c, path[0]))
    ensures Linked(b, [c] + path)
  {
    var p := [c] + path;
    forall i | 0 < i < |p|
      ensures p[i].parent == p[i - 1] && Step(b, p[i - 1], p[i])
    {
      assert p[i] == path[i - 1];
      if i > 1 {
        assert p[i - 1] == path[i - 2];
      }
    }
  }

  /** Follows the parent pointers back from `end` and returns the cells from the root to `end`.
      The ghost `rank` bounds the number of steps; over a tree of steps rooted at `start` the
      chain is a walk from `start`. */
  method ReconstructPath(end: Cell, ghost b: Board, ghost start: Cell, ghost rank: map<Cell, nat>)
    returns (path: seq<Cell>)
    requires end in rank && ParentTree(b, start, rank)
    ensures IsParentChain(path, end)
    ensures IsWalk(b, path, start, end)
    ensures forall x :: x in path ==> x in rank
    ensures |path| <= rank[end] + 1
  {
    path := [];
    var curr: Cell? := end;
    while curr != null
      invariant curr != null ==> curr in rank
      invariant forall x :: x in path ==> x in rank
      invariant path == [] ==> curr == end
      invariant path != [] ==> path[|path| - 1] == end && path[0].parent == curr
      invariant Linked(b, path)
      invariant path != [] && curr != null ==> Step(b, curr, path[0])
      invariant curr != null ==> |path| + rank[curr] <= rank[end]
      invariant curr == null ==> |path| <= rank[end] + 1
      decreases if curr == null then -1 else rank[curr]
    {
      LinkedPrepend(b, curr, path);
      path := [curr] + path;
      curr := curr.parent;
    }
    assert path[0] in rank;
  }

  /** Sums the weights of the cells of `path`. */
  method CalculatePathCost(path: seq<Cell>, ghost grid: array2<Cell>, ghost b: Board) returns (total: nat)
    requires Pictures(grid, b) && AllOnBoard(b, path)
    ensures total == PathCost(b, path)
  {
    total := 0;
    for i := 0 to |path|
      invariant total == PathCost(b, path[..i])
    {
      assert path[..i + 1][..i] == path[..i];
      PicturedCell(grid, b, path[i]);
      total := total + path[i].GetWeight();
    }
    assert path[..|path|] == path;
  }

  // ---------------------------------------------------------------------------
  // Walks and closed sets
  // ---------------------------------------------------------------------------

  /** Every neighbour of a cell of `inner` is in `outer`. */
  ghost predicate NeighborsWithin(G: map<Cell, seq<Cell>>, inner: seq<Cell>, outer: set<Cell>)
  {
    forall x :: x in inner && x in G ==> forall y :: y in G[x] ==> y in outer
  }

  /** A set closed under steps that holds the start holds every cell a walk from it reaches. */
  lemma {:induction false} ClosedSetHoldsWalk(b: Board, G: map<Cell, seq<Cell>>, closed: seq<Cell>, w: seq<Cell>,
                                              from: Cell, to: Cell)
    requires Consistent(b) && AdjacencyOf(b, G) && IsWalk(b, w, from, to)
    requires from in closed && NeighborsWithin(G, closed, Elems(closed))
    ensures to in closed
    decreases |w|
  {
    if |w| > 1 {
      var w' := w[..|w| - 1];
      assert IsWalk(b, w', from, w'[|w'| - 1]);
      ClosedSetHoldsWalk(b, G, closed, w', from, w'[|w'| - 1]);
      AdjacencyHas(b, G, w[|w| - 2]);
      AdjacencyStep(b, G, w[|w| - 2]);
      assert Step(b, w[|w| - 2], w[|w| - 1]);
    }
  }

  // ---------------------------------------------------------------------------
  // The search tree that BFS and DFS grow
  // ---------------------------------------------------------------------------

  /** What BFS and DFS keep true of their frontier `pending` (the queue or the stack), the cells
      already polled, in order, and the ghost map `par` that mirrors the `parent` fields they set:
      every discovered cell is a cell of the adjacency map `G` and is either polled or pending,
      never both; every discovered cell other than the start is a neighbour of its parent, a
      polled cell. */
  ghost predicate SearchTree(G: map<Cell, seq<Cell>>, start: Cell, visited: set<Cell>, order: seq<Cell>,
                             pending: seq<Cell>, par: map<Cell, Cell>)
  {
    && visited <= G.Keys
    && (forall x :: x in visited ==> x in order || x in pending)
    && (forall x :: x in order ==> x in visited)
    && (forall x :: x in pending ==> x in visited)
    && Distinct(order) && Distinct(pending)
    && (forall x :: x in order ==> x !in pending)
    && start in visited
    && par.Keys == visited - {start}
    && (forall x :: x in par ==> par[x] in order && x in G[par[x]])
  }

  /** The `parent` fields agree with `par`, and the start has none. */
  ghost predicate ParentsMirror(start: Cell, par: map<Cell, Cell>)
    reads par.Keys`parent, start`parent
  {
    start.parent == null && forall x :: x in par ==> x.parent == par[x]
  }

  /** Makes `p` the parent of `x`, a cell of the grid other than the start; nothing else changes. */
  method SetParent(grid: array2<Cell>, ghost b: Board, ghost G: map<Cell, seq<Cell>>, x: Cell, p: Cell, ghost start: Cell, ghost par: map<Cell, Cell>)
    requires x in G && x != start && ParentsMirror(start, par) && Pictures(grid, b)
    modifies x`parent
    ensures x.parent == p && ParentsMirror(start, par[x := p]) && Pictures(grid, b)
  {
    x.parent := p;
  }

  lemma SearchTreeStart(G: map<Cell, seq<Cell>>, start: Cell)
    requires start in G
    ensures SearchTree(G, start, {start}, [], [start], map[])
  {
  }

  /** Polling `cur` out of the frontier `before + [cur] + after` keeps the tree. */
  lemma SearchTreePoll(G: map<Cell, seq<Cell>>, start: Cell, visited: set<Cell>, order: seq<Cell>,
                       before: seq<Cell>, after: seq<Cell>, par: map<Cell, Cell>, cur: Cell)
    requires SearchTree(G, start, visited, order, before + [cur] + after, par)
    ensures SearchTree(G, start, visited, order + [cur], before + after, par)
  {
    var pending, pending' := before + [cur] + after, before + after;
    forall i, j | 0 <= i < j < |pending'|
      ensures pending'[i] != pending'[j]
    {
      var i', j' := if i < |before| then i else i + 1, if j < |before| then j else j + 1;
      assert pending'[i] == pending[i'] && pending'[j] == pending[j'];
    }
    forall x | x in visited
      ensures x in order + [cur] || x in pending'
    {
      if x != cur && x !in order {
        var i :| 0 <= i < |pending| && pending[i] == x;
        assert x == pending'[if i < |before| then i else i - 1];
      }
    }
    forall x | x in pending'
      ensures x in visited && x !in order + [cur]
    {
      var i :| 0 <= i < |pending'| && pending'[i] == x;
      var i' := if i < |before| then i else i + 1;
      assert x == pending[i'];
      assert pending[|before|] == cur;
    }
    forall i, j | 0 <= i < j < |order + [cur]|
      ensures (order + [cur])[i] != (order + [cur])[j]
    {
      if j == |order| {
        assert order[i] in order;
      }
    }
  }

  /** Discovering `n` from the polled cell `cur` and appending it to the frontier keeps the tree. */
  lemma SearchTreeDiscover(G: map<Cell, seq<Cell>>, start: Cell, visited: set<Cell>, order: seq<Cell>,
                           pending: seq<Cell>, par: map<Cell, Cell>, cur: Cell, n: Cell)
    requires SearchTree(G, start, visited, order, pending, par)
    requires cur in order && n in G[cur] && n in G && n !in visited
    ensures SearchTree(G, start, visited + {n}, order, pending + [n], par[n := cur])
  {
    forall i, j | 0 <= i < j < |pending + [n]|
      ensures (pending + [n])[i] != (pending + [n])[j]
    {
      if j == |pending| {
        assert pending[i] in pending;
      }
    }
  }

  /** The mirrored parents of a search tree over the board's adjacency, ranked by a map that
      grows along them, form a `ParentTree`. */
  lemma SearchTreeParents(b: Board, G: map<Cell, seq<Cell>>, start: Cell, visited: set<Cell>, order: seq<Cell>,
                          pending: seq<Cell>, par: map<Cell, Cell>, rank: map<Cell, nat>)
    requires Consistent(b) && AdjacencyOf(b, G)
    requires SearchTree(G, start, visited, order, pending, par) && ParentsMirror(start, par)
    requires rank.Keys == visited
    requires forall x :: x in par ==> rank[par[x]] < rank[x]
    ensures ParentTree(b, start, rank)
  {
    forall x | x in rank && x.parent != null
      ensures Step(b, x.parent, x)
    {
      assert x in par;
      AdjacencyStep(b, G, par[x]);
    }
  }

  /** The polled cells of a search over the board's adjacency map are on the board. */
  lemma PolledOnBoard(b: Board, G: map<Cell, seq<Cell>>, visited: set<Cell>, order: seq<Cell>)
    requires AdjacencyOf(b, G) && visited <= G.Keys && (forall x :: x in order ==> x in visited)
    ensures AllOnBoard(b, order)
  {
    forall i | 0 <= i < |order|
      ensures OnBoard(b, order[i])
    {
      assert order[i] in order;
    }
  }

  /** A search whose frontier ran dry has polled every cell a walk from the start reaches. */
  lemma ExhaustedSearch(b: Board, G: map<Cell, seq<Cell>>, start: Cell, end: Cell, visited: set<Cell>,
                        order: seq<Cell>, par: map<Cell, Cell>)
    requires Consistent(b) && AdjacencyOf(b, G)
    requires SearchTree(G, start, visited, order, [], par)
    requires NeighborsWithin(G, order, visited)
    requires end !in order
    ensures forall w :: !IsWalk(b, w, start, end)
  {
    assert Elems(order) == visited;
    forall w | IsWalk(b, w, start, end)
      ensures false
    {
      ClosedSetHoldsWalk(b, G, order, w, start, end);
    }
  }

  // ---------------------------------------------------------------------------
  // The state BFS and DFS share
  // ---------------------------------------------------------------------------

  /** The state of a BFS or DFS: the discovered cells, the cells polled so far in order, the
      frontier (the queue or the stack), and two ghost maps: the parent given to every discovered
      cell but the start, and its depth in the tree those parents form. */
  datatype Search = Search(visited: set<Cell>, order: seq<Cell>, pending: seq<Cell>,
                           par: map<Cell, Cell>, depth: map<Cell, nat>)

  /** Before the first poll: only the start is discovered, and it is the whole frontier. */
  ghost function Begin(start: Cell): Search
  {
    Search({start}, [], [start], map[], map[start := 0])
  }

  /** Discovering `n` from `cur`: it is marked, gets `cur` as its parent and depth `d`, and joins
      the back of the frontier. */
  ghost function Add(s: Search, cur: Cell, d: nat, n: Cell): Search
  {
    Search(s.visited + {n}, s.order, s.pending + [n], s.par[n := cur], s.depth[n := d])
  }

  /** Handles the neighbours `ns` of the polled cell `cur` in order, discovering those not yet
      discovered. */
  ghost function Discover(cur: Cell, d: nat, ns: seq<Cell>, s: Search): Search
    decreases |ns|
  {
    if ns == [] then s
    else
      var s' := Discover(cur, d, ns[..|ns| - 1], s);
      if ns[|ns| - 1] in s'.visited then s' else Add(s', cur, d, ns[|ns| - 1])
  }

  ghost function NeighborList(G: map<Cell, seq<Cell>>, x: Cell): seq<Cell>
  {
    if x in G then G[x] else []
  }

  ghost function DepthOf(s: Search, x: Cell): nat
  {
    if x in s.depth then s.depth[x] else 0
  }

  /** What BFS and DFS both keep true until they poll the end: a search tree rooted at the start,
      polled first, in which every parent is one level above its child. */
  ghost predicate TreeInv(G: map<Cell, seq<Cell>>, start: Cell, end: Cell, s: Search)
  {
    && SearchTree(G, start, s.visited, s.order, s.pending, s.par)
    && (s.order == [] ==> s.pending == [start])
    && (s.order != [] ==> s.order[0] == start)
    && end !in s.order
    && s.depth.Keys == s.visited && s.depth[start] == 0
    && (forall x :: x in s.par ==> s.depth[x] == s.depth[s.par[x]] + 1)
  }

  lemma TreeBegin(G: map<Cell, seq<Cell>>, start: Cell, end: Cell)
    requires start in G
    ensures TreeInv(G, start, end, Begin(start))
  {
    SearchTreeStart(G, start);
  }

  /** Polling `cur`, not the end, out of the frontier `before + [cur] + after` keeps the tree. */
  lemma TreePoll(G: map<Cell, seq<Cell>>, start: Cell, end: Cell, s: Search,
                 before: seq<Cell>, cur: Cell, after: seq<Cell>, rest: seq<Cell>)
    requires TreeInv(G, start, end, s) && s.pending == before + [cur] + after && rest == before + after
    requires cur != end
    ensures TreeInv(G, start, end, Search(s.visited, s.order + [cur], rest, s.par, s.depth))
  {
    SearchTreePoll(G, start, s.visited, s.order, before, after, s.par, cur);
    if s.order == [] {
      assert |before| == 0 && s.pending[0] == cur;
    }
  }

  /** Discovering a new neighbour of a polled cell keeps the tree. */
  lemma TreeAdd(G: map<Cell, seq<Cell>>, start: Cell, end: Cell, s: Search, cur: Cell, d: nat, n: Cell)
    requires TreeInv(G, start, end, s) && cur in s.order && cur in G && n in G[cur]
    requires n in G && n !in s.visited && d == s.depth[cur] + 1
    ensures TreeInv(G, start, end, Add(s, cur, d, n))
  {
    SearchTreeDiscover(G, start, s.visited, s.order, s.pending, s.par, cur, n);
  }

  /** Discovering the first `k` neighbours of a polled cell keeps the tree. */
  lemma {:induction false} TreeDiscover(G: map<Cell, seq<Cell>>, start: Cell, end: Cell, s0: Search,
                                        cur: Cell, d: nat, ns: seq<Cell>)
    requires Closed(G) && TreeInv(G, start, end, s0) && cur in s0.order && cur in G
    requires |ns| <= |G[cur]| && ns == G[cur][..|ns|] && d == s0.depth[cur] + 1
    ensures var t := Discover(cur, d, ns, s0);
      TreeInv(G, start, end, t) && t.order == s0.order && cur in t.depth && t.depth[cur] == s0.depth[cur]
  {
    if ns != [] {
      var k := |ns|;
      assert ns[..k - 1] == G[cur][..k - 1];
      TreeDiscover(G, start, end, s0, cur, d, ns[..k - 1]);
      var s := Discover(cur, d, ns[..k - 1], s0);
      if ns[k - 1] !in s.visited {
        TreeAdd(G, start, end, s, cur, d, ns[k - 1]);
      }
    }
  }
  /** `TreeDiscover` for the whole neighbour list. */
  lemma TreeDiscovered(G: map<Cell, seq<Cell>>, start: Cell, end: Cell, s0: Search, cur: Cell, d: nat, t: Search)
    requires Closed(G) && TreeInv(G, start, end, s0) && cur in s0.order && cur in G && d == s0.depth[cur] + 1
    requires t == Discover(cur, d, G[cur], s0)
    ensures TreeInv(G, start, end, t)
  {
    assert G[cur][..|G[cur]|] == G[cur];
    TreeDiscover(G, start, end, s0, cur, d, G[cur]);
  }



  /** A parent map over the board, ranked so that rank falls along every parent, rooted at the
      start. */
  ghost predicate RankedTree(b: Board, start: Cell, par: map<Cell, Cell>, rank: map<Cell, nat>)
  {
    && start in rank && start !in par
    && (forall x :: x in rank ==> OnBoard(b, x) && (x != start ==> x in par))
    && (forall x :: x in par ==> x in rank && par[x] in rank && rank[par[x]] < rank[x] && Step(b, par[x], x))
  }

  lemma TreeRanked(b: Board, G: map<Cell, seq<Cell>>, start: Cell, end: Cell, s: Search)
    requires Consistent(b) && AdjacencyOf(b, G) && TreeInv(G, start, end, s)
    ensures RankedTree(b, start, s.par, s.depth)
  {
    forall x | x in s.par
      ensures Step(b, s.par[x], x)
    {
      AdjacencyStep(b, G, s.par[x]);
    }
  }

  /** Parent fields that mirror a ranked tree form a `ParentTree`. */
  lemma MirroredTree(b: Board, start: Cell, par: map<Cell, Cell>, rank: map<Cell, nat>)
    requires RankedTree(b, start, par, rank) && ParentsMirror(start, par)
    ensures ParentTree(b, start, rank)
  {
  }

  /** The inner loop of BFS and DFS: every neighbour not yet discovered is marked, gets `current`
      as its parent and joins the back of the frontier. */
  method DiscoverAll(grid: array2<Cell>, ghost b: Board, ghost G: map<Cell, seq<Cell>>, ghost start: Cell,
                     current: Cell, neighbors: seq<Cell>, visited0: set<Cell>, ghost order: seq<Cell>,
                     pending0: seq<Cell>, ghost par0: map<Cell, Cell>, ghost depth0: map<Cell, nat>, ghost d: nat,
                     ghost s0: Search)
    returns (visited: set<Cell>, pending: seq<Cell>, ghost par: map<Cell, Cell>, ghost depth: map<Cell, nat>)
    requires Pictures(grid, b) && Closed(G)
    requires current in G && neighbors == G[current] && start in visited0
    requires s0 == Search(visited0, order, pending0, par0, depth0)
    requires ParentsMirror(start, par0)
    modifies G.Keys`parent
    ensures Search(visited, order, pending, par, depth) == Discover(current, d, neighbors, s0)
    ensures ParentsMirror(start, par) && Pictures(grid, b)
  {
    visited, pending, par, depth := visited0, pending0, par0, depth0;
    for k := 0 to |neighbors|
      invariant Search(visited, order, pending, par, depth)
             == Discover(current, d, neighbors[..k], s0)
      invariant start in visited
      invariant ParentsMirror(start, par) && Pictures(grid, b)
    {
      assert neighbors[..k + 1][..k] == neighbors[..k];
      var neighbor := neighbors[k];
      if neighbor !in visited {
        SetParent(grid, b, G, neighbor, current, start, par);
        visited := visited + {neighbor};
        pending := pending + [neighbor];
        par := par[neighbor := current];
        depth := depth[neighbor := d];
      }
    }
    assert neighbors[..|neighbors|] == neighbors;
  }

  // ---------------------------------------------------------------------------
  // (A) BFS
  // ---------------------------------------------------------------------------

  /** The queue without its head, which joins the polled cells. */
  ghost function PollFront(s: Search): Search
    requires s.pending != []
  {
    Search(s.visited, s.order + [s.pending[0]], s.pending[1..], s.par, s.depth)
  }

  /** One round of BFS: poll the head of the queue and, unless it is the end, discover its
      neighbours. A drained queue, or the end at its head, stays as it is. */
  ghost function BfsStep(G: map<Cell, seq<Cell>>, end: Cell, s: Search): Search
  {
    if s.pending == [] || s.pending[0] == end then s
    else
      var cur := s.pending[0];
      Discover(cur, DepthOf(s, cur) + 1, NeighborList(G, cur), PollFront(s))
  }

  /** The BFS state after `n` rounds. */
  ghost function BfsRun(G: map<Cell, seq<Cell>>, start: Cell, end: Cell, n: nat): Search
  {
    if n == 0 then Begin(start) else BfsStep(G, end, BfsRun(G, start, end, n - 1))
  }

  /** The layering BFS keeps: the queue is sorted by depth and spans at most two depths, no polled
      cell is deeper than a queued one, and the neighbours of polled cells are discovered and at
      most one deeper. */
  ghost predicate Layers(G: map<Cell, seq<Cell>>, s: Search)
  {
    && s.depth.Keys == s.visited
    && (forall x :: x in s.depth ==> x in s.order || x in s.pending)
    && (forall x :: x in s.order ==> x in s.depth)
    && (forall q :: q in s.pending ==> q in s.depth)
    && (forall i, j :: 0 <= i < j < |s.pending| ==> s.depth[s.pending[i]] <= s.depth[s.pending[j]])
    && (s.pending != [] ==> s.depth[s.pending[|s.pending| - 1]] <= s.depth[s.pending[0]] + 1)
    && (forall x, q :: x in s.order && q in s.pending ==> s.depth[x] <= s.depth[q])
    && (forall x :: x in s.order && x in G ==> forall y :: y in G[x] ==> y in s.depth && s.depth[y] <= s.depth[x] + 1)
  }

  ghost predicate BfsInv(G: map<Cell, seq<Cell>>, start: Cell, end: Cell, s: Search)
  {
    TreeInv(G, start, end, s) && Layers(G, s)
  }

  /** The layering while the neighbours of the polled cell `cur`, at depth `d`, are discovered:
      the first `k` of them are discovered, at most one deeper than `cur`. */
  ghost predicate ExpandingLayers(G: map<Cell, seq<Cell>>, s: Search, cur: Cell, d: nat, k: nat)
  {
    && s.depth.Keys == s.visited
    && (forall x :: x in s.depth ==> x in s.order || x in s.pending)
    && (forall x :: x in s.order ==> x in s.depth)
    && (forall q :: q in s.pending ==> q in s.depth)
    && s.order != [] && s.order[|s.order| - 1] == cur && cur in G && k <= |G[cur]| && s.depth[cur] == d
    && (forall i, j :: 0 <= i < j < |s.pending| ==> s.depth[s.pending[i]] <= s.depth[s.pending[j]])
    && (forall q :: q in s.pending ==> d <= s.depth[q] <= d + 1)
    && (forall x :: x in s.order ==> s.depth[x] <= d)
    && (forall x :: x in s.order && x != cur && x in G ==>
          forall y :: y in G[x] ==> y in s.depth && s.depth[y] <= s.depth[x] + 1)
    && (forall i :: 0 <= i < k ==> G[cur][i] in s.depth && s.depth[G[cur][i]] <= d + 1)
  }

  /** Polling the head of a queue sorted by depth whose last cell is at most one deeper than its
      head: the rest spans the head's depth and the next, and no polled cell is deeper. */
  lemma PolledLayers(order: seq<Cell>, queue: seq<Cell>, depth: map<Cell, nat>)
    requires queue != [] && (forall x :: x in order ==> x in depth) && (forall q :: q in queue ==> q in depth)
    requires forall i, j :: 0 <= i < j < |queue| ==> depth[queue[i]] <= depth[queue[j]]
    requires depth[queue[|queue| - 1]] <= depth[queue[0]] + 1
    requires forall x, q :: x in order && q in queue ==> depth[x] <= depth[q]
    ensures forall i, j :: 0 <= i < j < |queue[1..]| ==> depth[queue[1..][i]] <= depth[queue[1..][j]]
    ensures forall q :: q in queue ==> depth[queue[0]] <= depth[q] <= depth[queue[0]] + 1
    ensures forall x :: x in order + [queue[0]] ==> depth[x] <= depth[queue[0]]
  {
    forall i, j | 0 <= i < j < |queue[1..]|
      ensures depth[queue[1..][i]] <= depth[queue[1..][j]]
    {
      assert queue[1..][i] == queue[i + 1] && queue[1..][j] == queue[j + 1];
    }
    forall q | q in queue
      ensures depth[queue[0]] <= depth[q] <= depth[queue[0]] + 1
    {
      var i :| 0 <= i < |queue| && queue[i] == q;
      if 0 < i < |queue| - 1 {
        assert depth[queue[i]] <= depth[queue[|queue| - 1]];
      }
    }
    forall x | x in order + [queue[0]]
      ensures depth[x] <= depth[queue[0]]
    {
      if x != queue[0] {
        assert x in order;
      }
    }
  }

  /** The queue without its head holds exactly the queued cells other than the head. */
  lemma QueueTail(queue: seq<Cell>)
    requires queue != []
    ensures forall q :: q in queue[1..] ==> q in queue
    ensures forall q :: q in queue ==> q == queue[0] || q in queue[1..]
  {
    forall q | q in queue
      ensures q == queue[0] || q in queue[1..]
    {
      var i :| 0 <= i < |queue| && queue[i] == q;
      if i > 0 {
        assert q == queue[1..][i - 1];
      }
    }
  }

  lemma LayersPoll(G: map<Cell, seq<Cell>>, s: Search)
    requires Layers(G, s) && s.pending != [] && s.pending[0] in G
    ensures ExpandingLayers(G, PollFront(s), s.pending[0], s.depth[s.pending[0]], 0)
  {
    PolledLayers(s.order, s.pending, s.depth);
    QueueTail(s.pending);
  }

  lemma LayersAdd(G: map<Cell, seq<Cell>>, s: Search, cur: Cell, d: nat, k: nat)
    requires ExpandingLayers(G, s, cur, d, k) && k < |G[cur]| && G[cur][k] !in s.depth
    ensures ExpandingLayers(G, Add(s, cur, d + 1, G[cur][k]), cur, d, k + 1)
  {
    var n := G[cur][k];
    var s' := Add(s, cur, d + 1, n);
    forall i, j | 0 <= i < j < |s'.pending|
      ensures s'.depth[s'.pending[i]] <= s'.depth[s'.pending[j]]
    {
      if j == |s.pending| {
        assert s'.pending[i] in s.pending;
      }
    }
  }

  lemma LayersSkip(G: map<Cell, seq<Cell>>, s: Search, cur: Cell, d: nat, k: nat)
    requires ExpandingLayers(G, s, cur, d, k) && k < |G[cur]| && G[cur][k] in s.depth
    ensures ExpandingLayers(G, s, cur, d, k + 1)
  {
  }

  lemma LayersExpanded(G: map<Cell, seq<Cell>>, s: Search, cur: Cell, d: nat)
    requires cur in G && ExpandingLayers(G, s, cur, d, |G[cur]|)
    ensures Layers(G, s)
  {
    forall y | y in G[cur]
      ensures y in s.depth && s.depth[y] <= d + 1
    {
      var i :| 0 <= i < |G[cur]| && G[cur][i] == y;
    }
    if s.pending != [] {
      assert s.pending[|s.pending| - 1] in s.pending && s.pending[0] in s.pending;
    }
  }

  /** Discovering the first `k` neighbours of the polled cell keeps the layering. */
  lemma {:induction false} LayersDiscover(G: map<Cell, seq<Cell>>, s0: Search, cur: Cell, d: nat, ns: seq<Cell>)
    requires ExpandingLayers(G, s0, cur, d, 0) && |ns| <= |G[cur]| && ns == G[cur][..|ns|]
    ensures ExpandingLayers(G, Discover(cur, d + 1, ns, s0), cur, d, |ns|)
  {
    if ns != [] {
      var k := |ns|;
      assert ns[..k - 1] == G[cur][..k - 1];
      LayersDiscover(G, s0, cur, d, ns[..k - 1]);
      var s := Discover(cur, d + 1, ns[..k - 1], s0);
      if ns[k - 1] !in s.visited {
        LayersAdd(G, s, cur, d, k - 1);
      } else {
        LayersSkip(G, s, cur, d, k - 1);
      }
    }
  }
  /** `LayersDiscover` for the whole neighbour list: the layers are restored. */
  lemma LayersDiscovered(G: map<Cell, seq<Cell>>, s0: Search, cur: Cell, d: nat, t: Search)
    requires ExpandingLayers(G, s0, cur, d, 0) && t == Discover(cur, d + 1, G[cur], s0)
    ensures Layers(G, t)
  {
    assert G[cur][..|G[cur]|] == G[cur];
    LayersDiscover(G, s0, cur, d, G[cur]);
    LayersExpanded(G, t, cur, d);
  }



  /** Polling the head of the queue, not the end, keeps the tree and starts its expansion. */
  lemma BfsPolled(G: map<Cell, seq<Cell>>, start: Cell, end: Cell, s: Search)
    requires BfsInv(G, start, end, s) && s.pending != [] && s.pending[0] != end
    ensures var cur := s.pending[0];
      && cur in G && cur in s.depth
      && TreeInv(G, start, end, PollFront(s)) && ExpandingLayers(G, PollFront(s), cur, s.depth[cur], 0)
  {
    var cur := s.pending[0];
    assert s.pending == [] + [cur] + s.pending[1..];
    assert [] + s.pending[1..] == s.pending[1..];
    TreePoll(G, start, end, s, [], cur, s.pending[1..], s.pending[1..]);
    LayersPoll(G, s);
  }

  /** Discovering all neighbours of the polled cell restores the BFS invariant. */
  lemma BfsExpand(G: map<Cell, seq<Cell>>, start: Cell, end: Cell, s: Search, t: Search)
    requires Closed(G) && s.pending != [] && s.pending[0] != end && s.pending[0] in G && s.pending[0] in s.depth
    requires TreeInv(G, start, end, PollFront(s))
    requires ExpandingLayers(G, PollFront(s), s.pending[0], s.depth[s.pending[0]], 0)
    requires t == BfsStep(G, end, s)
    ensures BfsInv(G, start, end, t)
  {
    var cur, s1 := s.pending[0], PollFront(s);
    var d := s.depth[cur];
    BfsStepUnfold(G, end, s);
    TreeDiscovered(G, start, end, s1, cur, d + 1, t);
    LayersDiscovered(G, s1, cur, d, t);
  }



  lemma BfsStepInv(G: map<Cell, seq<Cell>>, start: Cell, end: Cell, s: Search)
    requires Closed(G) && BfsInv(G, start, end, s)
    ensures BfsInv(G, start, end, BfsStep(G, end, s))
  {
    if s.pending != [] && s.pending[0] != end {
      var cur := s.pending[0];
      BfsPolled(G, start, end, s);
      BfsExpand(G, start, end, s, BfsStep(G, end, s));
    }
  }

  /** A round that polls a cell of `G` other than the end discovers its neighbours one level
      deeper. */
  lemma BfsStepUnfold(G: map<Cell, seq<Cell>>, end: Cell, s: Search)
    requires s.pending != [] && s.pending[0] != end && s.pending[0] in G && s.pending[0] in s.depth
    ensures BfsStep(G, end, s) == Discover(s.pending[0], s.depth[s.pending[0]] + 1, G[s.pending[0]], PollFront(s))
  {
  }

  lemma {:induction false} BfsRunInv(G: map<Cell, seq<Cell>>, start: Cell, end: Cell, n: nat)
    requires Closed(G) && start in G
    ensures BfsInv(G, start, end, BfsRun(G, start, end, n))
  {
    if n == 0 {
      TreeBegin(G, start, end);
    } else {
      BfsRunInv(G, start, end, n - 1);
      BfsStepInv(G, start, end, BfsRun(G, start, end, n - 1));
    }
  }

  /** A round that polls `cur`, not the end: it discovers the neighbours of `cur` one level deeper. */
  lemma BfsRunNext(G: map<Cell, seq<Cell>>, start: Cell, end: Cell, n: nat, s: Search, cur: Cell,
                   ns: seq<Cell>, d: nat)
    requires s == BfsRun(G, start, end, n) && s.pending != [] && s.pending[0] == cur && cur != end
    requires ns == NeighborList(G, cur) && d == DepthOf(s, cur) + 1
    ensures BfsRun(G, start, end, n + 1) == Discover(cur, d, ns, PollFront(s))
  {
  }

  /** What one more round needs: the head of the queue is a cell of the board, discovered and not
      yet polled, and the start stays discovered. */
  lemma BfsProgress(G: map<Cell, seq<Cell>>, start: Cell, end: Cell, n: nat)
    requires Closed(G) && start in G
    ensures var s := BfsRun(G, start, end, n);
      s.pending != [] ==> && s.pending[0] in G && s.pending[0] in s.depth && start in s.visited
                          && G.Keys - Elems(s.order + [s.pending[0]]) < G.Keys - Elems(s.order)
  {
    BfsRunInv(G, start, end, n);
    var s := BfsRun(G, start, end, n);
    if s.pending != [] {
      assert s.pending[0] in s.pending;
      assert Elems(s.order + [s.pending[0]]) == Elems(s.order) + {s.pending[0]};
    }
  }

  /** The breadth-first argument: following a walk from the start, the first cell that has not
      been polled yet is in the queue and is at most as deep as its index in the walk; the queue
      head is no deeper than any queued cell, so it is no deeper than the walk is long. */
  lemma {:induction false} BreadthFirstBound(b: Board, G: map<Cell, seq<Cell>>, w: seq<Cell>, k: nat,
                                             s: Search)
    requires Consistent(b) && AdjacencyOf(b, G) && Layers(G, s)
    requires |w| > 0 && IsWalk(b, w, w[0], w[|w| - 1]) && k < |w|
    requires s.pending != [] && w[|w| - 1] == s.pending[0] && s.pending[0] !in s.order
    requires w[k] in s.depth && s.depth[w[k]] <= k
    ensures s.depth[s.pending[0]] <= |w| - 1
    decreases |w| - k
  {
    if w[k] !in s.pending {
      PolledLayers(s.order, s.pending, s.depth);
      assert Step(b, w[k], w[k + 1]);
      AdjacencyHas(b, G, w[k]);
      AdjacencyStep(b, G, w[k]);
      BreadthFirstBound(b, G, w, k + 1, s);
    } else {
      PolledLayers(s.order, s.pending, s.depth);
    }
  }

  /** BFS stops with the end at the head of the queue: everything the found-branch needs. */
  lemma BfsFinds(b: Board, G: map<Cell, seq<Cell>>, start: Cell, end: Cell, n: nat)
    requires Consistent(b) && AdjacencyOf(b, G) && start in G
    requires var s := BfsRun(G, start, end, n); s.pending != [] && s.pending[0] == end
    ensures var s := BfsRun(G, start, end, n);
      && (s.order + [end])[0] == start && Distinct(s.order + [end]) && AllOnBoard(b, s.order + [end])
      && end in s.depth && RankedTree(b, start, s.par, s.depth)
      && forall w :: IsWalk(b, w, start, end) ==> s.depth[end] + 1 <= |w|
  {
    var s := BfsRun(G, start, end, n);
    BfsRunInv(G, start, end, n);
    TreeRanked(b, G, start, end, s);
    PolledEnd(b, G, start, end, s);
    BfsShortest(b, G, start, end, s);
  }

  /** Polling the end at the head of the frontier completes an order that starts at the start,
      repeats no cell and stays on the board. */
  lemma PolledEnd(b: Board, G: map<Cell, seq<Cell>>, start: Cell, end: Cell, s: Search)
    requires AdjacencyOf(b, G) && TreeInv(G, start, end, s) && s.pending != [] && s.pending[0] == end
    ensures (s.order + [end])[0] == start && Distinct(s.order + [end]) && AllOnBoard(b, s.order + [end])
  {
    assert s.pending == [] + [end] + s.pending[1..];
    SearchTreePoll(G, start, s.visited, s.order, [], s.pending[1..], s.par, end);
    PolledOnBoard(b, G, s.visited, s.order + [end]);
  }

  /** No walk from the start to the end at the head of the queue is shorter than its depth. */
  lemma BfsShortest(b: Board, G: map<Cell, seq<Cell>>, start: Cell, end: Cell, s: Search)
    requires Consistent(b) && AdjacencyOf(b, G) && Layers(G, s)
    requires s.pending != [] && s.pending[0] == end && end !in s.order
    requires start in s.depth && s.depth[start] == 0
    ensures forall w :: IsWalk(b, w, start, end) ==> s.depth[end] + 1 <= |w|
  {
    forall w | IsWalk(b, w, start, end)
      ensures s.depth[end] + 1 <= |w|
    {
      BreadthFirstBound(b, G, w, 0, s);
    }
  }

  /** BFS drains its queue: it polled every cell reachable from the start, and not the end. */
  lemma BfsExhausts(b: Board, G: map<Cell, seq<Cell>>, start: Cell, end: Cell, n: nat)
    requires Consistent(b) && AdjacencyOf(b, G) && start in G
    requires BfsRun(G, start, end, n).pending == []
    ensures var s := BfsRun(G, start, end, n);
      && s.order != [] && s.order[0] == start && Distinct(s.order) && AllOnBoard(b, s.order)
      && end !in s.order && forall w :: !IsWalk(b, w, start, end)
  {
    var s := BfsRun(G, start, end, n);
    BfsRunInv(G, start, end, n);
    ExhaustedSearch(b, G, start, end, s.visited, s.order, s.par);
    PolledOnBoard(b, G, s.visited, s.order);
  }

  /** Breadth-first search from `start`. It polls every cell at most once, starting with `start`;
      it reaches `end` exactly when some walk does, and then returns a shortest walk, the chain
      of parents it left behind; otherwise it has polled every cell reachable from `start`. */
  method SolveBFS(grid: array2<Cell>, start: Cell, end: Cell, ghost b: Board) returns (res: Result)
    requires Pictures(grid, b) && OnBoard(b, start) && OnBoard(b, end)
    requires start.parent == null
    modifies CellSet(grid)`parent
    ensures res.visitedOrder != [] && res.visitedOrder[0] == start
    ensures Distinct(res.visitedOrder) && AllOnBoard(b, res.visitedOrder)
    ensures res.path != [] <==> end in res.visitedOrder
    ensures res.path != [] ==> res.visitedOrder[|res.visitedOrder| - 1] == end
    ensures res.path != [] ==> IsParentChain(res.path, end) && IsWalk(b, res.path, start, end)
    ensures res.path != [] ==> forall w :: IsWalk(b, w, start, end) ==> |res.path| <= |w|
    ensures res.path == [] ==> forall w :: !IsWalk(b, w, start, end)
  {
    PicturesConsistent(grid, b);
    ghost var G := ChooseAdjacency(grid, b);
    AdjacencyHas(b, G, start);
    ghost var n;
    var order, queue;
    order, queue, n := BfsLoop(grid, start, end, b, G);
    if queue != [] {
      res := BfsFound(b, G, start, end, order, n);
    } else {
      res := BfsExhausted(b, G, start, end, order, n);
    }
  }

  /** The loop of `SolveBFS`: polls cells until the end heads the queue or the queue is empty. */
  method BfsLoop(grid: array2<Cell>, start: Cell, end: Cell, ghost b: Board, ghost G: map<Cell, seq<Cell>>)
    returns (order: seq<Cell>, queue: seq<Cell>, ghost n: nat)
    requires Pictures(grid, b) && AdjacencyOf(b, G) && G.Keys <= CellSet(grid) && start in G
    requires start.parent == null
    modifies G.Keys`parent
    ensures BfsRun(G, start, end, n).order == order && BfsRun(G, start, end, n).pending == queue
    ensures queue != [] ==> queue[0] == end
    ensures ParentsMirror(start, BfsRun(G, start, end, n).par)
  {
    queue := [start];
    var visited := {start};
    order := [];
    ghost var par: map<Cell, Cell> := map[];
    ghost var depth: map<Cell, nat> := map[start := 0];
    n := 0;
    while queue != [] && queue[0] != end
      invariant Pictures(grid, b) && ParentsMirror(start, par)
      invariant Search(visited, order, queue, par, depth) == BfsRun(G, start, end, n)
      decreases G.Keys - Elems(order)
    {
      visited, order, queue, par, depth := BfsRound(grid, b, G, start, end, visited, order, queue, par, depth, n);
      n := n + 1;
    }
  }

  /** BFS empties its queue without polling the end: no walk reaches it. */
  method BfsExhausted(ghost b: Board, ghost G: map<Cell, seq<Cell>>, start: Cell, end: Cell, order: seq<Cell>,
                      ghost n: nat)
    returns (res: Result)
    requires Consistent(b) && AdjacencyOf(b, G) && start in G
    requires BfsRun(G, start, end, n).order == order && BfsRun(G, start, end, n).pending == []
    ensures res.visitedOrder == order && res.path == []
    ensures res.visitedOrder != [] && res.visitedOrder[0] == start
    ensures Distinct(res.visitedOrder) && AllOnBoard(b, res.visitedOrder) && end !in res.visitedOrder
    ensures forall w :: !IsWalk(b, w, start, end)
  {
    BfsExhausts(b, G, start, end, n);
    return Result(order, []);
  }

  /** One round of the BFS loop for a head of the queue that is not the end: poll it and discover
      its neighbours. */
  method BfsRound(grid: array2<Cell>, ghost b: Board, ghost G: map<Cell, seq<Cell>>, start: Cell, ghost end: Cell,
                  visited: set<Cell>, order: seq<Cell>, queue: seq<Cell>, ghost par: map<Cell, Cell>,
                  ghost depth: map<Cell, nat>, ghost n: nat)
    returns (visited': set<Cell>, order': seq<Cell>, queue': seq<Cell>, ghost par': map<Cell, Cell>,
             ghost depth': map<Cell, nat>)
    requires Pictures(grid, b) && AdjacencyOf(b, G) && start in G
    requires Search(visited, order, queue, par, depth) == BfsRun(G, start, end, n)
    requires queue != [] && queue[0] != end
    requires ParentsMirror(start, par)
    modifies G.Keys`parent
    ensures Search(visited', order', queue', par', depth') == BfsRun(G, start, end, n + 1)
    ensures G.Keys - Elems(order') < G.Keys - Elems(order)
    ensures ParentsMirror(start, par') && Pictures(grid, b)
  {
    ghost var s := BfsRun(G, start, end, n);
    BfsProgress(G, start, end, n);
    var current := queue[0];
    var neighbors := GetNeighbors(grid, current, b);
    assert neighbors == NeighborList(G, current);
    ghost var d := DepthOf(s, current) + 1;
    BfsRunNext(G, start, end, n, s, current, neighbors, d);
    order' := order + [current];
    ghost var s0 := PollFront(s);
    visited', queue', par', depth' := DiscoverAll(grid, b, G, start, current, neighbors, visited, order',
                                                  queue[1..], par, depth, d, s0);
  }

  /** BFS polls the end: the result is its parent chain, a shortest walk from the start. */
  method BfsFound(ghost b: Board, ghost G: map<Cell, seq<Cell>>, start: Cell, end: Cell, order: seq<Cell>,
                  ghost n: nat)
    returns (res: Result)
    requires Consistent(b) && AdjacencyOf(b, G) && start in G
    requires var s := BfsRun(G, start, end, n); s.order == order && s.pending != [] && s.pending[0] == end
    requires ParentsMirror(start, BfsRun(G, start, end, n).par)
    ensures res.visitedOrder == order + [end] && res.visitedOrder[0] == start
    ensures Distinct(res.visitedOrder) && AllOnBoard(b, res.visitedOrder)
    ensures IsParentChain(res.path, end) && IsWalk(b, res.path, start, end)
    ensures forall w :: IsWalk(b, w, start, end) ==> |res.path| <= |w|
  {
    ghost var s := BfsRun(G, start, end, n);
    BfsFinds(b, G, start, end, n);
    MirroredTree(b, start, s.par, s.depth);
    var path := ReconstructPath(end, b, start, s.depth);
    return Result(order + [end], path);
  }

  // ---------------------------------------------------------------------------
  // (B) DFS
  // ---------------------------------------------------------------------------

  /** The stack without its top, which joins the polled cells. */
  ghost function PollTop(s: Search): Search
    requires s.pending != []
  {
    Search(s.visited, s.order + [s.pending[|s.pending| - 1]], s.pending[..|s.pending| - 1], s.par, s.depth)
  }

  /** One round of DFS: pop the top of the stack and, unless it is the end, push its neighbours
      not yet discovered, in neighbour order (so the last of them is popped next). An empty stack,
      or the end on top of it, stays as it is. */
  ghost function DfsStep(G: map<Cell, seq<Cell>>, end: Cell, s: Search): Search
  {
    if s.pending == [] || s.pending[|s.pending| - 1] == end then s
    else
      var cur := s.pending[|s.pending| - 1];
      Discover(cur, DepthOf(s, cur) + 1, NeighborList(G, cur), PollTop(s))
  }

  /** The DFS state after `n` rounds. */
  ghost function DfsRun(G: map<Cell, seq<Cell>>, start: Cell, end: Cell, n: nat): Search
  {
    if n == 0 then Begin(start) else DfsStep(G, end, DfsRun(G, start, end, n - 1))
  }

  lemma DfsStepUnfold(G: map<Cell, seq<Cell>>, end: Cell, s: Search)
    requires s.pending != [] && s.pending[|s.pending| - 1] != end
    requires s.pending[|s.pending| - 1] in G && s.pending[|s.pending| - 1] in s.depth
    ensures var cur := s.pending[|s.pending| - 1];
      DfsStep(G, end, s) == Discover(cur, s.depth[cur] + 1, G[cur], PollTop(s))
  {
  }

  /** A round that pops `cur`, not the end: it discovers the neighbours of `cur` one level deeper. */
  lemma DfsRunNext(G: map<Cell, seq<Cell>>, start: Cell, end: Cell, n: nat, s: Search, cur: Cell,
                   ns: seq<Cell>, d: nat)
    requires s == DfsRun(G, start, end, n) && s.pending != [] && s.pending[|s.pending| - 1] == cur && cur != end
    requires ns == NeighborList(G, cur) && d == DepthOf(s, cur) + 1
    ensures DfsRun(G, start, end, n + 1) == Discover(cur, d, ns, PollTop(s))
  {
  }

  lemma DfsStepInv(G: map<Cell, seq<Cell>>, start: Cell, end: Cell, s: Search)
    requires Closed(G) && TreeInv(G, start, end, s)
    ensures TreeInv(G, start, end, DfsStep(G, end, s))
  {
    if s.pending != [] && s.pending[|s.pending| - 1] != end {
      var k := |s.pending| - 1;
      var cur := s.pending[k];
      assert s.pending == s.pending[..k] + [cur] + [];
      assert s.pending[..k] + [] == s.pending[..k];
      TreePoll(G, start, end, s, s.pending[..k], cur, [], s.pending[..k]);
      DfsExpand(G, start, end, s, DfsStep(G, end, s));
    }
  }

  lemma DfsExpand(G: map<Cell, seq<Cell>>, start: Cell, end: Cell, s: Search, t: Search)
    requires Closed(G) && s.pending != [] && s.pending[|s.pending| - 1] != end
    requires TreeInv(G, start, end, PollTop(s)) && t == DfsStep(G, end, s)
    ensures TreeInv(G, start, end, t)
  {
    var cur := s.pending[|s.pending| - 1];
    assert cur in PollTop(s).order;
    DfsStepUnfold(G, end, s);
    TreeDiscovered(G, start, end, PollTop(s), cur, s.depth[cur] + 1, t);
  }


  lemma {:induction false} DfsRunInv(G: map<Cell, seq<Cell>>, start: Cell, end: Cell, n: nat)
    requires Closed(G) && start in G
    ensures TreeInv(G, start, end, DfsRun(G, start, end, n))
  {
    if n == 0 {
      TreeBegin(G, start, end);
    } else {
      DfsRunInv(G, start, end, n - 1);
      DfsStepInv(G, start, end, DfsRun(G, start, end, n - 1));
    }
  }

  /** What one more round needs: the top of the stack is a cell of the board, discovered and not
      yet polled, and the start stays discovered. */
  lemma DfsProgress(G: map<Cell, seq<Cell>>, start: Cell, end: Cell, n: nat, order: seq<Cell>, stack: seq<Cell>)
    requires Closed(G) && start in G
    requires DfsRun(G, start, end, n).order == order && DfsRun(G, start, end, n).pending == stack
    requires stack != []
    ensures stack[|stack| - 1] in G && stack[|stack| - 1] in DfsRun(G, start, end, n).depth
    ensures start in DfsRun(G, start, end, n).visited
    ensures G.Keys - Elems(order + [stack[|stack| - 1]]) < G.Keys - Elems(order)
  {
    DfsRunInv(G, start, end, n);
    var top := stack[|stack| - 1];
    assert top in stack;
    assert Elems(order + [top]) == Elems(order) + {top};
  }

  /** Popping the top of the stack shrinks the set of cells not yet polled. */
  lemma DfsShrinks(G: map<Cell, seq<Cell>>, start: Cell, end: Cell, n: nat, order: seq<Cell>, stack: seq<Cell>)
    requires Closed(G) && start in G
    requires DfsRun(G, start, end, n).order == order && DfsRun(G, start, end, n).pending == stack
    requires stack != []
    ensures G.Keys - Elems(order + [stack[|stack| - 1]]) < G.Keys - Elems(order)
  {
    DfsProgress(G, start, end, n, order, stack);
  }

  /** DFS stops with the end on top of the stack: everything the found-branch needs. */
  lemma DfsFinds(b: Board, G: map<Cell, seq<Cell>>, start: Cell, end: Cell, n: nat)
    requires Consistent(b) && AdjacencyOf(b, G) && start in G
    requires var s := DfsRun(G, start, end, n); s.pending != [] && s.pending[|s.pending| - 1] == end
    ensures var s := DfsRun(G, start, end, n);
      && (s.order + [end])[0] == start && Distinct(s.order + [end]) && AllOnBoard(b, s.order + [end])
      && end in s.depth && RankedTree(b, start, s.par, s.depth)
  {
    var s := DfsRun(G, start, end, n);
    DfsRunInv(G, start, end, n);
    TreeRanked(b, G, start, end, s);
    PolledTop(b, G, start, end, s);
  }

  /** Popping the end off the top of the stack completes an order that starts at the start,
      repeats no cell and stays on the board. */
  lemma PolledTop(b: Board, G: map<Cell, seq<Cell>>, start: Cell, end: Cell, s: Search)
    requires AdjacencyOf(b, G) && TreeInv(G, start, end, s) && s.pending != []
    requires s.pending[|s.pending| - 1] == end
    ensures (s.order + [end])[0] == start && Distinct(s.order + [end]) && AllOnBoard(b, s.order + [end])
    ensures end in s.depth
  {
    var k := |s.pending| - 1;
    assert s.pending == s.pending[..k] + [end] + [];
    SearchTreePoll(G, start, s.visited, s.order, s.pending[..k], [], s.par, end);
    PolledOnBoard(b, G, s.visited, s.order + [end]);
    assert end in s.pending;
  }

  /** DFS empties its stack: it polled every cell reachable from the start, and not the end. */
  lemma DfsExhausts(b: Board, G: map<Cell, seq<Cell>>, start: Cell, end: Cell, n: nat)
    requires Consistent(b) && AdjacencyOf(b, G) && start in G
    requires DfsRun(G, start, end, n).pending == []
    ensures var s := DfsRun(G, start, end, n);
      && s.order != [] && s.order[0] == start && Distinct(s.order) && AllOnBoard(b, s.order)
      && end !in s.order && forall w :: !IsWalk(b, w, start, end)
  {
    var s := DfsRun(G, start, end, n);
    DfsRunInv(G, start, end, n);
    DfsClosed(G, start, end, n);
    ExhaustedSearch(b, G, start, end, s.visited, s.order, s.par);
    PolledOnBoard(b, G, s.visited, s.order);
  }

  /** Every neighbour of a polled cell has been discovered. */
  lemma {:induction false} DfsClosed(G: map<Cell, seq<Cell>>, start: Cell, end: Cell, n: nat)
    requires Closed(G) && start in G
    ensures var s := DfsRun(G, start, end, n); NeighborsWithin(G, s.order, s.visited)
  {
    if n > 0 {
      DfsClosed(G, start, end, n - 1);
      DfsRunInv(G, start, end, n - 1);
      DfsStepCloses(G, start, end, DfsRun(G, start, end, n - 1));
    }
  }

  /** A DFS round keeps every neighbour of a polled cell discovered. */
  lemma DfsStepCloses(G: map<Cell, seq<Cell>>, start: Cell, end: Cell, s: Search)
    requires TreeInv(G, start, end, s) && NeighborsWithin(G, s.order, s.visited)
    ensures var t := DfsStep(G, end, s); NeighborsWithin(G, t.order, t.visited)
  {
    if s.pending != [] && s.pending[|s.pending| - 1] != end {
      var cur := s.pending[|s.pending| - 1];
      assert cur in s.pending;
      DfsStepUnfold(G, end, s);
      DiscoverCloses(G, cur, s.depth[cur] + 1, PollTop(s), s.order);
    }
  }

  /** Discovering the neighbours of the newly polled cell `cur` keeps every neighbour of a polled
      cell discovered. */
  lemma DiscoverCloses(G: map<Cell, seq<Cell>>, cur: Cell, d: nat, s: Search, before: seq<Cell>)
    requires cur in G && s.order == before + [cur] && NeighborsWithin(G, before, s.visited)
    ensures var t := Discover(cur, d, G[cur], s); NeighborsWithin(G, t.order, t.visited)
  {
    DiscoverCovers(cur, d, G[cur], s);
  }

  /** Handling a neighbour list discovers every cell of it, keeps what was discovered and adds
      nothing to the polled cells. */
  lemma {:induction false} DiscoverCovers(cur: Cell, d: nat, ns: seq<Cell>, s: Search)
    ensures var t := Discover(cur, d, ns, s);
      && t.order == s.order && s.visited <= t.visited && forall y :: y in ns ==> y in t.visited
    decreases |ns|
  {
    if ns != [] {
      DiscoverCovers(cur, d, ns[..|ns| - 1], s);
    }
  }

  /** Depth-first search from `start`: like `SolveBFS`, it polls every cell at most once, starting
      with `start`, and reaches `end` exactly when some walk does, returning the chain of parents
      it left behind, a walk from `start`; that walk need not be a shortest one. */
  method SolveDFS(grid: array2<Cell>, start: Cell, end: Cell, ghost b: Board) returns (res: Result)
    requires Pictures(grid, b) && OnBoard(b, start) && OnBoard(b, end)
    requires start.parent == null
    modifies CellSet(grid)`parent
    ensures res.visitedOrder != [] && res.visitedOrder[0] == start
    ensures Distinct(res.visitedOrder) && AllOnBoard(b, res.visitedOrder)
    ensures res.path != [] <==> end in res.visitedOrder
    ensures res.path != [] ==> res.visitedOrder[|res.visitedOrder| - 1] == end
    ensures res.path != [] ==> IsParentChain(res.path, end) && IsWalk(b, res.path, start, end)
    ensures res.path == [] ==> forall w :: !IsWalk(b, w, start, end)
  {
    PicturesConsistent(grid, b);
    ghost var G := ChooseAdjacency(grid, b);
    AdjacencyHas(b, G, start);
    ghost var n;
    var order, stack;
    order, stack, n := DfsLoop(grid, start, end, b, G);
    if stack != [] {
      res := DfsFound(b, G, start, end, order, stack, n);
    } else {
      res := DfsExhausted(b, G, start, end, order, n);
    }
  }

  /** The loop of `SolveDFS`: pops cells until the end is on top of the stack or the stack is
      empty. */
  method DfsLoop(grid: array2<Cell>, start: Cell, end: Cell, ghost b: Board, ghost G: map<Cell, seq<Cell>>)
    returns (order: seq<Cell>, stack: seq<Cell>, ghost n: nat)
    requires Pictures(grid, b) && AdjacencyOf(b, G) && G.Keys <= CellSet(grid) && start in G
    requires start.parent == null
    modifies G.Keys`parent
    ensures DfsRun(G, start, end, n).order == order && DfsRun(G, start, end, n).pending == stack
    ensures stack != [] ==> stack[|stack| - 1] == end
    ensures ParentsMirror(start, DfsRun(G, start, end, n).par)
  {
    stack := [start];
    var visited := {start};
    order := [];
    ghost var par: map<Cell, Cell> := map[];
    ghost var depth: map<Cell, nat> := map[start := 0];
    n := 0;
    while stack != [] && stack[|stack| - 1] != end
      invariant Pictures(grid, b) && ParentsMirror(start, par)
      invariant Search(visited, order, stack, par, depth) == DfsRun(G, start, end, n)
      decreases G.Keys - Elems(order)
    {
      visited, order, stack, par, depth := DfsRound(grid, b, G, start, end, visited, order, stack, par, depth, n);
      n := n + 1;
    }
  }

  /** One round of the DFS loop for a top of the stack that is not the end: pop it and push its
      undiscovered neighbours. */
  method DfsRound(grid: array2<Cell>, ghost b: Board, ghost G: map<Cell, seq<Cell>>, start: Cell, ghost end: Cell,
                  visited: set<Cell>, order: seq<Cell>, stack: seq<Cell>, ghost par: map<Cell, Cell>,
                  ghost depth: map<Cell, nat>, ghost n: nat)
    returns (visited': set<Cell>, order': seq<Cell>, stack': seq<Cell>, ghost par': map<Cell, Cell>,
             ghost depth': map<Cell, nat>)
    requires Pictures(grid, b) && AdjacencyOf(b, G) && start in G
    requires Search(visited, order, stack, par, depth) == DfsRun(G, start, end, n)
    requires stack != [] && stack[|stack| - 1] != end
    requires ParentsMirror(start, par)
    modifies G.Keys`parent
    ensures Search(visited', order', stack', par', depth') == DfsRun(G, start, end, n + 1)
    ensures G.Keys - Elems(order') < G.Keys - Elems(order)
    ensures ParentsMirror(start, par') && Pictures(grid, b)
  {
    ghost var s := DfsRun(G, start, end, n);
    DfsProgress(G, start, end, n, order, stack);
    var current := stack[|stack| - 1];
    var neighbors := GetNeighbors(grid, current, b);
    assert neighbors == NeighborList(G, current);
    ghost var d := DepthOf(s, current) + 1;
    DfsRunNext(G, start, end, n, s, current, neighbors, d);
    order' := order + [current];
    ghost var s0 := PollTop(s);
    visited', stack', par', depth' := DiscoverAll(grid, b, G, start, current, neighbors, visited, order',
                                                  stack[..|stack| - 1], par, depth, d, s0);
  }

  /** DFS empties its stack without polling the end: no walk reaches it. */
  method DfsExhausted(ghost b: Board, ghost G: map<Cell, seq<Cell>>, start: Cell, end: Cell, order: seq<Cell>,
                      ghost n: nat)
    returns (res: Result)
    requires Consistent(b) && AdjacencyOf(b, G) && start in G
    requires DfsRun(G, start, end, n).order == order && DfsRun(G, start, end, n).pending == []
    ensures res.visitedOrder == order && res.path == []
    ensures res.visitedOrder != [] && res.visitedOrder[0] == start
    ensures Distinct(res.visitedOrder) && AllOnBoard(b, res.visitedOrder) && end !in res.visitedOrder
    ensures forall w :: !IsWalk(b, w, start, end)
  {
    DfsExhausts(b, G, start, end, n);
    return Result(order, []);
  }

  /** DFS pops the end: the result is its parent chain, a walk from the start. */
  method DfsFound(ghost b: Board, ghost G: map<Cell, seq<Cell>>, start: Cell, end: Cell, order: seq<Cell>,
                  ghost stack: seq<Cell>, ghost n: nat)
    returns (res: Result)
    requires Consistent(b) && AdjacencyOf(b, G) && start in G
    requires DfsRun(G, start, end, n).order == order && DfsRun(G, start, end, n).pending == stack
    requires stack != [] && stack[|stack| - 1] == end
    requires ParentsMirror(start, DfsRun(G, start, end, n).par)
    ensures res.visitedOrder == order + [end] && res.visitedOrder[0] == start
    ensures res.path != [] && end in res.visitedOrder && res.visitedOrder[|res.visitedOrder| - 1] == end
    ensures Distinct(res.visitedOrder) && AllOnBoard(b, res.visitedOrder)
    ensures IsParentChain(res.path, end) && IsWalk(b, res.path, start, end)
  {
    ghost var s := DfsRun(G, start, end, n);
    DfsFinds(b, G, start, end, n);
    MirroredTree(b, start, s.par, s.depth);
    var path := ReconstructPath(end, b, start, s.depth);
    return Result(order + [end], path);
  }
}
