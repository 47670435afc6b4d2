/** The breadth- and depth-first searches over the integer maze grid, shared by
    Maze/BFSPathFinder.java, Maze/DFSPathFinder.java and the `solveBFS`/`solveDFS` copies in
    MazeGenerator.java. Both keep their frontier in a list that neighbours are appended to; the
    queue takes from its head and the stack from its tail. */
module GridSearch {
  import opened Common
  import opened Mazes
  import opened SearchState

  /** `canMoveTo`: open and not yet visited. */
  predicate CanMoveTo(grid: array2<int>, visited: array2<bool>, x: int, y: int)
    requires Shaped(grid, visited)
    reads grid, visited
    ensures CanMoveTo(grid, visited, x, y) <==> Open(grid, Pos(x, y)) && !visited[x, y]
  {
    Interior(grid.Length0, grid.Length1, x, y) && !visited[x, y] && Walkable(grid[x, y])
  }

  /** One pass of `exploreNeighbors`' loop: if the neighbour in direction `d` can be moved to, it
      is marked and a node for it, discovered from `current`, is appended. `base` is the frontier
      before the first direction. */
  method Consider(grid: array2<int>, visited: array2<bool>, current: Node, d: nat, frontier: seq<Node>,
                  ghost base: seq<Node>, ghost marks: set<Pos>)
    returns (frontier': seq<Node>)
    requires frontier == base + Children(current, NewNeighbors(grid, marks, ToPoint(current), d))
    requires Tracks(grid, visited, marks + Elems(NewNeighbors(grid, marks, ToPoint(current), d)))
    modifies visited
    ensures frontier' == base + Children(current, NewNeighbors(grid, marks, ToPoint(current), d + 1))
    ensures Tracks(grid, visited, marks + Elems(NewNeighbors(grid, marks, ToPoint(current), d + 1)))
  {
    ghost var added := NewNeighbors(grid, marks, ToPoint(current), d);
    var next := Neighbor(ToPoint(current), d);
    if CanMoveTo(grid, visited, next.x, next.y) {
      visited[next.x, next.y] := true;
      frontier' := frontier + [Node(next.x, next.y, Some(current))];
      assert (added + [next])[..|added|] == added;
      assert Elems(added + [next]) == Elems(added) + {next};
    } else {
      frontier' := frontier;
    }
  }

  /** Marks and appends every neighbour of `current` that can be moved to, in direction order,
      given that the flags set before are those on `marks`. */
  method ExploreNeighbors(grid: array2<int>, visited: array2<bool>, current: Node, frontier: seq<Node>,
                          ghost marks: set<Pos>)
    returns (frontier': seq<Node>)
    requires Tracks(grid, visited, marks)
    modifies visited
    ensures var added := NewNeighbors(grid, marks, ToPoint(current), 4);
      frontier' == frontier + Children(current, added) && Tracks(grid, visited, marks + Elems(added))
  {
    frontier' := frontier;
    var i := 0;
    while i < 4
      invariant 0 <= i <= 4
      invariant frontier' == frontier + Children(current, NewNeighbors(grid, marks, ToPoint(current), i))
      invariant Tracks(grid, visited, marks + Elems(NewNeighbors(grid, marks, ToPoint(current), i)))
    {
      frontier' := Consider(grid, visited, current, i, frontier', frontier, marks);
      i := i + 1;
    }
  }

  lemma Cleared(grid: array2<int>, visited: array2<bool>)
    requires Shaped(grid, visited)
    requires forall r, c :: 0 <= r < visited.Length0 && 0 <= c < visited.Length1 ==> !visited[r, c]
    ensures Tracks(grid, visited, {})
  {
  }

  /** One round of the search loop that does not take the end: the taken node's cell joins the
      explored cells and its new open neighbours are marked and joined to the frontier. */
  method Expand(grid: array2<int>, visited: array2<bool>, start: Pos, end: Pos, explored: seq<Pos>,
                frontier: seq<Node>, ghost V: set<Pos>, lifo: bool)
    returns (explored': seq<Pos>, frontier': seq<Node>, ghost V': set<Pos>)
    requires Searching(grid, start, end, explored, frontier, V) && Tracks(grid, visited, V)
    requires frontier != [] && ToPoint(Take(frontier, lifo).0) != end
    modifies visited
    ensures Searching(grid, start, end, explored', frontier', V') && Tracks(grid, visited, V')
    ensures Box(grid) - V' < Box(grid) - V || (V' == V && |frontier'| < |frontier|)
  {
    var (current, rest) := Take(frontier, lifo);
    SearchStep(grid, start, end, explored, frontier, V, lifo);
    ghost var added := NewNeighbors(grid, V, ToPoint(current), 4);
    explored' := explored + [ToPoint(current)];
    frontier' := ExploreNeighbors(grid, visited, current, rest, V);
    V' := V + Elems(added);
  }

  /** `findPath`'s search loop, with `visited` cleared beforehand: marks the start, then takes
      nodes from the frontier until the end is taken or the frontier runs dry. Returns the cells
      in the order they were taken and the end's node, if it was reached. */
  method Search(grid: array2<int>, visited: array2<bool>, start: Pos, end: Pos, lifo: bool)
    returns (explored: seq<Pos>, endNode: Option<Node>)
    requires Shaped(grid, visited) && InGrid(grid, start)
    requires forall r, c :: 0 <= r < visited.Length0 && 0 <= c < visited.Length1 ==> !visited[r, c]
    modifies visited
    ensures explored != [] && explored[0] == start && Distinct(explored)
    ensures forall i :: 0 < i < |explored| ==> Open(grid, explored[i])
    ensures endNode.Some? <==> end in explored
    ensures endNode.Some? ==>
      && ToPoint(endNode.value) == end && explored[|explored| - 1] == end
      && GridWalk(grid, Ancestry(endNode.value), start, end)
    ensures endNode.None? ==> forall w :: !GridWalk(grid, w, start, end)
  {
    Cleared(grid, visited);
    visited[start.x, start.y] := true;
    ghost var V: set<Pos> := {start};
    var frontier := [Node(start.x, start.y, None)];
    explored := [];
    while frontier != []
      invariant Searching(grid, start, end, explored, frontier, V) && Tracks(grid, visited, V)
      decreases Box(grid) - V, |frontier|
    {
      var (current, rest) := Take(frontier, lifo);
      if current.x == end.x && current.y == end.y {
        SearchFound(grid, start, end, explored, frontier, V, lifo);
        explored := explored + [end];
        endNode := Some(current);
        return;
      }
      explored, frontier, V := Expand(grid, visited, start, end, explored, frontier, V, lifo);
    }
    endNode := None;
    SearchExhausted(grid, start, end, explored, V);
  }

  /** The cells of a parent chain, from its root down to the given node; none for no node. */
  function Chain(n: Option<Node>): seq<Pos>
  {
    if n.Some? then Ancestry(n.value) else []
  }

  /** `buildPath`: follows the parent links back from the end's node, putting each cell in front
      of those already collected. No node gives the empty path. */
  method BuildPath(endNode: Option<Node>) returns (path: seq<Pos>)
    ensures endNode.None? ==> path == []
    ensures endNode.Some? ==> path == Ancestry(endNode.value)
  {
    path := [];
    var current := endNode;
    while current.Some?
      invariant Chain(endNode) == Chain(current) + path
      decreases current
    {
      path := [ToPoint(current.value)] + path;
      current := current.value.parent;
    }
    assert Chain(current) + path == path;
  }
}
