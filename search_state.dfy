/** The searches' state and what it means, over the integer maze grid of Maze/Maze.java: search
    nodes and their parent chains, walks through open cells, and the invariant the breadth- and
    depth-first loops keep. */
module SearchState {
  import opened Common
  import opened Mazes

  /** Maze/Support/Node.java: a search node and the node it was discovered from. */
  datatype Node = Node(x: int, y: int, parent: Option<Node>)

  function ToPoint(n: Node): Pos
  {
    Pos(n.x, n.y)
  }

  /** The positions along `n`'s parent chain, from its root down to `n`. */
  function Ancestry(n: Node): (a: seq<Pos>)
    ensures |a| >= 1 && a[|a| - 1] == ToPoint(n)
  {
    match n.parent
    case None => [ToPoint(n)]
    case Some(p) => Ancestry(p) + [ToPoint(n)]
  }

  function Points(ns: seq<Node>): (ps: seq<Pos>)
    ensures |ps| == |ns| && forall i :: 0 <= i < |ns| ==> ps[i] == ToPoint(ns[i])
  {
    if ns == [] then [] else Points(ns[..|ns| - 1]) + [ToPoint(ns[|ns| - 1])]
  }

  /** The neighbour of `p` in direction `d` of `DIRECTIONS`: up, down, left, right. */
  function Neighbor(p: Pos, d: nat): Pos
  {
    if d == 0 then Pos(p.x - 1, p.y) else if d == 1 then Pos(p.x + 1, p.y)
    else if d == 2 then Pos(p.x, p.y - 1) else Pos(p.x, p.y + 1)
  }

  /** Two positions one step apart, as the four directions make them. */
  predicate Adjacent(p: Pos, q: Pos)
  {
    Manhattan(p.x, p.y, q.x, q.y) == 1
  }

  lemma NeighborAdjacent(p: Pos, d: nat)
    ensures Adjacent(p, Neighbor(p, d))
  {
  }

  /** Every position one step from `p` is one of its four neighbours. */
  lemma AdjacentNeighbor(p: Pos, q: Pos) returns (d: nat)
    requires Adjacent(p, q)
    ensures d < 4 && q == Neighbor(p, d)
  {
    if q.x == p.x - 1 { d := 0; } else if q.x == p.x + 1 { d := 1; }
    else if q.y == p.y - 1 { d := 2; } else { d := 3; }
  }

  ghost predicate Shaped(grid: array2<int>, visited: array2<bool>)
  {
    grid.Length0 == visited.Length0 && grid.Length1 == visited.Length1
  }

  ghost predicate InGrid(grid: array2<int>, p: Pos)
  {
    0 <= p.x < grid.Length0 && 0 <= p.y < grid.Length1
  }

  /** A cell a search may step onto: inside the border and PATH or END. */
  ghost predicate Open(grid: array2<int>, p: Pos)
    reads grid
  {
    Interior(grid.Length0, grid.Length1, p.x, p.y) && Walkable(grid[p.x, p.y])
  }

  /** `w` walks from `from` to `to` in single steps, entering only open cells. */
  ghost predicate GridWalk(grid: array2<int>, w: seq<Pos>, from: Pos, to: Pos)
    reads grid
  {
    && w != [] && w[0] == from && w[|w| - 1] == to
    && (forall i :: 0 < i < |w| ==> Open(grid, w[i]))
    && (forall i :: 0 < i < |w| ==> Adjacent(w[i - 1], w[i]))
  }

  /** The nodes for positions `ps`, each discovered from `parent`. */
  function Children(parent: Node, ps: seq<Pos>): (ns: seq<Node>)
    ensures |ns| == |ps|
  {
    if ps == [] then [] else Children(parent, ps[..|ps| - 1]) + [Node(ps[|ps| - 1].x, ps[|ps| - 1].y, Some(parent))]
  }

  /** The visited flags are set exactly on the positions in `marks`. */
  ghost predicate Tracks(grid: array2<int>, visited: array2<bool>, marks: set<Pos>)
    reads visited
  {
    && Shaped(grid, visited)
    && (forall p :: p in marks ==> InGrid(grid, p))
    && forall r, c :: 0 <= r < visited.Length0 && 0 <= c < visited.Length1 ==>
         (visited[r, c] <==> Pos(r, c) in marks)
  }

  /** The neighbours of `p` in directions `0 .. n - 1` that a pass over the directions appends:
      open, not in `marks`, and not appended by an earlier direction. */
  ghost function NewNeighbors(grid: array2<int>, marks: set<Pos>, p: Pos, n: nat): seq<Pos>
    reads grid
  {
    if n == 0 then []
    else
      var earlier := NewNeighbors(grid, marks, p, n - 1);
      var q := Neighbor(p, n - 1);
      if Open(grid, q) && q !in marks + Elems(earlier) then earlier + [q] else earlier
  }

  /** The appended neighbours are distinct open neighbours of `p`, none of them marked before,
      and every open neighbour in the directions passed over is marked before or appended. */
  lemma {:induction false} NewNeighborsFacts(grid: array2<int>, marks: set<Pos>, p: Pos, n: nat)
    ensures var added := NewNeighbors(grid, marks, p, n);
      && Distinct(added)
      && (forall k :: 0 <= k < |added| ==> Adjacent(p, added[k]) && Open(grid, added[k]) && added[k] !in marks)
      && forall d :: 0 <= d < n && Open(grid, Neighbor(p, d)) ==> Neighbor(p, d) in marks + Elems(added)
  {
    if n > 0 {
      NewNeighborsFacts(grid, marks, p, n - 1);
      NeighborAdjacent(p, n - 1);
    }
  }

  lemma {:induction false} ChildrenAt(parent: Node, ps: seq<Pos>)
    ensures forall i :: 0 <= i < |ps| ==> Children(parent, ps)[i] == Node(ps[i].x, ps[i].y, Some(parent))
  {
    if ps != [] {
      ChildrenAt(parent, ps[..|ps| - 1]);
    }
  }

  lemma PointsAppend(a: seq<Node>, b: seq<Node>)
    ensures Points(a + b) == Points(a) + Points(b)
  {
    assert forall i :: 0 <= i < |a + b| ==> Points(a + b)[i] == (Points(a) + Points(b))[i];
  }

  /** The nodes discovered from `parent` sit on the positions they were made for. */
  lemma PointsChildren(parent: Node, ps: seq<Pos>)
    ensures Points(Children(parent, ps)) == ps
  {
    ChildrenAt(parent, ps);
  }

  /** Moving a block of a repetition-free sequence keeps it free of repetitions. */
  lemma DistinctSwap<T>(a: seq<T>, b: seq<T>, c: seq<T>)
    requires Distinct(a + b + c)
    ensures Distinct(a + c + b)
  {
    var s, t := a + b + c, a + c + b;
    forall i, j | 0 <= i < j < |t|
      ensures t[i] != t[j]
    {
      var fi := if i < |a| then i else if i < |a| + |c| then i + |b| else i - |c|;
      var fj := if j < |a| then j else if j < |a| + |c| then j + |b| else j - |c|;
      assert t[i] == s[fi] && t[j] == s[fj];
      if fi < fj { assert s[fi] != s[fj]; } else { assert s[fj] != s[fi]; }
    }
  }

  lemma DistinctAppend<T>(a: seq<T>, b: seq<T>)
    requires Distinct(a) && Distinct(b) && forall k :: 0 <= k < |b| ==> b[k] !in Elems(a)
    ensures Distinct(a + b)
  {
    forall i, j | 0 <= i < j < |a + b|
      ensures (a + b)[i] != (a + b)[j]
    {
      if j >= |a| && i < |a| {
        assert (a + b)[i] in Elems(a);
      }
    }
  }

  /** A walk extended by one open step is a walk to the new cell. */
  lemma WalkExtend(grid: array2<int>, w: seq<Pos>, from: Pos, to: Pos, q: Pos)
    requires GridWalk(grid, w, from, to) && Open(grid, q) && Adjacent(to, q)
    ensures GridWalk(grid, w + [q], from, q)
  {
  }

  /** Every position of the grid. */
  ghost function Box(grid: array2<int>): set<Pos>
  {
    set r, c | 0 <= r < grid.Length0 && 0 <= c < grid.Length1 :: Pos(r, c)
  }

  /** Marking a cell of the grid that was not marked leaves fewer unmarked cells. */
  lemma BoxShrinks(grid: array2<int>, V: set<Pos>, A: set<Pos>, q: Pos)
    requires forall p :: p in V + A ==> InGrid(grid, p)
    requires q in A && q !in V
    ensures Box(grid) - (V + A) < Box(grid) - V
  {
    assert q in Box(grid);
  }

  /** Which frontier node the next round takes: a FIFO queue polls its head, a LIFO stack pops
      its tail. The rest of the frontier keeps its order. */
  function Take(frontier: seq<Node>, lifo: bool): (r: (Node, seq<Node>))
    requires frontier != []
    ensures if lifo then frontier == r.1 + [r.0] else frontier == [r.0] + r.1
  {
    if lifo then (frontier[|frontier| - 1], frontier[..|frontier| - 1]) else (frontier[0], frontier[1..])
  }

  /** The new neighbours in directions `0 .. n - 1` are neighbours in those directions. */
  lemma {:induction false} NewNeighborsFrom(grid: array2<int>, marks: set<Pos>, p: Pos, n: nat)
    ensures forall q :: q in NewNeighbors(grid, marks, p, n) ==> exists d :: 0 <= d < n && q == Neighbor(p, d)
  {
    if n > 0 {
      NewNeighborsFrom(grid, marks, p, n - 1);
    }
  }

  /** A queue serves the nodes it held before a round ahead of the round's new ones. */
  lemma QueueTakesOldest(rest: seq<Node>, cur: Node, added: seq<Pos>)
    requires rest != []
    ensures Take(rest + Children(cur, added), false) == (rest[0], rest[1..] + Children(cur, added))
  {
    assert (rest + Children(cur, added))[1..] == rest[1..] + Children(cur, added);
  }

  /** A stack serves the node pushed last in a round first. */
  lemma StackTakesNewest(rest: seq<Node>, cur: Node, added: seq<Pos>)
    requires added != []
    ensures var q := added[|added| - 1];
      Take(rest + Children(cur, added), true) == (Node(q.x, q.y, Some(cur)), rest + Children(cur, added[..|added| - 1]))
  {
    var q := added[|added| - 1];
    assert rest + Children(cur, added) == (rest + Children(cur, added[..|added| - 1])) + [Node(q.x, q.y, Some(cur))];
  }

  /** In the depth-first search, when the right neighbour of the node just taken is open and
      unmarked, it is pushed last and so is the next node taken. */
  lemma RightExploredNext(grid: array2<int>, V: set<Pos>, cur: Node, rest: seq<Node>)
    requires Open(grid, Neighbor(ToPoint(cur), 3)) && Neighbor(ToPoint(cur), 3) !in V
    ensures Take(rest + Children(cur, NewNeighbors(grid, V, ToPoint(cur), 4)), true).0 == Node(cur.x, cur.y + 1, Some(cur))
  {
    var p := ToPoint(cur);
    var earlier := NewNeighbors(grid, V, p, 3);
    NewNeighborsFrom(grid, V, p, 3);
    assert Neighbor(p, 3) !in Elems(earlier);
    StackTakesNewest(rest, cur, earlier + [Neighbor(p, 3)]);
  }

  /** The state a search keeps between rounds: `explored` lists the cells taken so far, and
      together with the frontier it holds each marked cell `V` once. Every frontier node carries a
      walk from `start` to its cell, every neighbour of an explored cell is marked, and the end
      has not been taken yet. */
  ghost predicate Searching(grid: array2<int>, start: Pos, end: Pos, explored: seq<Pos>, frontier: seq<Node>,
                            V: set<Pos>)
    reads grid
  {
    && V == Elems(explored) + Elems(Points(frontier))
    && Distinct(explored + Points(frontier))
    && (explored == [] ==> frontier == [Node(start.x, start.y, None)])
    && (explored != [] ==> explored[0] == start)
    && (forall k :: 0 <= k < |frontier| ==> GridWalk(grid, Ancestry(frontier[k]), start, ToPoint(frontier[k])))
    && (forall p :: p in V ==> InGrid(grid, p) && (p == start || Open(grid, p)))
    && (forall x, d :: x in explored && 0 <= d < 4 && Open(grid, Neighbor(x, d)) ==> Neighbor(x, d) in V)
    && end !in explored
  }

  /** Taking a node from the frontier: the explored list grows by its cell, which the node's
      walk reaches from `start`, and no cell is listed twice. */
  lemma SearchTake(grid: array2<int>, start: Pos, end: Pos, explored: seq<Pos>, frontier: seq<Node>,
                   V: set<Pos>, lifo: bool)
    requires Searching(grid, start, end, explored, frontier, V) && frontier != []
    ensures var (cur, rest) := Take(frontier, lifo);
      && Distinct(explored + [ToPoint(cur)] + Points(rest))
      && V == Elems(explored + [ToPoint(cur)]) + Elems(Points(rest))
      && (explored + [ToPoint(cur)])[0] == start
      && GridWalk(grid, Ancestry(cur), start, ToPoint(cur))
  {
    var (cur, rest) := Take(frontier, lifo);
    TakeOrder(explored, frontier, lifo);
    if lifo {
      assert frontier[|frontier| - 1] == cur;
    } else {
      assert frontier[0] == cur;
    }
  }

  /** Moving the taken node's cell from the frontier to the end of the explored list keeps the
      cells distinct and the same set of cells. */
  lemma TakeOrder(explored: seq<Pos>, frontier: seq<Node>, lifo: bool)
    requires frontier != [] && Distinct(explored + Points(frontier))
    ensures var (cur, rest) := Take(frontier, lifo);
      && Distinct(explored + [ToPoint(cur)] + Points(rest))
      && Elems(explored) + Elems(Points(frontier)) == Elems(explored + [ToPoint(cur)]) + Elems(Points(rest))
  {
    var (cur, rest) := Take(frontier, lifo);
    if lifo {
      MoveLast(explored, rest, cur);
    } else {
      MoveFirst(explored, rest, cur);
    }
  }

  lemma MoveLast(explored: seq<Pos>, rest: seq<Node>, cur: Node)
    requires Distinct(explored + Points(rest + [cur]))
    ensures Distinct(explored + [ToPoint(cur)] + Points(rest))
    ensures Elems(explored) + Elems(Points(rest + [cur])) == Elems(explored + [ToPoint(cur)]) + Elems(Points(rest))
  {
    var c := [ToPoint(cur)];
    PointsAppend(rest, [cur]);
    assert explored + Points(rest + [cur]) == explored + Points(rest) + c;
    DistinctSwap(explored, Points(rest), c);
    assert Elems(explored + c) == Elems(explored) + Elems(c);
    assert Elems(Points(rest + [cur])) == Elems(c) + Elems(Points(rest));
  }

  lemma MoveFirst(explored: seq<Pos>, rest: seq<Node>, cur: Node)
    requires Distinct(explored + Points([cur] + rest))
    ensures Distinct(explored + [ToPoint(cur)] + Points(rest))
    ensures Elems(explored) + Elems(Points([cur] + rest)) == Elems(explored + [ToPoint(cur)]) + Elems(Points(rest))
  {
    var c := [ToPoint(cur)];
    PointsAppend([cur], rest);
    assert explored + Points([cur] + rest) == explored + c + Points(rest);
    assert Elems(explored + c) == Elems(explored) + Elems(c);
    assert Elems(Points([cur] + rest)) == Elems(c) + Elems(Points(rest));
  }

  /** The frontier after a round: the rest of the old one, then the new neighbours' nodes. */
  lemma StepOrder(explored: seq<Pos>, frontier: seq<Node>, V: set<Pos>, cur: Node, rest: seq<Node>, added: seq<Pos>)
    requires Distinct(explored + [ToPoint(cur)] + Points(rest))
    requires V == Elems(explored + [ToPoint(cur)]) + Elems(Points(rest))
    requires Distinct(added) && forall k :: 0 <= k < |added| ==> added[k] !in V
    ensures var explored', frontier' := explored + [ToPoint(cur)], rest + Children(cur, added);
      && V + Elems(added) == Elems(explored') + Elems(Points(frontier'))
      && Distinct(explored' + Points(frontier'))
  {
    var explored', frontier' := explored + [ToPoint(cur)], rest + Children(cur, added);
    PointsAppend(rest, Children(cur, added));
    PointsChildren(cur, added);
    assert Points(frontier') == Points(rest) + added;
    assert explored' + (Points(rest) + added) == (explored' + Points(rest)) + added;
    assert Elems(explored' + Points(rest)) == V;
    DistinctAppend(explored' + Points(rest), added);
    assert Elems(Points(frontier')) == Elems(Points(rest)) + Elems(added);
  }

  /** Every node of the new frontier carries a walk from `start` to its cell. */
  lemma StepWalks(grid: array2<int>, start: Pos, frontier: seq<Node>, cur: Node, rest: seq<Node>, added: seq<Pos>)
    requires forall k :: 0 <= k < |frontier| ==> GridWalk(grid, Ancestry(frontier[k]), start, ToPoint(frontier[k]))
    requires forall n :: n in rest ==> n in frontier
    requires GridWalk(grid, Ancestry(cur), start, ToPoint(cur))
    requires forall k :: 0 <= k < |added| ==> Adjacent(ToPoint(cur), added[k]) && Open(grid, added[k])
    ensures var frontier' := rest + Children(cur, added);
      forall k :: 0 <= k < |frontier'| ==> GridWalk(grid, Ancestry(frontier'[k]), start, ToPoint(frontier'[k]))
  {
    var frontier' := rest + Children(cur, added);
    ChildrenAt(cur, added);
    forall k | 0 <= k < |frontier'|
      ensures GridWalk(grid, Ancestry(frontier'[k]), start, ToPoint(frontier'[k]))
    {
      if k < |rest| {
        assert frontier'[k] == rest[k] && rest[k] in rest;
        var j :| 0 <= j < |frontier| && frontier[j] == rest[k];
      } else {
        var n := added[k - |rest|];
        assert frontier'[k] == Node(n.x, n.y, Some(cur));
        WalkExtend(grid, Ancestry(cur), start, ToPoint(cur), n);
      }
    }
  }

  /** The marked cells stay on the grid and open, and every open neighbour of the explored
      cells, the one just taken included, is marked. */
  lemma StepMarks(grid: array2<int>, start: Pos, explored: seq<Pos>, V: set<Pos>, c: Pos, added: seq<Pos>)
    requires forall p :: p in V ==> InGrid(grid, p) && (p == start || Open(grid, p))
    requires forall x, d :: x in explored && 0 <= d < 4 && Open(grid, Neighbor(x, d)) ==> Neighbor(x, d) in V
    requires forall k :: 0 <= k < |added| ==> Open(grid, added[k])
    requires forall d :: 0 <= d < 4 && Open(grid, Neighbor(c, d)) ==> Neighbor(c, d) in V + Elems(added)
    ensures forall p :: p in V + Elems(added) ==> InGrid(grid, p) && (p == start || Open(grid, p))
    ensures forall x, d :: x in explored + [c] && 0 <= d < 4 && Open(grid, Neighbor(x, d)) ==>
      Neighbor(x, d) in V + Elems(added)
  {
  }

  /** One round that does not take the end keeps the search state, and marks more cells or
      shortens the frontier. */
  lemma SearchStep(grid: array2<int>, start: Pos, end: Pos, explored: seq<Pos>, frontier: seq<Node>,
                   V: set<Pos>, lifo: bool)
    requires Searching(grid, start, end, explored, frontier, V) && frontier != []
    requires ToPoint(Take(frontier, lifo).0) != end
    ensures var (cur, rest) := Take(frontier, lifo);
      var added := NewNeighbors(grid, V, ToPoint(cur), 4);
      && Searching(grid, start, end, explored + [ToPoint(cur)], rest + Children(cur, added), V + Elems(added))
      && (added == [] || Box(grid) - (V + Elems(added)) < Box(grid) - V)
  {
    var (cur, rest) := Take(frontier, lifo);
    var c := ToPoint(cur);
    var added := NewNeighbors(grid, V, c, 4);
    SearchTake(grid, start, end, explored, frontier, V, lifo);
    NewNeighborsFacts(grid, V, c, 4);
    StepOrder(explored, frontier, V, cur, rest, added);
    StepWalks(grid, start, frontier, cur, rest, added);
    StepMarks(grid, start, explored, V, c, added);
    if added != [] {
      assert added[0] in Elems(added);
      BoxShrinks(grid, V, Elems(added), added[0]);
    }
  }

  /** A set of cells that holds `start` and every open neighbour of its members holds every
      cell a walk from `start` reaches. */
  lemma {:induction false} ClosedHoldsWalks(grid: array2<int>, S: set<Pos>, start: Pos, w: seq<Pos>, to: Pos)
    requires start in S
    requires forall x, d :: x in S && 0 <= d < 4 && Open(grid, Neighbor(x, d)) ==> Neighbor(x, d) in S
    requires GridWalk(grid, w, start, to)
    ensures to in S
    decreases |w|
  {
    if |w| > 1 {
      var w' := w[..|w| - 1];
      ClosedHoldsWalks(grid, S, start, w', w'[|w'| - 1]);
      var d := AdjacentNeighbor(w'[|w'| - 1], to);
    }
  }

  /** The cells taken so far are distinct, begin at `start`, and all but the first are open. */
  lemma SearchDone(grid: array2<int>, start: Pos, explored: seq<Pos>, tail: seq<Pos>, V: set<Pos>)
    requires Distinct(explored + tail) && explored != [] && explored[0] == start
    requires Elems(explored) <= V && forall p :: p in V ==> InGrid(grid, p) && (p == start || Open(grid, p))
    ensures Distinct(explored) && forall i :: 0 < i < |explored| ==> Open(grid, explored[i])
  {
    assert forall i :: 0 <= i < |explored| ==> explored[i] == (explored + tail)[i];
    forall i | 0 < i < |explored|
      ensures Open(grid, explored[i])
    {
      assert explored[i] in Elems(explored);
      assert explored[i] != explored[0];
    }
  }

  /** Taking the end's node: the cells taken, the end last, are distinct, begin at `start`, and
      the node's walk reaches the end from `start`. */
  lemma SearchFound(grid: array2<int>, start: Pos, end: Pos, explored: seq<Pos>, frontier: seq<Node>,
                    V: set<Pos>, lifo: bool)
    requires Searching(grid, start, end, explored, frontier, V) && frontier != []
    requires ToPoint(Take(frontier, lifo).0) == end
    ensures var cur := Take(frontier, lifo).0;
      var explored' := explored + [end];
      && explored'[0] == start && explored'[|explored'| - 1] == end
      && Distinct(explored') && (forall i :: 0 < i < |explored'| ==> Open(grid, explored'[i]))
      && GridWalk(grid, Ancestry(cur), start, end)
  {
    var (cur, rest) := Take(frontier, lifo);
    SearchTake(grid, start, end, explored, frontier, V, lifo);
    SearchDone(grid, start, explored + [end], Points(rest), V);
  }

  /** A search whose frontier ran dry has explored every cell reachable from `start`, and the
      end is not one of them. */
  lemma SearchExhausted(grid: array2<int>, start: Pos, end: Pos, explored: seq<Pos>, V: set<Pos>)
    requires Searching(grid, start, end, explored, [], V)
    ensures explored != [] && explored[0] == start && end !in explored
    ensures Distinct(explored) && forall i :: 0 < i < |explored| ==> Open(grid, explored[i])
    ensures forall w :: !GridWalk(grid, w, start, end)
  {
    assert explored + Points([]) == explored;
    SearchDone(grid, start, explored, [], V);
    assert start in V by { assert explored[0] in Elems(explored); }
    forall w | GridWalk(grid, w, start, end)
      ensures false
    {
      ClosedHoldsWalks(grid, V, start, w, end);
    }
  }
}
