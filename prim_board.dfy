/** The state of the randomised Prim carving of Maze/MazeGenerator.java, as values: the cell
    codes of the grid as a map, the walls `tryCreatePath` carves, and the invariants the carving
    loop keeps. The methods that change the grid live in module Prim. */
module PrimBoard {
  import opened Common
  import opened Mazes
  import opened Walls
  import opened SearchState

  /** The cell codes of a `rows` x `cols` grid: `code` holds one code per in-range position. */
  datatype Board = Board(rows: int, cols: int, code: map<Pos, int>)
  {
    ghost predicate Wf()
    {
      forall p :: p in code <==> 0 <= p.x < rows && 0 <= p.y < cols
    }

    /** `isValidPosition`: strictly inside the border. */
    predicate Inside(p: Pos)
    {
      Interior(rows, cols, p.x, p.y)
    }

    /** The cell exists and holds `v`. */
    predicate Has(p: Pos, v: int)
    {
      p in code && code[p] == v
    }

    /** An interior cell that is still WALL. */
    predicate Solid(p: Pos)
    {
      Inside(p) && Has(p, WALL)
    }
  }

  /** The codes a grid holds now. */
  ghost function Snapshot(grid: array2<int>): (b: Board)
    reads grid
    ensures b.Wf() && b.rows == grid.Length0 && b.cols == grid.Length1
    ensures forall p :: p in b.code ==> b.code[p] == grid[p.x, p.y]
  {
    var b := Board(grid.Length0, grid.Length1, map p | p in Box(grid) :: grid[p.x, p.y]);
    assert forall p: Pos :: 0 <= p.x < grid.Length0 && 0 <= p.y < grid.Length1 ==> Pos(p.x, p.y) in Box(grid);
    b
  }

  /** The walls `addAdjacentWalls` appends for `p` over directions `0 .. n - 1` (up, down,
      left, right, one cell away): those that are interior and still WALL. */
  function WallsAround(b: Board, p: Pos, n: nat): seq<Wall>
  {
    if n == 0 then []
    else
      var q := Neighbor(p, n - 1);
      WallsAround(b, p, n - 1) + if b.Solid(q) then [Wall(q.x, q.y)] else []
  }

  /** The walls `addAdjacentWalls` appends for `p`: those in all four directions. */
  function AdjacentWalls(b: Board, p: Pos): seq<Wall>
  {
    WallsAround(b, p, 4)
  }

  function WallPos(w: Wall): Pos
  {
    Pos(w.row, w.col)
  }

  /** At most one wall per direction, each interior, still WALL and next to `p`, and every such
      cell in the directions passed over is listed. */
  lemma {:induction false} WallsAroundFacts(b: Board, p: Pos, n: nat)
    ensures var ws := WallsAround(b, p, n);
      && |ws| <= n
      && (forall k :: 0 <= k < |ws| ==> b.Solid(WallPos(ws[k])) && Adjacent(p, WallPos(ws[k])))
      && forall d :: 0 <= d < n && b.Solid(Neighbor(p, d)) ==> Wall(Neighbor(p, d).x, Neighbor(p, d).y) in ws
  {
    if n > 0 {
      WallsAroundFacts(b, p, n - 1);
      NeighborAdjacent(p, n - 1);
    }
  }

  /** Which side `tryCreatePath` opens through `w`, and from which side: both sides must be
      interior, one of them open (PATH) and the other still WALL. */
  function Carving(b: Board, w: Wall): Option<(Pos, Pos)>
  {
    var next, prev := w.Next(), w.Prev();
    if !b.Inside(next) || !b.Inside(prev) then None
    else if b.Has(next, WALL) && b.Has(prev, PATH) then Some((prev, next))
    else if b.Has(prev, WALL) && b.Has(next, PATH) then Some((next, prev))
    else None
  }

  /** `createConnection` on the codes: the wall cell and then the target become PATH. */
  function Carve(b: Board, w: Wall): Board
  {
    match Carving(b, w)
    case None => b
    case Some((s, t)) => b.(code := b.code[WallPos(w) := PATH][t := PATH])
  }

  /** A wall is carved exactly when its two sides are interior and exactly one is PATH while
      the other is WALL; the wall lies between them, one step from each, inside the border. */
  lemma CarvingSides(b: Board, w: Wall)
    ensures Carving(b, w).Some? <==>
      && b.Inside(w.Next()) && b.Inside(w.Prev())
      && ((b.Has(w.Next(), WALL) && b.Has(w.Prev(), PATH)) || (b.Has(w.Prev(), WALL) && b.Has(w.Next(), PATH)))
    ensures Carving(b, w).Some? ==>
      var (s, t) := Carving(b, w).value;
      && {s, t} == {w.Next(), w.Prev()}
      && b.Has(s, PATH) && b.Has(t, WALL)
      && b.Inside(WallPos(w)) && b.Inside(s) && b.Inside(t)
      && Adjacent(WallPos(w), s) && Adjacent(WallPos(w), t) && s != t
  {
    DirectionUnit(w);
  }

  /** Two steps from `p` in direction `d`: the passage cell beyond the wall cell. */
  function Far(p: Pos, d: nat): Pos
  {
    Neighbor(Neighbor(p, d), d)
  }

  /** For a cell of the odd lattice, the wall one step away in any direction separates it from
      the cell two steps away. */
  lemma WallBetween(p: Pos, d: nat)
    requires Odd(p) && d < 4
    ensures var q := Neighbor(p, d);
      {Wall(q.x, q.y).Next(), Wall(q.x, q.y).Prev()} == {p, Far(p, d)}
    ensures Odd(Far(p, d)) && !Odd(Neighbor(p, d))
  {
    var q := Neighbor(p, d);
    DirectionParity(Wall(q.x, q.y));
  }

  // ---------------------------------------------------------------------------------------
  // The invariant of the carving loop

  /** Every cell holds WALL or PATH. */
  ghost predicate TwoCodes(b: Board)
  {
    forall p :: p in b.code ==> b.code[p] == WALL || b.code[p] == PATH
  }

  /** Every border cell other than `except` is WALL. */
  ghost predicate BorderWalls(b: Board, except: Pos)
  {
    forall p :: p in b.code && OnBorder(b.rows, b.cols, p.x, p.y) && p != except ==> b.code[p] == WALL
  }

  /** `q` is an open neighbour of `p` ranked below it. */
  ghost predicate Linked(b: Board, p: Pos, q: Pos, rank: map<Pos, nat>)
  {
    b.Has(q, PATH) && Adjacent(p, q) && p in rank && q in rank && rank[q] < rank[p]
  }

  /** The open cells form a tree hanging from `root`: each other open cell has a parent, an open
      neighbour of smaller rank. */
  ghost predicate Rooted(b: Board, root: Pos, par: map<Pos, Pos>, rank: map<Pos, nat>)
  {
    && b.Has(root, PATH) && root in rank
    && forall p :: b.Has(p, PATH) && p != root ==> p in par && Linked(b, p, par[p], rank)
  }

  /** Every listed wall lies between two cells of the odd lattice. */
  ghost predicate OddSides(ws: seq<Wall>)
  {
    forall k :: 0 <= k < |ws| ==> Odd(ws[k].Next()) && Odd(ws[k].Prev())
  }

  /** An open cell off the odd lattice (a carved wall cell) has open cells on both its sides. */
  ghost predicate Bridged(b: Board)
  {
    forall q :: b.Has(q, PATH) && !Odd(q) ==> b.Has(Wall(q.x, q.y).Next(), PATH) && b.Has(Wall(q.x, q.y).Prev(), PATH)
  }

  /** An open interior cell of the odd lattice whose cell two steps away in direction `d` is
      interior and still WALL: the wall between them is still to be tried. */
  ghost predicate Pending(b: Board, p: Pos, d: nat)
  {
    d < 4 && Odd(p) && b.Inside(p) && b.Has(p, PATH) && b.Inside(Far(p, d)) && b.Has(Far(p, d), WALL)
  }

  /** Every wall still to be tried is on the list. */
  ghost predicate Listed(b: Board, ws: seq<Wall>)
  {
    forall p, d :: Pending(b, p, d) ==> Wall(Neighbor(p, d).x, Neighbor(p, d).y) in ws
  }

  /** The state `processWalls` keeps: well-formed codes, WALL or PATH only, a closed border
      (the start aside), every open cell hanging from the start, which sits on the odd lattice,
      and every wall still to be tried on the list `ws`. */
  ghost predicate Carved(b: Board, root: Pos, par: map<Pos, Pos>, rank: map<Pos, nat>, ws: seq<Wall>)
  {
    && b.Wf() && TwoCodes(b) && BorderWalls(b, root) && Rooted(b, root, par, rank) && Odd(root)
    && OddSides(ws) && Bridged(b) && Listed(b, ws)
  }

  /** The cells still WALL; carving only removes cells from it. */
  ghost function WallCells(b: Board): set<Pos>
  {
    set p | p in b.code && b.code[p] == WALL
  }

  /** Every cell open in `b` is open in `b'`. */
  ghost predicate Grows(b: Board, b': Board)
  {
    forall p :: b.Has(p, PATH) ==> b'.Has(p, PATH)
  }

  lemma GrowsTrans(b1: Board, b2: Board, b3: Board)
    requires Grows(b1, b2) && Grows(b2, b3)
    ensures Grows(b1, b3)
  {
  }

  // ---------------------------------------------------------------------------------------
  // One round of the loop

  /** The tree after carving from `s` through the wall cell `w` to `t`: `w`, if it was WALL,
      hangs from `s`, and `t` hangs from `w`. */
  ghost function GraftParents(par: map<Pos, Pos>, w: Pos, s: Pos, t: Pos, wasWall: bool): map<Pos, Pos>
  {
    if wasWall then par[w := s][t := w] else par[t := w]
  }

  ghost function GraftRanks(rank: map<Pos, nat>, w: Pos, s: Pos, t: Pos, wasWall: bool): map<Pos, nat>
    requires s in rank && (wasWall || w in rank)
  {
    if wasWall then rank[w := rank[s] + 1][t := rank[s] + 2] else rank[t := rank[w] + 1]
  }

  /** A carving keeps the codes well formed, two-valued and the border closed, opens cells
      only, and leaves fewer WALL cells; no carving changes nothing. */
  lemma RoundCodes(b: Board, root: Pos, wall: Wall)
    requires b.Wf() && TwoCodes(b) && BorderWalls(b, root)
    ensures var b' := Carve(b, wall);
      && b'.Wf() && TwoCodes(b') && BorderWalls(b', root) && Grows(b, b')
      && (Carving(b, wall).Some? ==> WallCells(b') < WallCells(b))
      && (Carving(b, wall).None? ==> b' == b)
  {
    CarvingSides(b, wall);
    if Carving(b, wall).Some? {
      var (s, t) := Carving(b, wall).value;
      var b' := Carve(b, wall);
      assert t in WallCells(b) && t !in WallCells(b');
      assert WallCells(b') <= WallCells(b);
    }
  }

  /** A carving hangs the wall cell (if it was WALL) from the open side and the target from
      the wall cell; the tree stays rooted at the start. */
  lemma RoundTree(b: Board, root: Pos, par: map<Pos, Pos>, rank: map<Pos, nat>, wall: Wall)
    returns (par': map<Pos, Pos>, rank': map<Pos, nat>)
    requires b.Wf() && TwoCodes(b) && Rooted(b, root, par, rank)
    ensures Rooted(Carve(b, wall), root, par', rank')
  {
    CarvingSides(b, wall);
    if Carving(b, wall).None? {
      return par, rank;
    }
    var (s, t) := Carving(b, wall).value;
    var w := WallPos(wall);
    var wasWall := b.Has(w, WALL);
    var b' := Carve(b, wall);
    assert w in b.code;
    assert !wasWall ==> b.Has(w, PATH);
    assert t != root && (wasWall ==> w != root);
    assert s in rank && (wasWall || w in rank);
    par', rank' := GraftParents(par, w, s, t, wasWall), GraftRanks(rank, w, s, t, wasWall);
    forall p | b'.Has(p, PATH) && p != root
      ensures p in par' && Linked(b', p, par'[p], rank')
    {
      if p == t {
        assert par'[p] == w;
      } else if wasWall && p == w {
        assert par'[p] == s;
      } else {
        assert b.code[p] == b'.code[p];
        var q := par[p];
        assert par'[p] == q && rank'[p] == rank[p] && rank'[q] == rank[q];
      }
    }
  }

  /** Taking one wall out of the list keeps every other wall on it. */
  lemma RemoveKeeps(ws: seq<Wall>, i: nat, x: Wall)
    requires i < |ws| && x in ws && x != ws[i]
    ensures x in ws[..i] + ws[i + 1..]
  {
    var k :| 0 <= k < |ws| && ws[k] == x;
    if k < i {
      assert (ws[..i] + ws[i + 1..])[k] == x;
    } else {
      assert (ws[..i] + ws[i + 1..])[k - 1] == x;
    }
  }

  /** The walls listed around an open cell of the odd lattice lie between lattice cells. */
  lemma AroundOddSides(b: Board, t: Pos)
    requires Odd(t)
    ensures OddSides(AdjacentWalls(b, t))
  {
    var ws := AdjacentWalls(b, t);
    WallsAroundFacts(b, t, 4);
    forall k | 0 <= k < |ws|
      ensures Odd(ws[k].Next()) && Odd(ws[k].Prev())
    {
      var d := AdjacentNeighbor(t, WallPos(ws[k]));
      WallBetween(t, d);
    }
  }

  /** Taking a wall out of, or appending walls around a lattice cell to, a list of walls
      between lattice cells leaves walls between lattice cells. */
  lemma RestOddSides(ws: seq<Wall>, i: nat, rest: seq<Wall>)
    requires OddSides(ws) && i < |ws| && rest == ws[..i] + ws[i + 1..]
    ensures OddSides(rest)
  {
    forall k | 0 <= k < |rest|
      ensures Odd(rest[k].Next()) && Odd(rest[k].Prev())
    {
      if k < i { assert rest[k] == ws[k]; } else { assert rest[k] == ws[k + 1]; }
    }
  }

  lemma AppendOddSides(rest: seq<Wall>, b: Board, t: Pos)
    requires OddSides(rest) && Odd(t)
    ensures OddSides(rest + AdjacentWalls(b, t))
  {
    var added := AdjacentWalls(b, t);
    var ws' := rest + added;
    AroundOddSides(b, t);
    forall k | 0 <= k < |ws'|
      ensures Odd(ws'[k].Next()) && Odd(ws'[k].Prev())
    {
      if k < |rest| { assert ws'[k] == rest[k]; } else { assert ws'[k] == added[k - |rest|]; }
    }
  }

  /** A wall cell between two lattice cells is not itself on the lattice. */
  lemma WallOffLattice(wall: Wall)
    requires Odd(wall.Next())
    ensures !Odd(WallPos(wall))
  {
    DirectionUnit(wall);
  }

  /** Carving a wall between lattice cells opens it together with both its sides, so open
      wall cells keep bridging open cells. */
  lemma RoundBridged(b: Board, wall: Wall)
    requires b.Wf() && Bridged(b) && Odd(wall.Next()) && Odd(wall.Prev())
    ensures Bridged(Carve(b, wall))
  {
    CarvingSides(b, wall);
    if Carving(b, wall).Some? {
      var b' := Carve(b, wall);
      var w := WallPos(wall);
      WallOffLattice(wall);
      assert Wall(w.x, w.y) == wall;
      forall q | b'.Has(q, PATH) && !Odd(q)
        ensures b'.Has(Wall(q.x, q.y).Next(), PATH) && b'.Has(Wall(q.x, q.y).Prev(), PATH)
      {
        if q != w {
          assert b.Has(q, PATH);
        }
      }
    }
  }

  /** A wall that is not carved was not still to be tried, so the rest of the list still
      holds every wall that is. */
  lemma RoundListedNone(b: Board, ws: seq<Wall>, i: nat, rest: seq<Wall>)
    requires Listed(b, ws) && i < |ws| && rest == ws[..i] + ws[i + 1..] && Carving(b, ws[i]).None?
    ensures Listed(b, rest)
  {
    forall p, d | Pending(b, p, d)
      ensures Wall(Neighbor(p, d).x, Neighbor(p, d).y) in rest
    {
      var q := Neighbor(p, d);
      WallBetween(p, d);
      CarvingSides(b, Wall(q.x, q.y));
      RemoveKeeps(ws, i, Wall(q.x, q.y));
    }
  }

  /** A wall still to be tried around an open lattice cell is interior and still WALL (an
      open one would bridge to the WALL cell beyond), so `addAdjacentWalls` lists it. */
  lemma PendingAround(b: Board, t: Pos, d: nat)
    requires b.Wf() && TwoCodes(b) && Bridged(b) && Pending(b, t, d)
    ensures Wall(Neighbor(t, d).x, Neighbor(t, d).y) in AdjacentWalls(b, t)
  {
    var q := Neighbor(t, d);
    WallBetween(t, d);
    assert b.Inside(q) && !b.Has(q, PATH);
    WallsAroundFacts(b, t, 4);
  }

  /** After a carving to `t`, a wall still to be tried is either around `t`, and so among the
      walls appended, or was still to be tried before and is not the one just carved. */
  lemma RoundListedSome(b: Board, ws: seq<Wall>, i: nat, rest: seq<Wall>)
    requires b.Wf() && Listed(b, ws) && i < |ws| && rest == ws[..i] + ws[i + 1..] && Carving(b, ws[i]).Some?
    requires var b' := Carve(b, ws[i]); b'.Wf() && TwoCodes(b') && Bridged(b') && Odd(ws[i].Next())
    ensures var b' := Carve(b, ws[i]); Listed(b', rest + AdjacentWalls(b', Carving(b, ws[i]).value.1))
  {
    var wall := ws[i];
    var b' := Carve(b, wall);
    CarvingSides(b, wall);
    var (s, t) := Carving(b, wall).value;
    var w := WallPos(wall);
    WallOffLattice(wall);
    var added := AdjacentWalls(b', t);
    forall p, d | Pending(b', p, d)
      ensures Wall(Neighbor(p, d).x, Neighbor(p, d).y) in rest + added
    {
      var q := Neighbor(p, d);
      if p == t {
        PendingAround(b', t, d);
      } else {
        WallBetween(p, d);
        assert p != w && Pending(b, p, d);
        RemoveKeeps(ws, i, Wall(q.x, q.y));
      }
    }
  }

  /** After a round, every wall still to be tried is on the new list, which lies between
      lattice cells, and open wall cells still bridge open cells. */
  lemma RoundListed(b: Board, root: Pos, ws: seq<Wall>, i: nat, rest: seq<Wall>)
    requires b.Wf() && TwoCodes(b) && BorderWalls(b, root) && OddSides(ws) && Bridged(b) && Listed(b, ws)
    requires i < |ws| && rest == ws[..i] + ws[i + 1..]
    ensures var b' := Carve(b, ws[i]);
      var ws' := rest + if Carving(b, ws[i]).Some? then AdjacentWalls(b', Carving(b, ws[i]).value.1) else [];
      OddSides(ws') && Bridged(b') && Listed(b', ws')
  {
    var wall := ws[i];
    assert Odd(wall.Next()) && Odd(wall.Prev());
    RestOddSides(ws, i, rest);
    RoundBridged(b, wall);
    RoundCodes(b, root, wall);
    if Carving(b, wall).None? {
      RoundListedNone(b, ws, i, rest);
      assert rest + [] == rest;
    } else {
      CarvingSides(b, wall);
      AppendOddSides(rest, Carve(b, wall), Carving(b, wall).value.1);
      RoundListedSome(b, ws, i, rest);
    }
  }

  /** One round of `processWalls` on the codes: the loop's state is kept, with the wall drawn
      from the list and the walls around a newly opened cell appended; either fewer cells are
      WALL, or nothing changed and the list is shorter. */
  lemma Round(b: Board, root: Pos, par: map<Pos, Pos>, rank: map<Pos, nat>, ws: seq<Wall>, i: nat, rest: seq<Wall>)
    returns (par': map<Pos, Pos>, rank': map<Pos, nat>)
    requires Carved(b, root, par, rank, ws) && i < |ws| && rest == ws[..i] + ws[i + 1..]
    ensures var b' := Carve(b, ws[i]);
      var ws' := rest + if Carving(b, ws[i]).Some? then AdjacentWalls(b', Carving(b, ws[i]).value.1) else [];
      && Carved(b', root, par', rank', ws') && Grows(b, b')
      && (WallCells(b') < WallCells(b) || (b' == b && ws' == rest))
  {
    RoundCodes(b, root, ws[i]);
    par', rank' := RoundTree(b, root, par, rank, ws[i]);
    RoundListed(b, root, ws, i, rest);
  }

  // ---------------------------------------------------------------------------------------
  // What the finished carving guarantees

  /** `w` steps from `from` to `to` through cells none of which is WALL. */
  ghost predicate Passage(b: Board, w: seq<Pos>, from: Pos, to: Pos)
  {
    && w != [] && w[0] == from && w[|w| - 1] == to
    && (forall i :: 0 <= i < |w| ==> w[i] in b.code && b.code[w[i]] != WALL)
    && (forall i :: 0 < i < |w| ==> Adjacent(w[i - 1], w[i]))
  }

  /** Every PATH cell is reached from `root` by a passage. */
  ghost predicate Connected(b: Board, root: Pos)
  {
    forall p :: b.Has(p, PATH) ==> exists w :: Passage(b, w, root, p)
  }

  /** A passage extends by one open neighbour of its last cell. */
  lemma PassageExtend(b: Board, w: seq<Pos>, from: Pos, q: Pos, p: Pos)
    requires Passage(b, w, from, q) && p in b.code && b.code[p] != WALL && Adjacent(q, p)
    ensures Passage(b, w + [p], from, p)
  {
    var w' := w + [p];
    assert forall i :: 0 <= i < |w| ==> w'[i] == w[i];
  }

  /** Following parents from an open cell leads back to the root. */
  lemma {:induction false} WalkBack(b: Board, root: Pos, par: map<Pos, Pos>, rank: map<Pos, nat>, p: Pos)
    requires Rooted(b, root, par, rank) && b.Has(p, PATH)
    ensures exists w :: Passage(b, w, root, p)
    decreases if p in rank then rank[p] else 0
  {
    if p == root {
      assert Passage(b, [root], root, p);
    } else {
      var q := par[p];
      WalkBack(b, root, par, rank, q);
      var w :| Passage(b, w, root, q);
      PassageExtend(b, w, root, q, p);
    }
  }

  lemma RootedConnected(b: Board, root: Pos, par: map<Pos, Pos>, rank: map<Pos, nat>)
    requires Rooted(b, root, par, rank)
    ensures Connected(b, root)
  {
    forall p | b.Has(p, PATH)
      ensures exists w :: Passage(b, w, root, p)
    {
      WalkBack(b, root, par, rank, p);
    }
  }

  /** The direction opposite to `d`. */
  function Back(d: nat): nat
  {
    if d == 0 then 1 else if d == 1 then 0 else if d == 2 then 3 else 2
  }

  /** From an interior lattice cell other than the start, two steps towards the start lead to
      an interior lattice cell nearer to it. */
  lemma StepToward(b: Board, root: Pos, p: Pos) returns (d: nat)
    requires Odd(root) && b.Inside(root) && Odd(p) && b.Inside(p) && p != root
    ensures d < 4 && Odd(Far(p, d)) && b.Inside(Far(p, d)) && Far(Far(p, d), Back(d)) == p
    ensures Manhattan(Far(p, d).x, Far(p, d).y, root.x, root.y) < Manhattan(p.x, p.y, root.x, root.y)
  {
    d := if p.x > root.x then 0 else if p.x < root.x then 1 else if p.y > root.y then 2 else 3;
    WallBetween(p, d);
  }

  /** With nothing left to try, every interior cell of the odd lattice is open, provided the
      start is one of them: walking from the start two cells at a time, each cell reached is
      open, so the wall to the next one was tried and the next one opened. */
  lemma {:induction false} LatticeOpen(b: Board, root: Pos, p: Pos)
    requires b.Wf() && TwoCodes(b) && Listed(b, []) && Odd(root) && b.Inside(root) && b.Has(root, PATH)
    requires Odd(p) && b.Inside(p)
    ensures b.Has(p, PATH)
    decreases Manhattan(p.x, p.y, root.x, root.y)
  {
    if p != root {
      var d := StepToward(b, root, p);
      var p' := Far(p, d);
      LatticeOpen(b, root, p');
      assert !Pending(b, p', Back(d));
    }
  }

  /** The loop's state with nothing left to try: every interior lattice cell is open and
      reached from the start. */
  lemma Finished(b: Board, root: Pos, par: map<Pos, Pos>, rank: map<Pos, nat>)
    requires Carved(b, root, par, rank, [])
    ensures Connected(b, root)
    ensures b.Inside(root) ==> forall p :: Odd(p) && b.Inside(p) ==> b.Has(p, PATH)
  {
    RootedConnected(b, root, par, rank);
    if b.Inside(root) {
      forall p | Odd(p) && b.Inside(p)
        ensures b.Has(p, PATH)
      {
        LatticeOpen(b, root, p);
      }
    }
  }

  /** The state before the loop: every cell WALL except the start, with the walls around it
      on the list. */
  lemma Seeded(b: Board, root: Pos)
    requires b.Wf() && root in b.code && Odd(root)
    requires forall p :: p in b.code ==> b.code[p] == if p == root then PATH else WALL
    ensures Carved(b, root, map[], map[root := 0], AdjacentWalls(b, root))
  {
    var ws := AdjacentWalls(b, root);
    AroundOddSides(b, root);
    WallsAroundFacts(b, root, 4);
    forall p, d | Pending(b, p, d)
      ensures Wall(Neighbor(p, d).x, Neighbor(p, d).y) in ws
    {
      assert p == root;
      WallBetween(p, d);
      assert b.Solid(Neighbor(p, d));
    }
  }

  // ---------------------------------------------------------------------------------------
  // Marking the start and the end

  /** Reversing a passage gives a passage the other way. */
  lemma PassageReverse(b: Board, w: seq<Pos>, from: Pos, to: Pos) returns (w': seq<Pos>)
    requires Passage(b, w, from, to)
    ensures Passage(b, w', to, from) && |w'| == |w|
  {
    w' := seq(|w|, i requires 0 <= i < |w| => w[|w| - 1 - i]);
    forall i | 0 < i < |w'|
      ensures Adjacent(w'[i - 1], w'[i])
    {
      assert Adjacent(w[|w| - 1 - i], w[|w| - i]);
    }
  }

  /** Two passages meeting at a cell join into one. */
  lemma PassageJoin(b: Board, w1: seq<Pos>, from: Pos, mid: Pos, w2: seq<Pos>, to: Pos)
    requires Passage(b, w1, from, mid) && Passage(b, w2, mid, to)
    ensures Passage(b, w1 + w2[1..], from, to)
  {
    var w := w1 + w2[1..];
    assert forall i :: 0 <= i < |w1| ==> w[i] == w1[i];
    assert forall i :: |w1| <= i < |w| ==> w[i] == w2[i - |w1| + 1];
    forall i | 0 < i < |w|
      ensures Adjacent(w[i - 1], w[i])
    {
      if i == |w1| {
        assert w[i - 1] == w2[0];
      }
    }
  }

  /** Giving a cell a code other than WALL keeps every passage a passage. */
  lemma PassageRecode(b: Board, p: Pos, v: int, w: seq<Pos>, from: Pos, to: Pos)
    requires Passage(b, w, from, to) && p in b.code && v != WALL
    ensures Passage(b.(code := b.code[p := v]), w, from, to)
  {
  }

  /** `setStartAndEndPoints` on the codes: START at the top-left interior corner, then END at
      the bottom-right one. */
  function Marked(b: Board): Board
  {
    b.(code := b.code[Pos(1, 1) := START][Pos(b.rows - 2, b.cols - 2) := END])
  }

  /** What `generate` leaves, for a maze carved from `root`: only START (at the top-left
      interior corner) and END (at the bottom-right one) hold codes other than WALL and PATH;
      every PATH cell is reached from `root`; with at least three rows and columns the border
      is closed; and with odd sides `root` is interior, every interior cell with two odd
      coordinates is open and a passage leads from START to END. */
  ghost predicate Generated(b: Board, root: Pos)
  {
    var start, end := Pos(1, 1), Pos(b.rows - 2, b.cols - 2);
    && b.Wf()
    && b.Has(end, END) && (start != end ==> b.Has(start, START))
    && (forall p :: p in b.code && p != start && p != end ==> b.code[p] == WALL || b.code[p] == PATH)
    && Connected(b, root)
    && (b.rows >= 3 && b.cols >= 3 ==> BorderWalls(b, root))
    && (b.rows % 2 == 1 && b.cols % 2 == 1 && b.rows >= 3 && b.cols >= 3 ==>
          && b.Inside(root)
          && (forall p :: Odd(p) && b.Inside(p) && p != start && p != end ==> b.Has(p, PATH))
          && exists w :: Passage(b, w, start, end))
  }

  /** Marking START and END keeps every PATH cell reached from `root`. */
  lemma MarkedConnected(c: Board, root: Pos)
    requires Connected(c, root) && Pos(1, 1) in c.code && Pos(c.rows - 2, c.cols - 2) in c.code
    ensures Connected(Marked(c), root)
  {
    var start, end := Pos(1, 1), Pos(c.rows - 2, c.cols - 2);
    var c1 := c.(code := c.code[start := START]);
    var b := Marked(c);
    assert b == c1.(code := c1.code[end := END]);
    forall p | b.Has(p, PATH)
      ensures exists w :: Passage(b, w, root, p)
    {
      assert c.Has(p, PATH);
      var w :| Passage(c, w, root, p);
      PassageRecode(c, start, START, w, root, p);
      PassageRecode(c1, end, END, w, root, p);
    }
  }

  /** With odd sides and every interior lattice cell open, a passage joins the two corners
      through the start of the carving, and it stays one once they are marked. */
  lemma MarkedPassage(c: Board, root: Pos, b: Board)
    requires c.Wf() && c.rows % 2 == 1 && c.cols % 2 == 1 && c.rows >= 3 && c.cols >= 3
    requires Connected(c, root) && forall p :: Odd(p) && c.Inside(p) ==> c.Has(p, PATH)
    requires b == Marked(c)
    ensures var start, end := Pos(1, 1), Pos(c.rows - 2, c.cols - 2); exists w :: Passage(b, w, start, end)
  {
    var start, end := Pos(1, 1), Pos(c.rows - 2, c.cols - 2);
    var c1 := c.(code := c.code[start := START]);
    assert Marked(c) == c1.(code := c1.code[end := END]);
    assert Odd(start) && Odd(end) && c.Inside(start) && c.Inside(end);
    var w1 :| Passage(c, w1, root, start);
    var w2 :| Passage(c, w2, root, end);
    var r1 := PassageReverse(c, w1, root, start);
    PassageJoin(c, r1, start, root, w2, end);
    var w := r1 + w2[1..];
    PassageRecode(c, start, START, w, start, end);
    PassageRecode(c1, end, END, w, start, end);
  }

  /** What a finished carving from `root` leaves: only WALL and PATH, a closed border, every
      open cell connected to `root`, and, when `root` is interior, the whole interior odd
      lattice open. */
  ghost predicate Opened(c: Board, root: Pos)
  {
    && c.Wf() && TwoCodes(c) && BorderWalls(c, root) && c.Has(root, PATH) && Connected(c, root)
    && (c.Inside(root) ==> forall p :: Odd(p) && c.Inside(p) ==> c.Has(p, PATH))
  }

  /** Marking START and END on a finished carving gives a generated maze. */
  lemma MarkedFacts(c: Board, root: Pos)
    requires Opened(c, root) && c.rows >= 2 && c.cols >= 2
    requires c.rows % 2 == 1 && c.cols % 2 == 1 && c.rows >= 3 && c.cols >= 3 ==> c.Inside(root)
    ensures Generated(Marked(c), root)
  {
    MarkedConnected(c, root);
    if c.rows % 2 == 1 && c.cols % 2 == 1 && c.rows >= 3 && c.cols >= 3 {
      MarkedPassage(c, root, Marked(c));
    }
  }
}
