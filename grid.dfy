/** The grid of `Cell` objects the path algorithms search, its 4-connected walks and their costs.
    The searches never change terrain, so their invariants are stated over a ghost picture of the
    grid (a `Board`) taken when the search starts. */
module Grids {
  import opened Common
  import opened Cells

  /** A picture of a grid: its cells and their terrain codes, row by row. */
  datatype Board = Board(cells: seq<seq<Cell>>, terrain: seq<seq<int>>)

  ghost function CellSet(grid: array2<Cell>): set<Cell>
    reads grid
  {
    set i, j | 0 <= i < grid.Length0 && 0 <= j < grid.Length1 :: grid[i, j]
  }

  /** `b` shows `grid` as it is now: the same cells in the same places, each knowing its own
      coordinates, with their current terrain. */
  ghost predicate Pictures(grid: array2<Cell>, b: Board)
    reads grid, BoardCells(b)`terrain
  {
    && |b.cells| == grid.Length0 && |b.terrain| == grid.Length0
    && (forall i :: 0 <= i < grid.Length0 ==> |b.cells[i]| == grid.Length1 && |b.terrain[i]| == grid.Length1)
    && (forall i, j :: 0 <= i < grid.Length0 && 0 <= j < grid.Length1 ==>
          b.cells[i][j] == grid[i, j] && grid[i, j].r == i && grid[i, j].c == j)
    && ShowsTerrain(b)
  }

  /** Every cell of `b` has the terrain `b` shows for it. */
  ghost predicate ShowsTerrain(b: Board)
    reads BoardCells(b)`terrain
  {
    forall i, j :: 0 <= i < |b.cells| && 0 <= j < |b.cells[i]| && i < |b.terrain| && j < |b.terrain[i]| ==>
      b.terrain[i][j] == b.cells[i][j].terrain
  }

  /** The shape of a picture: a terrain code for every cell, and every cell at its own coordinates. */
  ghost predicate Consistent(b: Board)
  {
    && |b.terrain| == |b.cells|
    && (forall i :: 0 <= i < |b.cells| ==> |b.terrain[i]| == |b.cells[i]|)
    && (forall i, j :: 0 <= i < |b.cells| && 0 <= j < |b.cells[i]| ==> b.cells[i][j].r == i && b.cells[i][j].c == j)
  }

  ghost predicate OnBoard(b: Board, x: Cell)
  {
    && 0 <= x.r < |b.cells| && x.r < |b.terrain| && 0 <= x.c < |b.cells[x.r]| && x.c < |b.terrain[x.r]|
    && b.cells[x.r][x.c] == x
  }

  ghost function BoardCells(b: Board): set<Cell>
  {
    set i, j | 0 <= i < |b.cells| && 0 <= j < |b.cells[i]| :: b.cells[i][j]
  }

  ghost function Tile(b: Board, x: Cell): int
    requires OnBoard(b, x)
  {
    b.terrain[x.r][x.c]
  }

  /** The weight of a cell of the board. */
  ghost function W(b: Board, x: Cell): nat
    requires OnBoard(b, x)
  {
    Weight(Tile(b, x))
  }

  lemma PicturesConsistent(grid: array2<Cell>, b: Board)
    requires Pictures(grid, b)
    ensures Consistent(b)
  {
  }

  /** A cell of a pictured board is a cell of the grid, with the terrain the board shows. */
  lemma PicturedCell(grid: array2<Cell>, b: Board, x: Cell)
    requires Pictures(grid, b) && OnBoard(b, x)
    ensures x in CellSet(grid) && x.terrain == Tile(b, x)
  {
    assert x == grid[x.r, x.c];
  }

  lemma OnBoardCells(b: Board, x: Cell)
    requires OnBoard(b, x)
    ensures x in BoardCells(b)
  {
    assert x == b.cells[x.r][x.c];
  }

  /** One orthogonal step apart. */
  predicate Adjacent(x: Cell, y: Cell)
  {
    Abs(x.r - y.r) + Abs(x.c - y.c) == 1
  }

  /** `y` may be entered from `x`: an orthogonal neighbour on the board that is not a wall. */
  ghost predicate Step(b: Board, x: Cell, y: Cell)
  {
    OnBoard(b, y) && Adjacent(x, y) && Tile(b, y) != WALL
  }

  /** `w` is a 4-connected walk from `from` to `to` over the board, entering no wall. */
  ghost predicate IsWalk(b: Board, older w: seq<Cell>, from: Cell, to: Cell)
  {
    && |w| > 0 && w[0] == from && w[|w| - 1] == to
    && (forall i :: 0 <= i < |w| ==> OnBoard(b, w[i]))
    && (forall i :: 0 < i < |w| ==> Step(b, w[i - 1], w[i]))
  }

  ghost predicate AllOnBoard(b: Board, path: seq<Cell>)
  {
    forall i :: 0 <= i < |path| ==> OnBoard(b, path[i])
  }

  /** The sum of the weights of the cells of `path`, its first cell included. */
  ghost function PathCost(b: Board, path: seq<Cell>): nat
    requires AllOnBoard(b, path)
  {
    if path == [] then 0 else PathCost(b, path[..|path| - 1]) + W(b, path[|path| - 1])
  }

  lemma {:induction false} PathCostAppend(b: Board, p: seq<Cell>, q: seq<Cell>)
    requires AllOnBoard(b, p) && AllOnBoard(b, q)
    ensures AllOnBoard(b, p + q)
    ensures PathCost(b, p + q) == PathCost(b, p) + PathCost(b, q)
    decreases |q|
  {
    assert forall i :: 0 <= i < |p + q| ==> (p + q)[i] == if i < |p| then p[i] else q[i - |p|];
    if q == [] {
      assert p + q == p;
    } else {
      var q' := q[..|q| - 1];
      assert (p + q)[..|p + q| - 1] == p + q';
      PathCostAppend(b, p, q');
    }
  }

  /** Every weight is at least 1, so a path costs at least as much as it has cells. */
  lemma {:induction false} PathCostAtLeastLength(b: Board, path: seq<Cell>)
    requires AllOnBoard(b, path)
    ensures PathCost(b, path) >= |path|
    decreases |path|
  {
    if path != [] {
      PathCostAtLeastLength(b, path[..|path| - 1]);
    }
  }

  // ---------------------------------------------------------------------------
  // The neighbours of a cell
  // ---------------------------------------------------------------------------

  /** The row and column offsets in the fixed order up, down, left, right. */
  const DR: seq<int> := [-1, 1, 0, 0]
  const DC: seq<int> := [0, 0, -1, 1]

  /** What direction `k` contributes: the cell at that offset when it is on the board and is not
      a wall. */
  ghost function Probe(b: Board, x: Cell, k: nat): seq<Cell>
    requires k < 4
  {
    var nr, nc := x.r + DR[k], x.c + DC[k];
    if 0 <= nr < |b.cells| && nr < |b.terrain| && 0 <= nc < |b.cells[nr]| && nc < |b.terrain[nr]|
       && b.terrain[nr][nc] != WALL
    then [b.cells[nr][nc]] else []
  }

  /** What the first `k` directions contribute, in direction order. */
  ghost function NeighborsUpTo(b: Board, x: Cell, k: nat): seq<Cell>
    requires k <= 4
  {
    if k == 0 then [] else NeighborsUpTo(b, x, k - 1) + Probe(b, x, k - 1)
  }

  /** The neighbour list: the up, down, left and right probes, in that order. */
  ghost function Neighbors(b: Board, x: Cell): seq<Cell>
  {
    NeighborsUpTo(b, x, 4)
  }

  lemma ProbeSpec(b: Board, x: Cell, k: nat)
    requires Consistent(b) && k < 4
    ensures |Probe(b, x, k)| <= 1
    ensures forall y :: y in Probe(b, x, k) <==> Step(b, x, y) && y.r == x.r + DR[k] && y.c == x.c + DC[k]
  {
  }

  lemma NeighborsUnfold(b: Board, x: Cell)
    ensures Neighbors(b, x) == Probe(b, x, 0) + Probe(b, x, 1) + Probe(b, x, 2) + Probe(b, x, 3)
  {
    assert NeighborsUpTo(b, x, 1) == [] + Probe(b, x, 0) == Probe(b, x, 0);
    assert NeighborsUpTo(b, x, 2) == Probe(b, x, 0) + Probe(b, x, 1);
    assert NeighborsUpTo(b, x, 3) == Probe(b, x, 0) + Probe(b, x, 1) + Probe(b, x, 2);
  }

  /** The neighbours are exactly the on-board, non-wall, orthogonally adjacent cells, at most
      four of them. */
  lemma NeighborsSpec(b: Board, x: Cell)
    requires Consistent(b)
    ensures |Neighbors(b, x)| <= 4
    ensures forall y :: y in Neighbors(b, x) <==> Step(b, x, y)
  {
    NeighborsUnfold(b, x);
    ProbeSpec(b, x, 0);
    ProbeSpec(b, x, 1);
    ProbeSpec(b, x, 2);
    ProbeSpec(b, x, 3);
  }

  /** Every neighbour list of `G` names keys of `G`. */
  ghost predicate Closed(G: map<Cell, seq<Cell>>)
  {
    forall x :: x in G ==> forall y :: y in G[x] ==> y in G
  }

  /** `G` maps exactly the cells of the board to their neighbour lists. The searches state their
      invariants over such a map, so that a neighbour list is a lookup. */
  ghost predicate AdjacencyOf(b: Board, G: map<Cell, seq<Cell>>)
  {
    && (forall i, j :: 0 <= i < |b.cells| && 0 <= j < |b.cells[i]| ==> b.cells[i][j] in G)
    && (forall x :: x in G ==> OnBoard(b, x))
    && Closed(G)
    && (forall x {:trigger Neighbors(b, x)} :: x in G ==> G[x] == Neighbors(b, x))
  }

  /** The neighbour list of every cell of the board, computed once. */
  ghost function Adjacency(b: Board): map<Cell, seq<Cell>>
  {
    map x | x in BoardCells(b) :: Neighbors(b, x)
  }

  lemma AdjacencyExists(b: Board)
    requires Consistent(b)
    ensures AdjacencyOf(b, Adjacency(b))
  {
    AdjacencyCovers(b);
    AdjacencyClosed(b);
  }

  lemma AdjacencyCovers(b: Board)
    ensures forall i, j :: 0 <= i < |b.cells| && 0 <= j < |b.cells[i]| ==> b.cells[i][j] in Adjacency(b)
  {
    forall i, j | 0 <= i < |b.cells| && 0 <= j < |b.cells[i]|
      ensures b.cells[i][j] in Adjacency(b)
    {
      assert b.cells[i][j] in BoardCells(b);
    }
  }

  lemma AdjacencyClosed(b: Board)
    requires Consistent(b)
    ensures Closed(Adjacency(b))
  {
    var G := Adjacency(b);
    forall x | x in G
      ensures forall y :: y in G[x] ==> y in G
    {
      NeighborsSpec(b, x);
      assert G[x] == Neighbors(b, x);
      forall y | y in G[x]
        ensures y in G
      {
        assert Step(b, x, y);
        OnBoardCells(b, y);
      }
    }
  }

  /** A cell of the board is a key of its adjacency map. */
  lemma AdjacencyHas(b: Board, G: map<Cell, seq<Cell>>, x: Cell)
    requires AdjacencyOf(b, G) && OnBoard(b, x)
    ensures x in G
  {
    assert x == b.cells[x.r][x.c];
  }

  /** The adjacency lists hold exactly the steps out of each cell, at most four. */
  lemma AdjacencyStep(b: Board, G: map<Cell, seq<Cell>>, x: Cell)
    requires Consistent(b) && AdjacencyOf(b, G) && x in G
    ensures |G[x]| <= 4
    ensures forall y :: y in G[x] <==> Step(b, x, y)
  {
    NeighborsSpec(b, x);
    assert G[x] == Neighbors(b, x);
  }

  /** An adjacency map for a pictured grid, whose keys are cells of the grid. */
  lemma ChooseAdjacency(grid: array2<Cell>, b: Board) returns (G: map<Cell, seq<Cell>>)
    requires Pictures(grid, b)
    ensures AdjacencyOf(b, G) && G.Keys <= CellSet(grid)
  {
    PicturesConsistent(grid, b);
    AdjacencyExists(b);
    G := Adjacency(b);
    AdjacencyInGrid(grid, b, G);
  }

  /** The keys of the adjacency map of a pictured grid are cells of the grid. */
  lemma AdjacencyInGrid(grid: array2<Cell>, b: Board, G: map<Cell, seq<Cell>>)
    requires Pictures(grid, b) && AdjacencyOf(b, G)
    ensures G.Keys <= CellSet(grid)
  {
    forall x | x in G
      ensures x in CellSet(grid)
    {
      PicturedCell(grid, b, x);
    }
  }
}
