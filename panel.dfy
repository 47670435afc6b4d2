/** Maze/MazePanel.java: the panel's 35 x 45 grid of `Cell`s, the maze `generateMaze` builds on
    it (a Prim carving over cells two apart, braiding holes, two forced corridors and terrain
    weights) and the resets `resetPath` and `compareAlgorithms` run. Each phase is proved to
    leave the terrain codes the matching function of PanelTiles gives; what those codes satisfy
    is proved there. */
module Panel {
  import opened Common
  import opened Cells
  import opened Grids
  import opened PathAlgorithms
  import opened BestFirst
  import opened PanelTiles

  const ROWS := 35
  const COLS := 45

  /** The algorithms `compareAlgorithms` runs, in order. */
  const ALGOS: seq<string> := ["BFS", "DFS", "Dijkstra", "A*"]

  /** The `Random` draws one `generateMaze` consumes. `prim(k)` is the k-th
      `nextInt(walls.size())`; `holeRow(i)` and `holeCol(i)` are the two draws of braiding hole
      `i`; `upper(k)` and `lower(k)` are the k-th `nextInt(10)` of the two `carvePath` calls;
      `weight(p)` is the `nextInt(100)` drawn at open cell `p`. */
  datatype Draws = Draws(prim: nat -> nat, holeRow: nat -> nat, holeCol: nat -> nat,
                         upper: nat -> nat, lower: nat -> nat, weight: Pos -> nat)

  /** One line of the comparison: the algorithm, its result, and the weight of its path when
      it found one. */
  datatype Line = Line(algo: string, res: Result, cost: Option<nat>)

  /** Each cell of the grid knows its own place, so no cell sits in two places. */
  ghost predicate Placed(grid: array2<Cell>)
    reads grid
  {
    && grid.Length0 == ROWS && grid.Length1 == COLS
    && forall i, j :: 0 <= i < ROWS && 0 <= j < COLS ==> grid[i, j].r == i && grid[i, j].c == j
  }

  /** The cells of row `i` of the grid, up to column `n`. */
  ghost function CellRow(grid: array2<Cell>, i: nat, n: nat): (row: seq<Cell>)
    reads grid
    requires i < grid.Length0 && n <= grid.Length1
    ensures |row| == n && forall j :: 0 <= j < n ==> row[j] == grid[i, j]
  {
    if n == 0 then [] else CellRow(grid, i, n - 1) + [grid[i, n - 1]]
  }

  /** The terrain codes of row `i` of the grid, up to column `n`. */
  ghost function TerrainRow(grid: array2<Cell>, i: nat, n: nat): (row: seq<int>)
    reads grid, CellSet(grid)`terrain
    requires i < grid.Length0 && n <= grid.Length1
    ensures |row| == n && forall j :: 0 <= j < n ==> row[j] == grid[i, j].terrain
  {
    if n == 0 then [] else TerrainRow(grid, i, n - 1) + [grid[i, n - 1].terrain]
  }

  /** The first `n` rows of the grid, as cells and as codes. */
  ghost function Rows(grid: array2<Cell>, n: nat): (b: Board)
    reads grid, CellSet(grid)`terrain
    requires n <= grid.Length0
    ensures |b.cells| == n && |b.terrain| == n
    ensures forall i :: 0 <= i < n ==> b.cells[i] == CellRow(grid, i, grid.Length1) && b.terrain[i] == TerrainRow(grid, i, grid.Length1)
  {
    if n == 0 then Board([], [])
    else
      var b := Rows(grid, n - 1);
      Board(b.cells + [CellRow(grid, n - 1, grid.Length1)], b.terrain + [TerrainRow(grid, n - 1, grid.Length1)])
  }

  /** The picture of the grid the path algorithms are run on. */
  ghost function Picture(grid: array2<Cell>): Board
    reads grid, CellSet(grid)`terrain
  {
    Rows(grid, grid.Length0)
  }

  lemma PictureShows(grid: array2<Cell>)
    requires Placed(grid)
    ensures Pictures(grid, Picture(grid))
  {
    var b := Picture(grid);
    forall x | x in BoardCells(b)
      ensures x in CellSet(grid)
    {
      var i, j :| 0 <= i < |b.cells| && 0 <= j < |b.cells[i]| && x == b.cells[i][j];
      assert x == grid[i, j];
    }
  }

  /** `cs` are the grid's cells at the positions `ps`, in order: a Java list of cells and the
      positions it stands for. */
  ghost predicate Lists(grid: array2<Cell>, cs: seq<Cell>, ps: seq<Pos>)
    reads grid
  {
    && |cs| == |ps|
    && forall k :: 0 <= k < |ps| ==> 0 <= ps[k].x < grid.Length0 && 0 <= ps[k].y < grid.Length1 && cs[k] == grid[ps[k].x, ps[k].y]
  }

  lemma ListsSnoc(grid: array2<Cell>, cs: seq<Cell>, ps: seq<Pos>, q: Pos)
    requires Lists(grid, cs, ps) && 0 <= q.x < grid.Length0 && 0 <= q.y < grid.Length1
    ensures Lists(grid, cs + [grid[q.x, q.y]], ps + [q])
  {
  }

  lemma ListsRemove(grid: array2<Cell>, cs: seq<Cell>, ps: seq<Pos>, k: nat)
    requires Lists(grid, cs, ps) && k < |cs|
    ensures Lists(grid, cs[..k] + cs[k + 1..], ps[..k] + ps[k + 1..])
  {
  }

  /** The codes `generateMaze` leaves for the given draws. */
  ghost function Generation(draws: Draws): Tiles
  {
    Finish(PrimCarving(ROWS, COLS, draws.prim), ROWS * COLS / 10, draws.holeRow, draws.holeCol,
           draws.upper, draws.lower, draws.weight)
  }

  /** Whatever the draws, `generateMaze` leaves a generated maze over its carving: only the four
      codes, a closed border, START and END GRASS, both corridors open, and every cell the
      carving opened still open and reached from START. */
  lemma GenerationGenerated(draws: Draws)
    ensures Generated(Generation(draws), PrimCarving(ROWS, COLS, draws.prim))
  {
    FinishGenerated(PrimCarving(ROWS, COLS, draws.prim), ROWS * COLS / 10, draws.holeRow, draws.holeCol,
                    draws.upper, draws.lower, draws.weight);
  }

  lemma MidValid(T: Tiles, w: Pos)
    requires T.Wf() && T.Valid(w) && |VisitedAround(T, w)| == 1
    ensures T.Valid(Mid(w, VisitedAround(T, w)[0]))
  {
    PrimStepOpens(T, w);
  }

  lemma BraidedNext(T: Tiles, n: nat, rowDraws: nat -> nat, colDraws: nat -> nat)
    requires T.rows > 2 && T.cols > 2
    ensures Braided(T, n + 1, rowDraws, colDraws)
      == BraidStep(Braided(T, n, rowDraws, colDraws), 1 + rowDraws(n) % (T.rows - 2), 1 + colDraws(n) % (T.cols - 2))
  {
  }

  lemma CorridorNext(T: Tiles, row: int, draws: nat -> nat, n: nat)
    ensures Corridor(T, row, draws, n + 1) == CarveAt(Corridor(T, row, draws, n), row, 2 + n, draws(n))
  {
  }

  /** The weighting loops have passed every cell before row `r`, column `c`: those hold what `F`
      gives them, the others still what `T` gave. */
  ghost predicate WeighedTo(T: Tiles, F: Tiles, cur: Tiles, r: int, c: int)
  {
    && T.Wf() && cur.Wf() && cur.rows == T.rows && cur.cols == T.cols
    && forall p :: p in cur.t ==> p in T.t && p in F.t && cur.t[p] == if p.x < r || (p.x == r && p.y < c) then F.t[p] else T.t[p]
  }

  lemma WeighedStep(T: Tiles, F: Tiles, weights: Pos -> nat, prev: Tiles, r: int, c: int)
    requires F == Weigh(T, weights) && WeighedTo(T, F, prev, r, c) && 0 <= r < T.rows && 0 <= c < T.cols
    ensures WeighedTo(T, F, if prev.Open(Pos(r, c)) then prev.With(Pos(r, c), TerrainOf(weights(Pos(r, c)))) else prev, r, c + 1)
  {
  }

  lemma WeighedRow(T: Tiles, F: Tiles, cur: Tiles, r: int)
    requires WeighedTo(T, F, cur, r, T.cols)
    ensures WeighedTo(T, F, cur, r + 1, 0)
  {
  }

  lemma WeighedAll(T: Tiles, F: Tiles, weights: Pos -> nat, cur: Tiles)
    requires F == Weigh(T, weights) && WeighedTo(T, F, cur, T.rows, 0)
    ensures cur == F
  {
    assert cur.t == F.t;
  }

  /** `T` holds the grid's current terrain codes. */
  ghost predicate Shows(grid: array2<Cell>, T: Tiles)
    reads grid, CellSet(grid)`terrain
  {
    && T.Wf() && T.rows == grid.Length0 && T.cols == grid.Length1
    && forall p :: p in T.t ==> T.t[p] == grid[p.x, p.y].terrain
  }

  class MazePanel {
    const grid: array2<Cell>
    var startNode: Cell
    var endNode: Cell
    var isAnimating: bool
    var finalPath: Option<seq<Cell>>
    /** The cells the search animation marks, in order. */
    var visualizationQueue: seq<Cell>

    ghost predicate Sized()
      reads this
    {
      grid.Length0 == ROWS && grid.Length1 == COLS
    }

    /** The cells in place, START at (1, 1) and END at (ROWS - 2, COLS - 2). */
    ghost predicate Valid()
      reads this, grid
    {
      Placed(grid) && startNode == grid[1, 1] && endNode == grid[ROWS - 2, COLS - 2]
    }

    /** Every cell has the scratch state `reset` leaves. */
    ghost predicate Cleared()
      reads grid, CellSet(grid)
    {
      forall x :: x in CellSet(grid) ==> x.IsReset()
    }

    /** The constructor fills the grid with new WALL cells and generates a first maze. */
    constructor (draws: Draws)
      ensures Valid() && !isAnimating && finalPath == None && Cleared()
      ensures Shows(grid, Generation(draws))
    {
      var z := new Cell(0, 0, WALL);
      grid := new Cell[ROWS, COLS]((i, j) => z);
      startNode, endNode := z, z;
      isAnimating := false;
      finalPath := None;
      new;
      FillWalls();
      GenerateMaze(draws);
    }

    /** The filling loop of the constructor and of `generateMaze`: a new WALL cell at every
        place. */
    method FillWalls()
      requires Sized()
      modifies grid
      ensures Placed(grid) && forall x :: x in CellSet(grid) ==> fresh(x) && x.IsReset()
      ensures forall i, j :: 0 <= i < ROWS && 0 <= j < COLS ==> grid[i, j].terrain == WALL
    {
      for r := 0 to ROWS
        invariant forall i, j :: 0 <= i < r && 0 <= j < COLS ==>
          grid[i, j].r == i && grid[i, j].c == j && fresh(grid[i, j]) && grid[i, j].IsReset() && grid[i, j].terrain == WALL
      {
        for c := 0 to COLS
          invariant forall i, j :: 0 <= i < r && 0 <= j < COLS ==>
            grid[i, j].r == i && grid[i, j].c == j && fresh(grid[i, j]) && grid[i, j].IsReset() && grid[i, j].terrain == WALL
          invariant forall j :: 0 <= j < c ==>
            grid[r, j].r == r && grid[r, j].c == j && fresh(grid[r, j]) && grid[r, j].IsReset() && grid[r, j].terrain == WALL
        {
          grid[r, c] := new Cell(r, c, WALL);
        }
      }
    }

    /** `isValid`: inside the grid, border included. */
    predicate IsValid(r: int, c: int)
    {
      r >= 0 && r < ROWS && c >= 0 && c < COLS
    }

    /** Sets the terrain of the cell at `p`: the grid then shows `T` with `p` set to `v`. */
    method SetType(p: Pos, v: int, ghost T: Tiles)
      requires Placed(grid) && Shows(grid, T) && 0 <= p.x < ROWS && 0 <= p.y < COLS
      modifies CellSet(grid)`terrain
      ensures Shows(grid, T.With(p, v))
    {
      grid[p.x, p.y].terrain := v;
    }

    /** `getNeighbors(c, dist)`: the cells `dist` away up, down, left and right that are inside
        the grid, in that order. */
    method GetNeighbors(c: Cell, dist: int, ghost T: Tiles) returns (list: seq<Cell>)
      requires T.rows == ROWS && T.cols == COLS && Sized()
      ensures Lists(grid, list, Around(T, Pos(c.r, c.c), dist, 4))
    {
      var dr := [-dist, dist, 0, 0];
      var dc := [0, 0, -dist, dist];
      list := [];
      for i := 0 to 4
        invariant Lists(grid, list, Around(T, Pos(c.r, c.c), dist, i))
      {
        var nr := c.r + dr[i];
        var nc := c.c + dc[i];
        assert Offset(Pos(c.r, c.c), dist, i) == Pos(nr, nc);
        if IsValid(nr, nc) {
          ListsSnoc(grid, list, Around(T, Pos(c.r, c.c), dist, i), Pos(nr, nc));
          list := list + [grid[nr, nc]];
        }
      }
    }

    /** The `visitedNeighbors` filter: the cells of `cells` that are not WALL, in order. */
    method VisitedOf(cells: seq<Cell>, ghost ps: seq<Pos>, ghost T: Tiles) returns (vn: seq<Cell>)
      requires Lists(grid, cells, ps) && Shows(grid, T)
      ensures Lists(grid, vn, OpenOf(T, ps))
    {
      vn := [];
      for k := 0 to |cells|
        invariant Lists(grid, vn, OpenOf(T, ps[..k]))
      {
        var n := cells[k];
        OpenOfStep(T, ps, k);
        if n.terrain != WALL {
          ListsSnoc(grid, vn, OpenOf(T, ps[..k]), ps[k]);
          vn := vn + [n];
        }
      }
      assert ps[..|cells|] == ps;
    }

    /** `addWalls(r, c, walls)`: appends the cells two away up, down, left and right that are
        inside the grid and still WALL. */
    method AddWalls(r: int, c: int, walls: seq<Cell>, ghost ws: seq<Pos>, ghost T: Tiles) returns (walls': seq<Cell>)
      requires Sized() && Lists(grid, walls, ws) && Shows(grid, T)
      ensures Lists(grid, walls', ws + WallsAround(T, Pos(r, c), 4))
    {
      var dr := [-2, 2, 0, 0];
      var dc := [0, 0, -2, 2];
      walls' := walls;
      for i := 0 to 4
        invariant Lists(grid, walls', ws + WallsAround(T, Pos(r, c), i))
      {
        var nr := r + dr[i];
        var nc := c + dc[i];
        assert Offset(Pos(r, c), 2, i) == Pos(nr, nc);
        if IsValid(nr, nc) && grid[nr, nc].terrain == WALL {
          ListsSnoc(grid, walls', ws + WallsAround(T, Pos(r, c), i), Pos(nr, nc));
          assert ws + WallsAround(T, Pos(r, c), i + 1) == ws + WallsAround(T, Pos(r, c), i) + [Pos(nr, nc)];
          walls' := walls' + [grid[nr, nc]];
        } else {
          assert WallsAround(T, Pos(r, c), i + 1) == WallsAround(T, Pos(r, c), i);
        }
      }
    }

    /** The carving branch of one round: the wall `wall` and the cell between it and its one open
        neighbour `n` become GRASS, and the walls around `wall` are appended to `rest`. */
    method Join(wall: Cell, n: Cell, rest: seq<Cell>, ghost rs: seq<Pos>, ghost T: Tiles) returns (walls': seq<Cell>)
      requires Placed(grid) && Shows(grid, T) && Lists(grid, rest, rs)
      requires T.Valid(Pos(wall.r, wall.c)) && |VisitedAround(T, Pos(wall.r, wall.c))| == 1
      requires var v := VisitedAround(T, Pos(wall.r, wall.c))[0]; n.r == v.x && n.c == v.y
      modifies CellSet(grid)`terrain
      ensures Shows(grid, PrimStep(T, Pos(wall.r, wall.c)))
      ensures Lists(grid, walls', rs + WallsAround(PrimStep(T, Pos(wall.r, wall.c)), Pos(wall.r, wall.c), 4))
    {
      var w := Pos(wall.r, wall.c);
      MidValid(T, w);
      var midR := (wall.r + n.r) / 2;
      var midC := (wall.c + n.c) / 2;
      ghost var v := VisitedAround(T, w)[0];
      assert Pos(midR, midC) == Mid(w, v);
      assert PrimStep(T, w) == T.With(w, GRASS).With(Pos(midR, midC), GRASS);
      SetType(w, GRASS, T);
      SetType(Pos(midR, midC), GRASS, T.With(w, GRASS));
      walls' := AddWalls(wall.r, wall.c, rest, rs, PrimStep(T, w));
    }

    /** One round of the carving loop: the wall at `idx` leaves the list; when exactly one cell
        two away is open, the wall and the cell between the two become GRASS and the walls
        around the wall are listed. */
    method TakeWall(walls: seq<Cell>, ghost ws: seq<Pos>, idx: nat, ghost T: Tiles) returns (walls': seq<Cell>)
      requires Placed(grid) && Lists(grid, walls, ws) && idx < |walls| && Shows(grid, T)
      modifies CellSet(grid)`terrain
      ensures Shows(grid, Round(T, ws, idx).0) && Lists(grid, walls', Round(T, ws, idx).1)
    {
      var wall := walls[idx];
      ghost var w := Pos(wall.r, wall.c);
      assert w == ws[idx];
      walls' := walls[..idx] + walls[idx + 1..];
      ListsRemove(grid, walls, ws, idx);
      var neighbors := GetNeighbors(wall, 2, T);
      var visitedNeighbors := VisitedOf(neighbors, Around(T, w, 2, 4), T);
      if |visitedNeighbors| == 1 {
        walls' := Join(wall, visitedNeighbors[0], walls', ws[..idx] + ws[idx + 1..], T);
      }
    }

    /** The start of the carving on a grid of walls: (1, 1) becomes GRASS and the walls two away
        from it are listed. */
    method OpenRoot() returns (walls: seq<Cell>)
      requires Placed(grid) && forall i, j :: 0 <= i < ROWS && 0 <= j < COLS ==> grid[i, j].terrain == WALL
      modifies CellSet(grid)`terrain
      ensures Shows(grid, Initial(ROWS, COLS))
      ensures Lists(grid, walls, WallsAround(Initial(ROWS, COLS), Pos(1, 1), 4))
    {
      grid[1, 1].terrain := GRASS;
      ghost var S := Initial(ROWS, COLS);
      assert Shows(grid, S);
      walls := AddWalls(1, 1, [], [], S);
      assert [] + WallsAround(S, Pos(1, 1), 4) == WallsAround(S, Pos(1, 1), 4);
    }

    /** The carving part of `generateMaze` on a grid of walls: (1, 1) becomes GRASS, the walls
        two away from it are listed, and walls are taken at the drawn indices until none is
        left. */
    method Carve(draws: nat -> nat)
      requires Placed(grid) && forall i, j :: 0 <= i < ROWS && 0 <= j < COLS ==> grid[i, j].terrain == WALL
      modifies CellSet(grid)`terrain
      ensures Shows(grid, PrimCarving(ROWS, COLS, draws))
    {
      var walls := OpenRoot();
      ghost var T := Initial(ROWS, COLS);
      ghost var ws := WallsAround(T, Pos(1, 1), 4);
      SeedCarving(T, Pos(1, 1));
      var k := 0;
      while walls != []
        invariant Lists(grid, walls, ws) && Shows(grid, T) && Carving(T, ws, Pos(1, 1))
        invariant PrimRun(T, ws, Pos(1, 1), draws, k) == PrimCarving(ROWS, COLS, draws)
        decreases Zeros(T), Load(T, ws)
      {
        var idx := draws(k) % |walls|;
        RoundKeeps(T, ws, idx, Pos(1, 1));
        ghost var next := Round(T, ws, idx);
        walls := TakeWall(walls, ws, idx, T);
        T, ws := next.0, next.1;
        k := k + 1;
      }
    }

    /** One braiding hole: the cell at (`r`, `c`) becomes GRASS when it is still WALL and off the
        border. */
    method BraidHole(r: int, c: int, ghost B: Tiles)
      requires Placed(grid) && Shows(grid, B) && 0 <= r < ROWS && 0 <= c < COLS
      modifies CellSet(grid)`terrain
      ensures Shows(grid, BraidStep(B, r, c))
    {
      if grid[r, c].terrain == WALL {
        if r > 0 && r < ROWS - 1 && c > 0 && c < COLS - 1 {
          SetType(Pos(r, c), GRASS, B);
        }
      }
    }

    /** Round `i` of the braiding loop: hole `i` is drawn and punched. */
    method BraidRound(i: nat, rowDraws: nat -> nat, colDraws: nat -> nat, ghost T: Tiles)
      requires Placed(grid) && T.rows == ROWS && T.cols == COLS
      requires Shows(grid, Braided(T, i, rowDraws, colDraws))
      modifies CellSet(grid)`terrain
      ensures Shows(grid, Braided(T, i + 1, rowDraws, colDraws))
    {
      var r := rowDraws(i) % (ROWS - 2) + 1;
      var c := colDraws(i) % (COLS - 2) + 1;
      BraidedNext(T, i, rowDraws, colDraws);
      BraidHole(r, c, Braided(T, i, rowDraws, colDraws));
    }

    /** The braiding loop: `ROWS * COLS / 10` drawn cells off the border become GRASS when they
        are still WALL. */
    method Braid(rowDraws: nat -> nat, colDraws: nat -> nat, ghost T: Tiles)
      requires Placed(grid) && Shows(grid, T)
      modifies CellSet(grid)`terrain
      ensures Shows(grid, Braided(T, ROWS * COLS / 10, rowDraws, colDraws))
    {
      var loops := (ROWS * COLS) / 10;
      assert T.rows == ROWS && T.cols == COLS;
      for i := 0 to loops
        invariant Shows(grid, Braided(T, i, rowDraws, colDraws))
      {
        BraidRound(i, rowDraws, colDraws, T);
      }
    }

    /** One column of `carvePath`: the cell on row `r` becomes GRASS, and the one below it too
        when the draw is below 2 (of 10) and that cell is off the border. */
    method CarveColumn(r: int, c: int, draw: nat, ghost C: Tiles)
      requires Placed(grid) && Shows(grid, C) && 0 <= r < ROWS && 0 <= c < COLS
      modifies CellSet(grid)`terrain
      ensures Shows(grid, CarveAt(C, r, c, draw))
    {
      SetType(Pos(r, c), GRASS, C);
      if draw % 10 < 2 {
        if r + 1 < ROWS - 1 {
          SetType(Pos(r + 1, c), GRASS, C.With(Pos(r, c), GRASS));
        }
      }
    }

    /** `carvePath(row)`: an even row moves down one; then, from column 2 to COLS - 3, the cell
        on the row becomes GRASS, and so does the one below it when the column's draw is below
        2 (of 10) and that cell is off the border. */
    method CarvePath(row: int, draws: nat -> nat, ghost T: Tiles)
      requires Placed(grid) && Shows(grid, T) && 0 <= row && Bumped(row) < ROWS
      modifies CellSet(grid)`terrain
      ensures Shows(grid, PanelTiles.CarvePath(T, row, draws))
    {
      var r := row;
      if r % 2 == 0 {
        r := r + 1;
      }
      assert r == Bumped(row);
      for c := 2 to COLS - 2
        invariant Shows(grid, Corridor(T, r, draws, c - 2))
      {
        CorridorNext(T, r, draws, c - 2);
        CarveColumn(r, c, draws(c - 2), Corridor(T, r, draws, c - 2));
      }
      assert T.cols - 4 == COLS - 4;
    }

    /** One cell of the weighting loops: when it is not WALL it gets the terrain its draw gives. */
    method WeighCell(r: int, c: int, draw: nat, ghost cur: Tiles)
      requires Placed(grid) && Shows(grid, cur) && 0 <= r < ROWS && 0 <= c < COLS
      modifies CellSet(grid)`terrain
      ensures Shows(grid, if cur.Open(Pos(r, c)) then cur.With(Pos(r, c), TerrainOf(draw)) else cur)
    {
      if grid[r, c].terrain != WALL {
        var chance := draw % 100;
        if chance < 65 {
          SetType(Pos(r, c), GRASS, cur);
        } else if chance < 85 {
          SetType(Pos(r, c), MUD, cur);
        } else {
          SetType(Pos(r, c), WATER, cur);
        }
      }
    }

    /** The weighting loops: every cell that is not WALL gets GRASS for a draw below 65 (of
        100), MUD below 85 and WATER otherwise. */
    method AssignWeights(weights: Pos -> nat, ghost T: Tiles)
      requires Placed(grid) && Shows(grid, T)
      modifies CellSet(grid)`terrain
      ensures Shows(grid, Weigh(T, weights))
    {
      ghost var F := Weigh(T, weights);
      ghost var cur := T;
      for r := 0 to ROWS
        invariant Shows(grid, cur) && WeighedTo(T, F, cur, r, 0)
      {
        for c := 0 to COLS
          invariant Shows(grid, cur) && WeighedTo(T, F, cur, r, c)
        {
          WeighCell(r, c, weights(Pos(r, c)), cur);
          WeighedStep(T, F, weights, cur, r, c);
          cur := if cur.Open(Pos(r, c)) then cur.With(Pos(r, c), TerrainOf(weights(Pos(r, c)))) else cur;
        }
        WeighedRow(T, F, cur, r);
      }
      WeighedAll(T, F, weights, cur);
    }

    /** The first part of `generateMaze`: new WALL cells everywhere, then the carving. */
    method Rebuild(draws: nat -> nat)
      requires Sized()
      modifies grid
      ensures Placed(grid) && (forall x :: x in CellSet(grid) ==> fresh(x))
      ensures Shows(grid, PrimCarving(ROWS, COLS, draws))
    {
      FillWalls();
      Carve(draws);
    }

    /** START and END become GRASS. */
    method MarkEnds(ghost T: Tiles)
      requires Placed(grid) && Shows(grid, T)
      modifies CellSet(grid)`terrain
      ensures Shows(grid, Ends(T))
    {
      SetType(Pos(1, 1), GRASS, T);
      SetType(Pos(ROWS - 2, COLS - 2), GRASS, T.With(Pos(1, 1), GRASS));
    }

    /** START and END become GRASS, then the braiding holes. */
    method Holes(draws: Draws, ghost prim: Tiles)
      requires Placed(grid) && Shows(grid, prim)
      modifies CellSet(grid)`terrain
      ensures Shows(grid, Braided(Ends(prim), ROWS * COLS / 10, draws.holeRow, draws.holeCol))
    {
      MarkEnds(prim);
      Braid(draws.holeRow, draws.holeCol, Ends(prim));
    }

    /** The corridors on rows ROWS / 4 and ROWS * 3 / 4. */
    method Corridors(draws: Draws, ghost B: Tiles)
      requires Placed(grid) && Shows(grid, B)
      modifies CellSet(grid)`terrain
      ensures Shows(grid, PanelTiles.CarvePath(PanelTiles.CarvePath(B, ROWS / 4, draws.upper), ROWS * 3 / 4, draws.lower))
    {
      CarvePath(ROWS / 4, draws.upper, B);
      CarvePath(ROWS * 3 / 4, draws.lower, PanelTiles.CarvePath(B, ROWS / 4, draws.upper));
    }

    /** The weights, then START and END GRASS again. */
    method Weights(draws: Draws, ghost C: Tiles)
      requires Placed(grid) && Shows(grid, C)
      modifies CellSet(grid)`terrain
      ensures Shows(grid, Ends(Weigh(C, draws.weight)))
    {
      AssignWeights(draws.weight, C);
      MarkEnds(Weigh(C, draws.weight));
    }

    /** `generateMaze` after the carving `prim`: START and END become GRASS, then the braiding,
        the corridors on rows ROWS / 4 and ROWS * 3 / 4, the weights, and START and END GRASS
        again. */
    method Decorate(draws: Draws, ghost prim: Tiles)
      requires Placed(grid) && Shows(grid, prim)
      modifies CellSet(grid)`terrain
      ensures Shows(grid, Finish(prim, ROWS * COLS / 10, draws.holeRow, draws.holeCol, draws.upper, draws.lower, draws.weight))
    {
      Holes(draws, prim);
      ghost var B := Braided(Ends(prim), ROWS * COLS / 10, draws.holeRow, draws.holeCol);
      Corridors(draws, B);
      Weights(draws, PanelTiles.CarvePath(PanelTiles.CarvePath(B, ROWS / 4, draws.upper), ROWS * 3 / 4, draws.lower));
    }

    /** The terrain part of `generateMaze`: new WALL cells, the carving, then the rest. */
    method Build(draws: Draws)
      requires Sized()
      modifies grid
      ensures Placed(grid) && (forall x :: x in CellSet(grid) ==> fresh(x))
      ensures Shows(grid, Generation(draws))
    {
      Rebuild(draws.prim);
      Decorate(draws, PrimCarving(ROWS, COLS, draws.prim));
    }

    /** `generateMaze`'s new terrain with every cell's scratch state cleared. */
    method BuildCleared(draws: Draws)
      requires Sized()
      modifies grid
      ensures Placed(grid) && Cleared() && Shows(grid, Generation(draws))
    {
      Build(draws);
      ResetCells();
    }

    /** The end of `generateMaze`: START and END are the cells at (1, 1) and (ROWS - 2,
        COLS - 2), no animation runs and no path is shown; the cells stay as they are. */
    method TakeEnds(ghost T: Tiles)
      requires Placed(grid) && Shows(grid, T) && Cleared()
      modifies this`startNode, this`endNode, this`isAnimating, this`finalPath
      ensures Valid() && !isAnimating && finalPath == None
      ensures Shows(grid, T) && Cleared()
    {
      startNode := grid[1, 1];
      endNode := grid[ROWS - 2, COLS - 2];
      isAnimating := false;
      finalPath := None;
    }

    /** `generateMaze`: does nothing while a search is being animated. Otherwise it puts new
        WALL cells everywhere, carves, takes (1, 1) and (ROWS - 2, COLS - 2) as START and END and
        makes them GRASS, braids, carves the corridors on rows ROWS / 4 and ROWS * 3 / 4,
        assigns the weights, makes START and END GRASS again and resets the search state. The
        grid then shows the codes `Generation` gives for the draws: a generated maze over the
        carving the draws make. */
    method GenerateMaze(draws: Draws)
      requires Sized()
      modifies this, grid
      ensures old(isAnimating) ==> unchanged(this) && unchanged(grid)
      ensures !old(isAnimating) ==>
        && Valid() && !isAnimating && finalPath == None && Cleared()
        && visualizationQueue == old(visualizationQueue)
        && Shows(grid, Generation(draws))
    {
      if isAnimating {
        return;
      }
      BuildCleared(draws);
      TakeEnds(Generation(draws));
    }

    /** The reset loop of `resetPath` and `compareAlgorithms`: every cell's scratch state is
        cleared; no terrain changes. */
    method ResetCells()
      requires Placed(grid)
      modifies CellSet(grid)`visited, CellSet(grid)`parent, CellSet(grid)`gCost, CellSet(grid)`hCost, CellSet(grid)`fCost
      ensures Cleared()
    {
      for r := 0 to ROWS
        invariant forall i, j :: 0 <= i < r && 0 <= j < COLS ==> grid[i, j].IsReset()
      {
        for c := 0 to COLS
          invariant forall i, j :: 0 <= i < r && 0 <= j < COLS ==> grid[i, j].IsReset()
          invariant forall j :: 0 <= j < c ==> grid[r, j].IsReset()
        {
          grid[r, c].Reset();
        }
      }
    }

    /** `resetPath`: no animation, no path shown, and every cell's scratch state cleared. */
    method ResetPath()
      requires Placed(grid)
      modifies this`isAnimating, this`finalPath
      modifies CellSet(grid)`visited, CellSet(grid)`parent, CellSet(grid)`gCost, CellSet(grid)`hCost, CellSet(grid)`fCost
      ensures !isAnimating && finalPath == None && Cleared()
    {
      isAnimating := false;
      finalPath := None;
      ResetCells();
    }

    /** The if-chain of `compareAlgorithms`: runs the search `algo` names from START to END. */
    method Search(algo: string, ghost b: Board) returns (res: Result)
      requires Valid() && Pictures(grid, b) && Cleared() && algo in ALGOS
      modifies CellSet(grid)`parent, CellSet(grid)`gCost, CellSet(grid)`hCost, CellSet(grid)`fCost
      ensures Finds(b, startNode, endNode, algo, res) && AllOnBoard(b, res.visitedOrder)
    {
      assert OnBoard(b, startNode) && OnBoard(b, endNode);
      if algo == "BFS" {
        res := SolveBFS(grid, startNode, endNode, b);
      } else if algo == "DFS" {
        res := SolveDFS(grid, startNode, endNode, b);
      } else if algo == "Dijkstra" {
        res := SolveDijkstra(grid, startNode, endNode, b);
      } else if algo == "A*" {
        res := SolveAStar(grid, startNode, endNode, b);
      } else {
        assert false;
      }
    }

    /** No cell is marked visited. */
    ghost predicate Unmarked()
      reads grid, CellSet(grid)`visited
    {
      forall x :: x in CellSet(grid) ==> !x.visited
    }

    /** The animation timer of `startSolving`: every cell of `queue` is marked visited, in order;
        no other cell is. */
    method MarkVisited(queue: seq<Cell>, ghost b: Board)
      requires Pictures(grid, b) && AllOnBoard(b, queue) && Unmarked()
      modifies CellSet(grid)`visited
      ensures forall x :: x in CellSet(grid) ==> (x.visited <==> x in queue)
    {
      var animIndex := 0;
      while animIndex < |queue|
        invariant 0 <= animIndex <= |queue|
        invariant forall x :: x in CellSet(grid) ==> (x.visited <==> x in queue[..animIndex])
      {
        var c := queue[animIndex];
        PicturedCell(grid, b, c);
        c.visited := true;
        animIndex := animIndex + 1;
      }
      assert queue[..animIndex] == queue;
    }

    /** The replay of a search's result: the animation runs over its visit order and ends by
        showing its path. */
    method Replay(result: Result, ghost b: Board)
      requires Pictures(grid, b) && AllOnBoard(b, result.visitedOrder) && Unmarked()
      modifies this`isAnimating, this`finalPath, this`visualizationQueue, CellSet(grid)`visited
      ensures visualizationQueue == result.visitedOrder && finalPath == Some(result.path) && !isAnimating
      ensures forall x :: x in CellSet(grid) ==> (x.visited <==> x in visualizationQueue)
    {
      visualizationQueue := result.visitedOrder;
      isAnimating := true;
      MarkVisited(visualizationQueue, b);
      isAnimating := false;
      finalPath := Some(result.path);
    }

    /** `startSolving`, with its animation played to the end: does nothing while a search is
        being animated. Otherwise it resets as `resetPath` does and runs the search `algo`
        names, if any. The animation then marks every cell of the search's visit order as
        visited, in order, and finally shows the search's path. */
    method StartSolving(algo: string, ghost b: Board)
      requires Valid() && Pictures(grid, b)
      modifies this`isAnimating, this`finalPath, this`visualizationQueue
      modifies CellSet(grid)`visited, CellSet(grid)`parent, CellSet(grid)`gCost, CellSet(grid)`hCost, CellSet(grid)`fCost
      ensures old(isAnimating) ==> isAnimating && finalPath == old(finalPath) && visualizationQueue == old(visualizationQueue)
      ensures old(isAnimating) ==> forall x :: x in CellSet(grid) ==> unchanged(x)
      ensures !old(isAnimating) ==> !isAnimating
      ensures !old(isAnimating) && algo !in ALGOS ==>
        finalPath == None && visualizationQueue == old(visualizationQueue) && Cleared()
      ensures !old(isAnimating) && algo in ALGOS ==>
        && finalPath.Some? && Finds(b, startNode, endNode, algo, Result(visualizationQueue, finalPath.value))
        && forall x :: x in CellSet(grid) ==> (x.visited <==> x in visualizationQueue)
    {
      if isAnimating {
        return;
      }
      ResetPath();
      if algo !in ALGOS {
        return;
      }
      assert Unmarked();
      var result := Search(algo, b);
      Replay(result, b);
    }

    /** One round of `compareAlgorithms`: every cell cleared, the search `algo` names run from
        START to END, and the weight of its path added when it found one. */
    method RunOne(algo: string, ghost b: Board) returns (line: Line)
      requires Valid() && Pictures(grid, b) && algo in ALGOS
      modifies CellSet(grid)`visited, CellSet(grid)`parent, CellSet(grid)`gCost, CellSet(grid)`hCost, CellSet(grid)`fCost
      ensures Reports(b, startNode, endNode, algo, line) && Pictures(grid, b)
    {
      ResetCells();
      var res := Search(algo, b);
      var cost: Option<nat> := None;
      if res.path != [] {
        var total := CalculatePathCost(res.path, grid, b);
        cost := Some(total);
      }
      line := Line(algo, res, cost);
    }

    /** `compareAlgorithms`: does nothing while a search is being animated. Otherwise, for BFS,
        DFS, Dijkstra and A* in turn, it clears every cell and runs the algorithm from START to
        END, recording the path's weight when one is found; then it resets as `resetPath`
        does. Every run starts from cleared cells, so each line says what its algorithm
        promises on the maze: a walk exactly when one exists, the fewest cells for BFS and the
        least weight for Dijkstra and A*. */
    method CompareAlgorithms(ghost b: Board) returns (lines: seq<Line>)
      requires Valid() && Pictures(grid, b)
      modifies this`isAnimating, this`finalPath
      modifies CellSet(grid)`visited, CellSet(grid)`parent, CellSet(grid)`gCost, CellSet(grid)`hCost, CellSet(grid)`fCost
      ensures old(isAnimating) ==> lines == [] && isAnimating && finalPath == old(finalPath)
      ensures old(isAnimating) ==> forall x :: x in CellSet(grid) ==> unchanged(x)
      ensures !old(isAnimating) ==> Compared(b, startNode, endNode, lines) && !isAnimating && finalPath == None && Cleared()
    {
      lines := [];
      if isAnimating {
        return;
      }
      for k := 0 to |ALGOS|
        invariant Pictures(grid, b) && |lines| == k
        invariant forall i :: 0 <= i < k ==> Reports(b, startNode, endNode, ALGOS[i], lines[i])
      {
        var line := RunOne(ALGOS[k], b);
        lines := lines + [line];
      }
      ResetPath();
    }
  }

  /** What a line of the comparison says about `algo` on board `b`: what the search promises,
      and the cost is the weight of the walk found. */
  ghost predicate Reports(b: Board, start: Cell, end: Cell, algo: string, line: Line)
  {
    && line.algo == algo && Finds(b, start, end, algo, line.res)
    && line.cost == if line.res.path != [] then Some(PathCost(b, line.res.path)) else None
  }

  /** What search `algo` promises on board `b`: it started at `start` and explored no cell
      twice; it found a walk to `end` exactly when one exists; BFS's walk has the fewest cells
      and Dijkstra's and A*'s the least weight of all walks. */
  ghost predicate Finds(b: Board, start: Cell, end: Cell, algo: string, res: Result)
  {
    && res.visitedOrder != [] && res.visitedOrder[0] == start && Distinct(res.visitedOrder)
    && (res.path != [] ==> IsWalk(b, res.path, start, end))
    && (res.path == [] ==> forall w :: !IsWalk(b, w, start, end))
    && (algo == "BFS" && res.path != [] ==> forall w :: IsWalk(b, w, start, end) ==> |res.path| <= |w|)
    && (algo in {"Dijkstra", "A*"} && res.path != [] ==>
          forall w :: IsWalk(b, w, start, end) ==> PathCost(b, res.path) <= PathCost(b, w))
  }

  /** The comparison covers the four algorithms in order, each line as `Reports` says. */
  ghost predicate Compared(b: Board, start: Cell, end: Cell, lines: seq<Line>)
  {
    |lines| == |ALGOS| && forall k :: 0 <= k < |ALGOS| ==> Reports(b, start, end, ALGOS[k], lines[k])
  }

  /** What the comparison shows: every algorithm finds a path exactly when Dijkstra does;
      Dijkstra and A* report the same weight, and no path BFS or DFS finds weighs less. */
  lemma ComparedCosts(b: Board, start: Cell, end: Cell, lines: seq<Line>)
    requires Compared(b, start, end, lines)
    ensures forall k :: 0 <= k < |lines| ==> (lines[k].cost.Some? <==> lines[2].cost.Some?)
    ensures lines[2].cost == lines[3].cost
    ensures lines[2].cost.Some? ==> forall k :: 0 <= k < |lines| ==> lines[2].cost.value <= lines[k].cost.value
  {
    assert Reports(b, start, end, ALGOS[2], lines[2]) && Reports(b, start, end, ALGOS[3], lines[3]);
    forall k | 0 <= k < |lines|
      ensures lines[k].cost.Some? <==> lines[2].cost.Some?
      ensures lines[2].cost.Some? ==> lines[2].cost.value <= lines[k].cost.value
    {
      assert Reports(b, start, end, ALGOS[k], lines[k]);
      if lines[k].res.path != [] {
        assert IsWalk(b, lines[k].res.path, start, end);
      }
      if lines[2].res.path != [] {
        assert IsWalk(b, lines[2].res.path, start, end);
      }
    }
    if lines[2].cost.Some? {
      assert IsWalk(b, lines[2].res.path, start, end) && IsWalk(b, lines[3].res.path, start, end);
    }
  }
}
