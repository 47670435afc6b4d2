/** The randomised Prim carving of Maze/MazeGenerator.java over an integer grid of Maze/Maze.java
    codes (the root MazeGenerator.java runs the same steps inline). Passage cells sit on the
    odd lattice; a `Wall` between two of them is carved when exactly one side is already open,
    and the newly opened side adds the walls around it to the list. */
module Prim {
  import opened Common
  import opened Mazes
  import opened Walls
  import opened SearchState
  import opened PrimBoard

  /** `initializeWalls`: every cell becomes WALL, row by row. */
  method InitializeWalls(grid: array2<int>)
    modifies grid
    ensures forall r, c :: 0 <= r < grid.Length0 && 0 <= c < grid.Length1 ==> grid[r, c] == WALL
  {
    var i := 0;
    while i < grid.Length0
      invariant 0 <= i <= grid.Length0
      invariant forall r, c :: 0 <= r < i && 0 <= c < grid.Length1 ==> grid[r, c] == WALL
    {
      var j := 0;
      while j < grid.Length1
        invariant 0 <= j <= grid.Length1
        invariant forall r, c :: 0 <= r < i && 0 <= c < grid.Length1 ==> grid[r, c] == WALL
        invariant forall c :: 0 <= c < j ==> grid[i, c] == WALL
      {
        grid[i, j] := WALL;
        j := j + 1;
      }
      i := i + 1;
    }
  }

  /** `selectRandomOddPosition`: `rowDraw` and `colDraw` stand for the two `nextInt` draws,
      taken modulo their bounds `rows / 2` and `cols / 2` (which must not be 0). */
  function SelectRandomOddPosition(rows: int, cols: int, rowDraw: nat, colDraw: nat): (p: Pos)
    requires rows >= 2 && cols >= 2
    ensures Odd(p) && 1 <= p.x <= 2 * (rows / 2) - 1 && p.x < rows && 1 <= p.y <= 2 * (cols / 2) - 1 && p.y < cols
  {
    Pos(1 + 2 * (rowDraw % (rows / 2)), 1 + 2 * (colDraw % (cols / 2)))
  }

  /** With odd sides of at least three cells the start is never on the border. */
  lemma OddSidesStartInside(rows: int, cols: int, rowDraw: nat, colDraw: nat)
    requires rows >= 3 && cols >= 3 && rows % 2 == 1 && cols % 2 == 1
    ensures var p := SelectRandomOddPosition(rows, cols, rowDraw, colDraw); Interior(rows, cols, p.x, p.y)
  {
  }

  /** `addAdjacentWalls`: appends the walls around `row`, `col`, in direction order. */
  method AddAdjacentWalls(grid: array2<int>, row: int, col: int, walls: seq<Wall>) returns (walls': seq<Wall>)
    ensures walls' == walls + AdjacentWalls(Snapshot(grid), Pos(row, col))
  {
    ghost var b := Snapshot(grid);
    walls' := walls;
    var i := 0;
    while i < 4
      invariant 0 <= i <= 4 && walls' == walls + WallsAround(b, Pos(row, col), i)
    {
      var q := Neighbor(Pos(row, col), i);
      if Interior(grid.Length0, grid.Length1, q.x, q.y) && grid[q.x, q.y] == WALL {
        walls' := walls' + [Wall(q.x, q.y)];
      }
      i := i + 1;
    }
  }

  /** `createConnection`: opens the wall cell and then the target cell, then adds the walls
      around the target, read from the updated grid. */
  method CreateConnection(grid: array2<int>, wallRow: int, wallCol: int, targetRow: int, targetCol: int,
                          walls: seq<Wall>)
    returns (walls': seq<Wall>)
    requires 0 <= wallRow < grid.Length0 && 0 <= wallCol < grid.Length1
    requires 0 <= targetRow < grid.Length0 && 0 <= targetCol < grid.Length1
    modifies grid
    ensures Snapshot(grid) == old(Snapshot(grid)).(code := old(Snapshot(grid)).code[Pos(wallRow, wallCol) := PATH][Pos(targetRow, targetCol) := PATH])
    ensures walls' == walls + AdjacentWalls(Snapshot(grid), Pos(targetRow, targetCol))
  {
    ghost var b := Snapshot(grid);
    grid[wallRow, wallCol] := PATH;
    grid[targetRow, targetCol] := PATH;
    ghost var b' := b.(code := b.code[Pos(wallRow, wallCol) := PATH][Pos(targetRow, targetCol) := PATH]);
    assert Snapshot(grid).code == b'.code;
    walls' := AddAdjacentWalls(grid, targetRow, targetCol, walls);
  }

  /** `tryCreatePath`: carves through `wall` as `Carving` says, appending the walls around the
      newly opened cell, or changes nothing. */
  method TryCreatePath(grid: array2<int>, wall: Wall, walls: seq<Wall>) returns (walls': seq<Wall>)
    modifies grid
    ensures Snapshot(grid) == Carve(old(Snapshot(grid)), wall)
    ensures var c := old(Carving(Snapshot(grid), wall));
      walls' == walls + if c.Some? then AdjacentWalls(Snapshot(grid), c.value.1) else []
  {
    ghost var b := Snapshot(grid);
    CarvingSides(b, wall);
    var row, col := wall.row, wall.col;
    var direction := wall.Direction();
    var nextRow, nextCol := row + direction.0, col + direction.1;
    var prevRow, prevCol := row - direction.0, col - direction.1;
    if !Interior(grid.Length0, grid.Length1, nextRow, nextCol) || !Interior(grid.Length0, grid.Length1, prevRow, prevCol) {
      return walls;
    }
    if grid[nextRow, nextCol] == WALL && grid[prevRow, prevCol] == PATH {
      walls' := CreateConnection(grid, row, col, nextRow, nextCol, walls);
    } else if grid[prevRow, prevCol] == WALL && grid[nextRow, nextCol] == PATH {
      walls' := CreateConnection(grid, row, col, prevRow, prevCol, walls);
    } else {
      walls' := walls + [];
    }
  }

  /** `processWalls`: takes walls out of the list at the drawn index (`draws(k)` stands for the
      k-th `nextInt(walls.size())`, taken modulo the size) and tries to carve through each,
      until the list is empty. Cells are only ever opened, the border stays closed, every open
      cell stays connected to the start, and, when the start is interior, every interior cell
      of the odd lattice ends up open. */
  method ProcessWalls(grid: array2<int>, walls: seq<Wall>, draws: nat -> nat,
                      ghost root: Pos, ghost par: map<Pos, Pos>, ghost rank: map<Pos, nat>)
    requires Carved(Snapshot(grid), root, par, rank, walls)
    modifies grid
    ensures Opened(Snapshot(grid), root) && Grows(old(Snapshot(grid)), Snapshot(grid))
  {
    var ws := walls;
    var k := 0;
    ghost var P, R := par, rank;
    ghost var b0 := Snapshot(grid);
    while ws != []
      invariant Carved(Snapshot(grid), root, P, R, ws) && Grows(b0, Snapshot(grid))
      decreases WallCells(Snapshot(grid)), |ws|
    {
      var i := draws(k) % |ws|;
      var wall := ws[i];
      ghost var b := Snapshot(grid);
      ghost var rest := ws[..i] + ws[i + 1..];
      P, R := Round(b, root, P, R, ws, i, rest);
      ws := ws[..i] + ws[i + 1..];
      ws := TryCreatePath(grid, wall, ws);
      GrowsTrans(b0, b, Snapshot(grid));
      k := k + 1;
    }
    Finished(Snapshot(grid), root, P, R);
  }

  /** The carving part of `generate`: fills the grid with WALL, opens the drawn odd cell, lists
      the walls around it and processes them until none is left. Returns the drawn cell. */
  method CarveFrom(grid: array2<int>, rowDraw: nat, colDraw: nat, draws: nat -> nat) returns (start: Pos)
    requires grid.Length0 >= 2 && grid.Length1 >= 2
    modifies grid
    ensures start == SelectRandomOddPosition(grid.Length0, grid.Length1, rowDraw, colDraw)
    ensures Opened(Snapshot(grid), start)
    ensures grid.Length0 % 2 == 1 && grid.Length1 % 2 == 1 && grid.Length0 >= 3 && grid.Length1 >= 3 ==> Snapshot(grid).Inside(start)
  {
    InitializeWalls(grid);
    start := SelectRandomOddPosition(grid.Length0, grid.Length1, rowDraw, colDraw);
    grid[start.x, start.y] := PATH;
    ghost var b := Snapshot(grid);
    assert forall p :: p in b.code ==> b.code[p] == if p == start then PATH else WALL;
    Seeded(b, start);
    var walls := AddAdjacentWalls(grid, start.x, start.y, []);
    assert walls == AdjacentWalls(b, start);
    ProcessWalls(grid, walls, draws, start, map[], map[start := 0]);
    if grid.Length0 % 2 == 1 && grid.Length1 % 2 == 1 && grid.Length0 >= 3 && grid.Length1 >= 3 {
      OddSidesStartInside(grid.Length0, grid.Length1, rowDraw, colDraw);
    }
  }
}
