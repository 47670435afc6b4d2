/** Maze/Maze.java: an integer grid of cell codes with a parallel grid of visited flags. The
    codes are those of Maze/Mazes/MazeConstants.java. */
module Mazes {
  import opened Common

  const PATH := 0
  const WALL := 1
  const START := 2
  const END := 3

  /** `row`, `col` lies strictly inside a `rows` x `cols` grid, off its outer border. */
  predicate Interior(rows: int, cols: int, row: int, col: int)
  {
    row > 0 && row < rows - 1 && col > 0 && col < cols - 1
  }

  /** A position on the outer border of the grid. */
  predicate OnBorder(rows: int, cols: int, row: int, col: int)
  {
    0 <= row < rows && 0 <= col < cols && (row == 0 || row == rows - 1 || col == 0 || col == cols - 1)
  }

  /** Every in-bounds position is either interior or on the border, never both. */
  lemma InteriorOrBorder(rows: int, cols: int, row: int, col: int)
    requires 0 <= row < rows && 0 <= col < cols
    ensures Interior(rows, cols, row, col) <==> !OnBorder(rows, cols, row, col)
  {
  }

  /** A code the searches may step onto. */
  predicate Walkable(code: int)
  {
    code == PATH || code == END
  }

  class Maze {
    const rows: nat
    const cols: nat
    const grid: array2<int>
    const visited: array2<bool>
    var start: Option<Pos>
    var end: Option<Pos>

    ghost predicate Valid()
      reads this
    {
      grid.Length0 == rows && grid.Length1 == cols && visited.Length0 == rows && visited.Length1 == cols
    }

    /** A fresh maze: every cell holds the `int` default 0, which is PATH, and nothing is visited. */
    constructor (rows: nat, cols: nat)
      ensures Valid() && this.rows == rows && this.cols == cols && fresh(grid) && fresh(visited)
      ensures forall i, j :: 0 <= i < rows && 0 <= j < cols ==> grid[i, j] == PATH && !visited[i, j]
      ensures start == None && end == None
    {
      this.rows := rows;
      this.cols := cols;
      grid := new int[rows, cols]((i, j) => PATH);
      visited := new bool[rows, cols]((i, j) => false);
      start := None;
      end := None;
    }

    /** `setStart` and `setEnd`. */
    method SetStart(p: Pos)
      modifies this
      ensures start == Some(p) && end == old(end)
    {
      start := Some(p);
    }

    method SetEnd(p: Pos)
      modifies this
      ensures end == Some(p) && start == old(start)
    {
      end := Some(p);
    }

    /** `isValidPosition`: the position is inside the grid and off its border. */
    predicate IsValidPosition(row: int, col: int)
      reads this
      ensures IsValidPosition(row, col) ==> 0 <= row < rows && 0 <= col < cols
      ensures IsValidPosition(row, col) ==> !OnBorder(rows, cols, row, col)
      ensures 0 <= row < rows && 0 <= col < cols ==> (IsValidPosition(row, col) <==> !OnBorder(rows, cols, row, col))
    {
      Interior(rows, cols, row, col)
    }

    /** `isWalkable`: the cell holds PATH or END; START and WALL are not walkable. */
    predicate IsWalkable(row: int, col: int)
      requires Valid() && 0 <= row < rows && 0 <= col < cols
      reads this, grid
      ensures IsWalkable(row, col) ==> grid[row, col] != WALL && grid[row, col] != START
      ensures grid[row, col] in {PATH, WALL, START, END} ==>
        (IsWalkable(row, col) <==> grid[row, col] != WALL && grid[row, col] != START)
    {
      Walkable(grid[row, col])
    }

    /** Clears every visited flag, row by row; the cell codes are untouched. */
    method ResetVisited()
      requires Valid()
      modifies visited
      ensures forall i, j :: 0 <= i < rows && 0 <= j < cols ==> !visited[i, j]
    {
      var i := 0;
      while i < rows
        invariant 0 <= i <= rows
        invariant forall r, c :: 0 <= r < i && 0 <= c < cols ==> !visited[r, c]
      {
        var j := 0;
        while j < cols
          invariant 0 <= j <= cols
          invariant forall r, c :: 0 <= r < i && 0 <= c < cols ==> !visited[r, c]
          invariant forall c :: 0 <= c < j ==> !visited[i, c]
        {
          visited[i, j] := false;
          j := j + 1;
        }
        i := i + 1;
      }
    }

    method SetCell(row: int, col: int, value: int)
      requires Valid() && 0 <= row < rows && 0 <= col < cols
      modifies grid
      ensures GetCell(row, col) == value
      ensures forall i, j :: 0 <= i < rows && 0 <= j < cols && (i, j) != (row, col) ==>
        grid[i, j] == old(grid[i, j])
    {
      grid[row, col] := value;
    }

    function GetCell(row: int, col: int): int
      requires Valid() && 0 <= row < rows && 0 <= col < cols
      reads this, grid
    {
      grid[row, col]
    }

    method MarkVisited(row: int, col: int)
      requires Valid() && 0 <= row < rows && 0 <= col < cols
      modifies visited
      ensures IsVisited(row, col)
      ensures forall i, j :: 0 <= i < rows && 0 <= j < cols && (i, j) != (row, col) ==>
        visited[i, j] == old(visited[i, j])
    {
      visited[row, col] := true;
    }

    predicate IsVisited(row: int, col: int)
      requires Valid() && 0 <= row < rows && 0 <= col < cols
      reads this, visited
    {
      visited[row, col]
    }
  }
}
