/** MazeGenerator.java (the stand-alone frame): a fixed 25 x 25 maze with its own copy of the
    Prim carving and of the breadth- and depth-first searches, and the lists of explored cells
    and of the solution path it draws. The carving and the searches run the same steps as
    Maze/MazeGenerator.java and Maze/BFSPathFinder.java and reuse their models. */
module SolverFrame {
  import opened Common
  import opened Mazes
  import opened SearchState
  import opened GridSearch
  import opened PrimBoard
  import opened Prim
  import opened Solvable

  const ROWS := 25
  const COLS := 25

  /** `isValid`: strictly inside the fixed-size grid. */
  predicate IsValid(r: int, c: int)
    ensures IsValid(r, c) ==> 0 <= r < ROWS && 0 <= c < COLS && !OnBorder(ROWS, COLS, r, c)
  {
    r > 0 && r < ROWS - 1 && c > 0 && c < COLS - 1
  }

  class MazeGenerator {
    const maze: array2<int>
    const visited: array2<bool>
    var path: seq<Pos>
    var explored: seq<Pos>
    var start: Option<Pos>
    var end: Option<Pos>
    /** The cell the last carving started from. */
    ghost var root: Pos

    /** Both grids have the fixed size. */
    ghost predicate Sized()
      reads this
    {
      maze.Length0 == ROWS && maze.Length1 == COLS && visited.Length0 == ROWS && visited.Length1 == COLS
    }

    /** After `generateMaze`: START and END at the two interior corners, and the codes a
        carving from `root` leaves. */
    ghost predicate Valid()
      reads this, maze
    {
      && Sized()
      && start == Some(Pos(1, 1)) && end == Some(Pos(ROWS - 2, COLS - 2))
      && Generated(Snapshot(maze), root)
    }

    /** The constructor allocates the grids and generates a first maze from the given draws. */
    constructor (rowDraw: nat, colDraw: nat, draws: nat -> nat)
      ensures Valid() && fresh(maze) && fresh(visited)
      ensures root == SelectRandomOddPosition(ROWS, COLS, rowDraw, colDraw)
      ensures path == [] && explored == []
    {
      maze := new int[ROWS, COLS];
      visited := new bool[ROWS, COLS];
      path := [];
      explored := [];
      start := None;
      end := None;
      new;
      GenerateMaze(rowDraw, colDraw, draws);
    }

    /** `generateMaze`: fills the grid with WALL, opens the drawn odd cell, carves until no
        wall is left to try, marks START at (1, 1) and END at (ROWS - 2, COLS - 2), and clears
        the path, the explored cells and the visited flags. */
    method GenerateMaze(rowDraw: nat, colDraw: nat, draws: nat -> nat)
      requires Sized()
      modifies this, maze, visited
      ensures Valid() && root == SelectRandomOddPosition(ROWS, COLS, rowDraw, colDraw)
      ensures path == [] && explored == []
      ensures forall i, j :: 0 <= i < ROWS && 0 <= j < COLS ==> !visited[i, j]
    {
      var startPoint := CarveFrom(maze, rowDraw, colDraw, draws);
      root := startPoint;
      ghost var carved := Snapshot(maze);
      MarkStartAndEnd();
      MarkedFacts(carved, startPoint);
      path := [];
      explored := [];
      ResetVisited();
    }

    /** The end of `generateMaze`'s carving: START at (1, 1) and END at (ROWS - 2, COLS - 2),
        recorded and marked on the grid, the end last. */
    method MarkStartAndEnd()
      requires Sized()
      modifies this`start, this`end, maze
      ensures start == Some(Pos(1, 1)) && end == Some(Pos(ROWS - 2, COLS - 2))
      ensures Snapshot(maze) == Marked(old(Snapshot(maze)))
    {
      ghost var b := Snapshot(maze);
      start := Some(Pos(1, 1));
      end := Some(Pos(ROWS - 2, COLS - 2));
      maze[1, 1] := START;
      maze[ROWS - 2, COLS - 2] := END;
      assert Snapshot(maze).code == Marked(b).code;
    }

    /** `resetVisited`: clears every visited flag, row by row. */
    method ResetVisited()
      requires Sized()
      modifies visited
      ensures forall i, j :: 0 <= i < ROWS && 0 <= j < COLS ==> !visited[i, j]
    {
      var i := 0;
      while i < ROWS
        invariant 0 <= i <= ROWS
        invariant forall r, c :: 0 <= r < i && 0 <= c < COLS ==> !visited[r, c]
      {
        var j := 0;
        while j < COLS
          invariant 0 <= j <= COLS
          invariant forall r, c :: 0 <= r < i && 0 <= c < COLS ==> !visited[r, c]
          invariant forall c :: 0 <= c < j ==> !visited[i, c]
        {
          visited[i, j] := false;
          j := j + 1;
        }
        i := i + 1;
      }
    }

    /** `buildPath`: follows the parent links back from `endNode`, putting each cell in front
        of the path. */
    method BuildPath(endNode: Node)
      modifies this`path
      ensures path == Ancestry(endNode) + old(path)
    {
      var current := Some(endNode);
      while current.Some?
        invariant Ancestry(endNode) + old(path) == Chain(current) + path
        decreases current
      {
        path := [ToPoint(current.value)] + path;
        current := current.value.parent;
      }
    }

    /** `solveBFS` (`lifo` false) and `solveDFS` (`lifo` true), with the net effect of the
        animation that follows: the explored cells are those the search took, in order, and
        the path is rebuilt from the end's node. On a generated maze the end is always reached,
        so the path is a walk from START to END. */
    method Solve(lifo: bool)
      requires Valid()
      modifies this`path, this`explored, visited
      ensures Valid()
      ensures explored != [] && explored[0] == Pos(1, 1) && Distinct(explored)
      ensures explored[|explored| - 1] == Pos(ROWS - 2, COLS - 2)
      ensures forall i :: 0 < i < |explored| ==> Open(maze, explored[i])
      ensures GridWalk(maze, path, Pos(1, 1), Pos(ROWS - 2, COLS - 2))
    {
      ResetVisited();
      path := [];
      explored := [];
      var order, endNode := Search(maze, visited, start.value, end.value, lifo);
      explored := explored + order;
      GeneratedSolvable(maze, root);
      BuildPath(endNode.value);
    }

    /** `solveBFS`: the breadth-first search, a queue of discovered cells. */
    method SolveBFS()
      requires Valid()
      modifies this`path, this`explored, visited
      ensures Valid()
      ensures explored != [] && explored[0] == Pos(1, 1) && Distinct(explored)
      ensures explored[|explored| - 1] == Pos(ROWS - 2, COLS - 2)
      ensures forall i :: 0 < i < |explored| ==> Open(maze, explored[i])
      ensures GridWalk(maze, path, Pos(1, 1), Pos(ROWS - 2, COLS - 2))
    {
      Solve(false);
    }

    /** `solveDFS`: the depth-first search, a stack of discovered cells. */
    method SolveDFS()
      requires Valid()
      modifies this`path, this`explored, visited
      ensures Valid()
      ensures explored != [] && explored[0] == Pos(1, 1) && Distinct(explored)
      ensures explored[|explored| - 1] == Pos(ROWS - 2, COLS - 2)
      ensures forall i :: 0 < i < |explored| ==> Open(maze, explored[i])
      ensures GridWalk(maze, path, Pos(1, 1), Pos(ROWS - 2, COLS - 2))
    {
      Solve(true);
    }

    /** `reset`: clears the path, the explored cells and the visited flags; the maze stays. */
    method Reset()
      requires Valid()
      modifies this`path, this`explored, visited
      ensures Valid() && path == [] && explored == []
      ensures forall i, j :: 0 <= i < ROWS && 0 <= j < COLS ==> !visited[i, j]
    {
      path := [];
      explored := [];
      ResetVisited();
    }
  }
}
