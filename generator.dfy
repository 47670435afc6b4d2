/** Maze/MazeGenerator.java: generates a maze with randomised Prim's algorithm on a `Maze`. The
    random draws are parameters: `rowDraw` and `colDraw` for the start cell, and `draws` for
    the walls taken from the list. */
module PrimGenerator {
  import opened Common
  import opened Mazes
  import opened Walls
  import opened PrimBoard
  import opened Prim

  class MazeGenerator {
    const maze: Maze

    constructor (maze: Maze)
      ensures this.maze == maze
    {
      this.maze := maze;
    }

    /** `setStartAndEndPoints`: the start is the top-left interior corner and the end the
        bottom-right one; both are recorded on the maze and their cells marked, the end last. */
    method SetStartAndEndPoints()
      requires maze.Valid() && maze.rows >= 2 && maze.cols >= 2
      modifies maze, maze.grid
      ensures maze.start == Some(Pos(1, 1)) && maze.end == Some(Pos(maze.rows - 2, maze.cols - 2))
      ensures Snapshot(maze.grid) == Marked(old(Snapshot(maze.grid)))
    {
      ghost var b := Snapshot(maze.grid);
      var start := Pos(1, 1);
      var end := Pos(maze.rows - 2, maze.cols - 2);
      maze.SetStart(start);
      maze.SetEnd(end);
      maze.SetCell(start.x, start.y, START);
      maze.SetCell(end.x, end.y, END);
      assert Snapshot(maze.grid).code == Marked(b).code;
    }

    /** `generate`: fills the grid with WALL, opens the drawn start cell, lists the walls around
        it, carves until the list is empty and marks START and END; the codes left are those
        `Generated` describes for a carving from the drawn cell. */
    method Generate(rowDraw: nat, colDraw: nat, draws: nat -> nat)
      requires maze.Valid() && maze.rows >= 2 && maze.cols >= 2
      modifies maze, maze.grid
      ensures maze.start == Some(Pos(1, 1)) && maze.end == Some(Pos(maze.rows - 2, maze.cols - 2))
      ensures Generated(Snapshot(maze.grid), SelectRandomOddPosition(maze.rows, maze.cols, rowDraw, colDraw))
    {
      var startPoint := CarveFrom(maze.grid, rowDraw, colDraw, draws);
      ghost var carved := Snapshot(maze.grid);
      SetStartAndEndPoints();
      MarkedFacts(carved, startPoint);
    }
  }
}
