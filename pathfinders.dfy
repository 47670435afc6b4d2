/** Maze/BFSPathFinder.java and Maze/DFSPathFinder.java: the two `PathFinder`s over a `Maze`.
    They differ only in the frontier they keep, a queue or a stack. */
module PathFinders {
  import opened Common
  import opened Mazes
  import opened SearchState
  import opened GridSearch

  /** Maze/SearchResult.java: the cells in the order they were explored, the path found (empty
      when there is none) and whether one was found. */
  datatype SearchResult = SearchResult(exploredNodes: seq<Pos>, finalPath: seq<Pos>, pathFound: bool)

  /** What a finder promises about its result on `grid`: the start is explored first and no cell
      twice, every later cell is open, a path is found exactly when the end was explored (and then
      last), the path is a walk from start to end through open cells, and when there is no path
      no walk reaches the end at all. */
  ghost predicate Answers(grid: array2<int>, start: Pos, end: Pos, r: SearchResult)
    reads grid
  {
    && r.exploredNodes != [] && r.exploredNodes[0] == start && Distinct(r.exploredNodes)
    && (forall i :: 0 < i < |r.exploredNodes| ==> Open(grid, r.exploredNodes[i]))
    && (r.pathFound <==> end in r.exploredNodes)
    && (r.pathFound ==> r.exploredNodes[|r.exploredNodes| - 1] == end && GridWalk(grid, r.finalPath, start, end))
    && (!r.pathFound ==> r.finalPath == [] && forall w :: !GridWalk(grid, w, start, end))
  }

  /** `findPath`, shared by both finders: clears the visited flags, searches from the maze's
      start with the given frontier discipline and rebuilds the path from the end's node. */
  method FindPathWith(maze: Maze, lifo: bool) returns (r: SearchResult)
    requires maze.Valid() && maze.start.Some? && maze.end.Some?
    requires InGrid(maze.grid, maze.start.value)
    modifies maze.visited
    ensures Answers(maze.grid, maze.start.value, maze.end.value, r)
  {
    maze.ResetVisited();
    var explored, endNode := Search(maze.grid, maze.visited, maze.start.value, maze.end.value, lifo);
    var finalPath := BuildPath(endNode);
    r := SearchResult(explored, finalPath, endNode.Some?);
  }

  class BFSPathFinder {
    /** Breadth-first: the frontier is a queue. */
    method FindPath(maze: Maze) returns (r: SearchResult)
      requires maze.Valid() && maze.start.Some? && maze.end.Some?
      requires InGrid(maze.grid, maze.start.value)
      modifies maze.visited
      ensures Answers(maze.grid, maze.start.value, maze.end.value, r)
    {
      r := FindPathWith(maze, false);
    }
  }

  class DFSPathFinder {
    /** Depth-first: the frontier is a stack. */
    method FindPath(maze: Maze) returns (r: SearchResult)
      requires maze.Valid() && maze.start.Some? && maze.end.Some?
      requires InGrid(maze.grid, maze.start.value)
      modifies maze.visited
      ensures Answers(maze.grid, maze.start.value, maze.end.value, r)
    {
      r := FindPathWith(maze, true);
    }
  }
}
