/** A maze that Maze/MazeGenerator.java generates with odd sides can be solved: the passage
    between START and END that the carving leaves is a walk the searches of
    Maze/BFSPathFinder.java and Maze/DFSPathFinder.java accept, so they find a path. */
module Solvable {
  import opened Common
  import opened Mazes
  import opened SearchState
  import opened PrimBoard
  import opened PathFinders

  /** The last place `x` occurs in `w`. */
  lemma LastVisit(w: seq<Pos>, x: Pos) returns (k: nat)
    requires x in w
    ensures k < |w| && w[k] == x && forall j :: k < j < |w| ==> w[j] != x
  {
    k := |w| - 1;
    while w[k] != x
      invariant k < |w| && x in w[..k + 1]
      invariant forall j :: k < j < |w| ==> w[j] != x
      decreases k
    {
      assert w[..k + 1] == w[..k] + [w[k]];
      k := k - 1;
    }
  }

  /** A passage from `from` cut at a later visit of `mid` is a passage from `mid`. */
  lemma PassageSuffix(b: Board, w: seq<Pos>, from: Pos, to: Pos, k: nat)
    requires Passage(b, w, from, to) && k < |w|
    ensures Passage(b, w[k..], w[k], to)
  {
    var s := w[k..];
    forall i | 0 < i < |s|
      ensures Adjacent(s[i - 1], s[i])
    {
      assert s[i - 1] == w[k + i - 1] && s[i] == w[k + i];
    }
  }

  /** A generated maze with odd sides of at least three cells has a walk from START to END
      through open cells: cut the passage the carving left at its last visit of START; every
      later cell is then PATH or END, and off the closed border. */
  lemma GeneratedSolvable(grid: array2<int>, root: Pos)
    requires var b := Snapshot(grid);
      Generated(b, root) && b.rows % 2 == 1 && b.cols % 2 == 1 && b.rows >= 3 && b.cols >= 3
    ensures var start, end := Pos(1, 1), Pos(grid.Length0 - 2, grid.Length1 - 2);
      exists w :: GridWalk(grid, w, start, end)
  {
    var b := Snapshot(grid);
    var start, end := Pos(1, 1), Pos(grid.Length0 - 2, grid.Length1 - 2);
    var w :| Passage(b, w, start, end);
    var k := LastVisit(w, start);
    PassageSuffix(b, w, start, end, k);
    var v := w[k..];
    forall i | 0 < i < |v|
      ensures Open(grid, v[i])
    {
      var c := v[i];
      assert c == w[k + i] && c != start;
      assert c in b.code && b.code[c] != WALL;
      InteriorOrBorder(grid.Length0, grid.Length1, c.x, c.y);
      assert b.Inside(c);
    }
    assert GridWalk(grid, v, start, end);
  }

  /** So on a maze `generate` produced with odd sides, `findPath` from START to END, breadth- or
      depth-first, always reports a path, and that path walks from START to END. */
  lemma GeneratedFindsPath(grid: array2<int>, root: Pos, r: SearchResult)
    requires var b := Snapshot(grid);
      Generated(b, root) && b.rows % 2 == 1 && b.cols % 2 == 1 && b.rows >= 3 && b.cols >= 3
    requires Answers(grid, Pos(1, 1), Pos(grid.Length0 - 2, grid.Length1 - 2), r)
    ensures r.pathFound && r.finalPath != []
    ensures GridWalk(grid, r.finalPath, Pos(1, 1), Pos(grid.Length0 - 2, grid.Length1 - 2))
  {
    GeneratedSolvable(grid, root);
  }
}
