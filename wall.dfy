/** Maze/Support/Wall.java (and the identical inner class `Wall` of MazeGenerator.java): a wall
    cell between two passage cells of the odd lattice. */
module Walls {
  import opened Common

  datatype Wall = Wall(row: int, col: int)
  {
    /** `getDirection`: the offset from the wall to the passage cells on its two sides. A wall
        on an even row separates the cells above and below it; on an odd row, the cells to its
        left and right. */
    function Direction(): (int, int)
    {
      if JavaMod(row, 2) == 0 then (1, 0) else (0, 1)
    }

    /** The passage cell one step along the direction, and the one one step against it. */
    function Next(): Pos
    {
      Pos(row + Direction().0, col + Direction().1)
    }

    function Prev(): Pos
    {
      Pos(row - Direction().0, col - Direction().1)
    }
  }

  /** The direction is a unit vector along exactly one axis, so both sides are one step from
      the wall and two steps from each other, in a straight line. */
  lemma DirectionUnit(w: Wall)
    ensures Abs(w.Direction().0) + Abs(w.Direction().1) == 1
    ensures Manhattan(w.row, w.col, w.Next().x, w.Next().y) == 1
    ensures Manhattan(w.row, w.col, w.Prev().x, w.Prev().y) == 1
    ensures Manhattan(w.Next().x, w.Next().y, w.Prev().x, w.Prev().y) == 2
    ensures w.Next() != w.Prev()
  {
  }

  /** Java's parity test agrees with the mathematical one, negative rows included. */
  lemma DirectionParity(w: Wall)
    ensures w.Direction() == (if w.row % 2 == 0 then (1, 0) else (0, 1))
  {
    var q := JavaDiv(w.row, 2);
    assert w.row == q * 2 + JavaMod(w.row, 2);
  }
}
