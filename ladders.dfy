/** The ladder table and the serpentine board layout shared by LadderAdventureGame.java and
    SnakeBoardGame.java (each file declares its own identical `Ladder` class and board constants). */
module Ladders {
  import opened Common

  const BOARD_COLS := 8
  const BOARD_ROWS := 8
  const NODE_SIZE := 70
  /** Both games' `startGameWithPlayers` give player `i` the colour `colors[i]` of a six-entry
      table, so a seventh player would index past it. */
  const MAX_PLAYERS := 6

  /** A ladder: landing exactly on `bottom` climbs to `top`. */
  datatype Ladder = Ladder(bottom: int, top: int)

  /** The ladders both games install, in list order. */
  const LADDERS: seq<Ladder> := [Ladder(2, 23), Ladder(4, 14), Ladder(8, 30), Ladder(15, 37),
                                 Ladder(20, 42), Ladder(28, 50), Ladder(40, 59), Ladder(51, 61)]

  /** Every ladder leads upwards and both of its ends lie in `lo..hi`. */
  ghost predicate Upward(ladders: seq<Ladder>, lo: int, hi: int)
  {
    forall i :: 0 <= i < |ladders| ==> lo <= ladders[i].bottom < ladders[i].top <= hi
  }

  /** No ladder ends where another one starts. */
  ghost predicate Unchained(ladders: seq<Ladder>)
  {
    forall i, j :: 0 <= i < |ladders| && 0 <= j < |ladders| ==> ladders[i].top != ladders[j].bottom
  }

  lemma TableShape()
    ensures Upward(LADDERS, 0, 61) && Unchained(LADDERS)
  {
  }

  /** The index of the first ladder whose bottom is `pos`, the one the `for`/`break` loop takes. */
  function FirstLadder(ladders: seq<Ladder>, pos: int): (k: Option<nat>)
    ensures k.Some? ==> k.value < |ladders| && ladders[k.value].bottom == pos
    ensures k.Some? ==> forall j :: 0 <= j < k.value ==> ladders[j].bottom != pos
    ensures k.None? <==> forall j :: 0 <= j < |ladders| ==> ladders[j].bottom != pos
  {
    if ladders == [] then None
    else if ladders[0].bottom == pos then Some(0)
    else match FirstLadder(ladders[1..], pos)
      case None => None
      case Some(i) => Some(i + 1)
  }

  /** Where a player who lands on `pos` ends up: one ladder at most. */
  function Climb(ladders: seq<Ladder>, pos: int): int
  {
    match FirstLadder(ladders, pos)
    case None => pos
    case Some(i) => ladders[i].top
  }

  /** Climbing never moves a player down, and a climb ends on the top of some ladder. */
  lemma ClimbBounds(ladders: seq<Ladder>, lo: int, hi: int, pos: int)
    requires Upward(ladders, lo, hi)
    ensures pos <= Climb(ladders, pos)
    ensures Climb(ladders, pos) == pos || lo < Climb(ladders, pos) <= hi
    ensures Climb(ladders, pos) != pos <==> exists i :: 0 <= i < |ladders| && ladders[i].bottom == pos
  {
  }

  /** With no ladder starting at another's top, a second check never climbs again. */
  lemma ClimbOnce(ladders: seq<Ladder>, pos: int)
    requires Unchained(ladders)
    ensures Climb(ladders, Climb(ladders, pos)) == Climb(ladders, pos)
  {
    match FirstLadder(ladders, pos)
    case None =>
    case Some(i) =>
      assert FirstLadder(ladders, ladders[i].top).None? by {
        forall j | 0 <= j < |ladders|
          ensures ladders[j].bottom != ladders[i].top
        {
        }
      }
  }

  /** The board square, as (row from the top, column from the left), of the node with index
      `idx` counted from the bottom-left square: rows alternate direction. */
  function Square(idx: int): (rc: (int, int))
  {
    var row := JavaDiv(idx, BOARD_COLS);
    var col := JavaMod(idx, BOARD_COLS);
    var leftToRight := JavaMod(row, 2) == 0;
    (BOARD_ROWS - 1 - row, if leftToRight then col else BOARD_COLS - 1 - col)
  }

  /** The pixel centre `getNodePosition` draws a node at, for its board square. */
  function Centre(rc: (int, int)): Pos
  {
    Pos(30 + rc.1 * NODE_SIZE + 30, 30 + rc.0 * NODE_SIZE + 30)
  }

  lemma SquareOnBoard(idx: int)
    requires 0 <= idx < BOARD_ROWS * BOARD_COLS
    ensures 0 <= Square(idx).0 < BOARD_ROWS && 0 <= Square(idx).1 < BOARD_COLS
    ensures Square(idx).0 == BOARD_ROWS - 1 - idx / BOARD_COLS
  {
  }

  /** Different nodes are drawn on different squares. */
  lemma SquareInjective(i: int, j: int)
    requires 0 <= i < BOARD_ROWS * BOARD_COLS && 0 <= j < BOARD_ROWS * BOARD_COLS && i != j
    ensures Square(i) != Square(j) && Centre(Square(i)) != Centre(Square(j))
  {
    if i / 8 == j / 8 {
      assert i % 8 != j % 8;
    }
  }

  /** Consecutive nodes are on squares that share a side: the board is one snaking track. */
  lemma SquareAdjacent(i: int)
    requires 0 <= i < BOARD_ROWS * BOARD_COLS - 1
    ensures Manhattan(Square(i).0, Square(i).1, Square(i + 1).0, Square(i + 1).1) == 1
  {
    var q, m := i / 8, i % 8;
    assert i == 8 * q + m && 0 <= m < 8 && 0 <= q < 8;
    if m == 7 {
      assert (i + 1) / 8 == q + 1 && (i + 1) % 8 == 0;
    } else {
      assert (i + 1) / 8 == q && (i + 1) % 8 == m + 1;
    }
    assert JavaDiv(i, BOARD_COLS) == q && JavaMod(i, BOARD_COLS) == m;
  }
}
