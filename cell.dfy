/** Maze/Cell.java: one terrain cell with its per-search scratch state. */
module Cells {

  const WALL := 0
  const GRASS := 1
  const MUD := 2
  const WATER := 3

  const COST_GRASS: nat := 1
  const COST_MUD: nat := 5
  const COST_WATER: nat := 10
  /** The weight `getWeight` reports for a wall or any unknown terrain code. */
  const COST_OTHER: nat := 999

  /** A `double` cost that is an integer or `Double.MAX_VALUE`, the "infinite" sentinel. */
  datatype Cost = Fin(n: nat) | Inf

  /** `a < b` on the doubles the costs stand for. */
  predicate Below(a: Cost, b: Cost)
  {
    match a
    case Inf => false
    case Fin(x) => b.Inf? || x < b.n
  }

  class Cell {
    const r: int
    const c: int
    var terrain: int
    var visited: bool
    var parent: Cell?
    var gCost: Cost
    var hCost: nat
    var fCost: Cost

    /** The scratch state `reset` leaves behind. */
    predicate IsReset()
      reads this
    {
      !visited && parent == null && gCost == Inf && hCost == 0 && fCost == Inf
    }

    constructor (r: int, c: int, terrain: int)
      ensures this.r == r && this.c == c && this.terrain == terrain
      ensures IsReset()
    {
      this.r := r;
      this.c := c;
      this.terrain := terrain;
      visited := false;
      parent := null;
      gCost := Inf;
      hCost := 0;
      fCost := Inf;
    }

    /** Clears the search scratch state; the coordinates and the terrain are kept. */
    method Reset()
      modifies this`visited, this`parent, this`gCost, this`hCost, this`fCost
      ensures IsReset()
      ensures terrain == old(terrain)
    {
      visited := false;
      parent := null;
      gCost := Inf;
      hCost := 0;
      fCost := Inf;
    }

    /** The traversal weight of this cell's terrain. */
    function GetWeight(): nat
      reads this`terrain
    {
      Weight(terrain)
    }

    /** `Double.compare(this.fCost, other.fCost)`: the order the priority queues use. */
    function CompareTo(other: Cell): (cmp: int)
      reads this`fCost, other`fCost
      ensures cmp in {-1, 0, 1}
      ensures cmp < 0 <==> Below(fCost, other.fCost)
      ensures cmp == 0 <==> fCost == other.fCost
      ensures cmp > 0 <==> Below(other.fCost, fCost)
    {
      match (fCost, other.fCost)
      case (Inf, Inf) => 0
      case (Inf, Fin(_)) => 1
      case (Fin(_), Inf) => -1
      case (Fin(a), Fin(b)) => if a < b then -1 else if a == b then 0 else 1
    }
  }

  /** The traversal weight of a terrain code: grass 1, mud 5, water 10, anything else (a wall
      included) 999. */
  function Weight(terrain: int): (w: nat)
    ensures w >= 1
    ensures w <= COST_WATER <==> terrain in {GRASS, MUD, WATER}
    ensures terrain == GRASS <==> w == COST_GRASS
  {
    if terrain == GRASS then COST_GRASS
    else if terrain == MUD then COST_MUD
    else if terrain == WATER then COST_WATER
    else COST_OTHER
  }
}
