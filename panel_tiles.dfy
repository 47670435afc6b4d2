/** The terrain codes of Maze/MazePanel.java's grid, as a value, and the steps `generateMaze`
    takes on them: the dense Prim carving over cells two apart, the braiding holes, the two
    forced corridors of `carvePath`, the terrain weighting and the start and end cells. */
module PanelTiles {
  import opened Common
  import opened Cells
  import opened SearchState

  /** The terrain code of every cell of a `rows` x `cols` grid. */
  datatype Tiles = Tiles(rows: int, cols: int, t: map<Pos, int>)
  {
    /** `isValid`: inside the grid, border included. */
    predicate Valid(p: Pos)
    {
      0 <= p.x < rows && 0 <= p.y < cols
    }

    /** A code for exactly the cells of the grid. */
    ghost predicate Wf()
    {
      forall p :: p in t <==> Valid(p)
    }

    predicate Interior(p: Pos)
    {
      0 < p.x < rows - 1 && 0 < p.y < cols - 1
    }

    /** Not a wall: reached by the carving, or walkable terrain once weighted. */
    predicate Open(p: Pos)
    {
      p in t && t[p] != WALL
    }

    predicate Closed(p: Pos)
    {
      p in t && t[p] == WALL
    }

    function With(p: Pos, v: int): Tiles
    {
      this.(t := t[p := v])
    }
  }

  /** The grids `generateMaze` works on: odd sides of at least three cells, a code per cell. */
  ghost predicate Shape(T: Tiles)
  {
    T.Wf() && T.rows % 2 == 1 && T.cols % 2 == 1 && T.rows >= 3 && T.cols >= 3
  }

  /** Every cell `T` opens is plain GRASS and off the border. */
  ghost predicate Plain(T: Tiles)
  {
    forall p :: T.Open(p) ==> T.t[p] == GRASS && T.Interior(p)
  }

  // ---------------------------------------------------------------------------
  // getNeighbors, addWalls
  // ---------------------------------------------------------------------------

  /** The cell `dist` away from `p` in direction `d`: up, down, left, right. */
  function Offset(p: Pos, dist: int, d: nat): Pos
  {
    if d == 0 then Pos(p.x - dist, p.y) else if d == 1 then Pos(p.x + dist, p.y)
    else if d == 2 then Pos(p.x, p.y - dist) else Pos(p.x, p.y + dist)
  }

  /** `getNeighbors(c, dist)` over the first `n` directions: the cells `dist` away that are inside
      the grid, in direction order. */
  function Around(T: Tiles, p: Pos, dist: int, n: nat): seq<Pos>
    requires n <= 4
  {
    if n == 0 then []
    else Around(T, p, dist, n - 1) + (if T.Valid(Offset(p, dist, n - 1)) then [Offset(p, dist, n - 1)] else [])
  }

  /** The open cells of `ps`, in order (the `visitedNeighbors` filter). */
  function OpenOf(T: Tiles, ps: seq<Pos>): seq<Pos>
  {
    if ps == [] then []
    else OpenOf(T, ps[..|ps| - 1]) + (if T.Open(ps[|ps| - 1]) then [ps[|ps| - 1]] else [])
  }

  lemma OpenOfStep(T: Tiles, ps: seq<Pos>, k: nat)
    requires k < |ps|
    ensures OpenOf(T, ps[..k + 1]) == OpenOf(T, ps[..k]) + if T.Open(ps[k]) then [ps[k]] else []
  {
    assert ps[..k + 1][..k] == ps[..k];
  }

  /** The open cells two away from `w`: the carving's `visitedNeighbors`. */
  function VisitedAround(T: Tiles, w: Pos): seq<Pos>
  {
    OpenOf(T, Around(T, w, 2, 4))
  }

  /** `addWalls` over the first `n` directions: the cells two away that are inside the grid and
      still WALL, in direction order. */
  function WallsAround(T: Tiles, p: Pos, n: nat): seq<Pos>
    requires n <= 4
  {
    if n == 0 then []
    else
      var q := Offset(p, 2, n - 1);
      WallsAround(T, p, n - 1) + (if T.Valid(q) && T.Closed(q) then [q] else [])
  }

  /** `q` is two cells from `p` along a row or a column. */
  predicate TwoAway(p: Pos, q: Pos)
  {
    (p.x == q.x && Abs(p.y - q.y) == 2) || (p.y == q.y && Abs(p.x - q.x) == 2)
  }

  lemma OffsetTwoAway(p: Pos, d: nat)
    requires d < 4
    ensures TwoAway(p, Offset(p, 2, d)) && Offset(p, 1, d) == Neighbor(p, d)
  {
  }

  lemma {:induction false} AroundFacts(T: Tiles, p: Pos, dist: int, n: nat)
    requires n <= 4 && dist > 0
    ensures |Around(T, p, dist, n)| <= n && Distinct(Around(T, p, dist, n))
    ensures forall q :: q in Around(T, p, dist, n) <==> T.Valid(q) && exists d :: 0 <= d < n && q == Offset(p, dist, d)
  {
    if n > 0 {
      AroundFacts(T, p, dist, n - 1);
      var q := Offset(p, dist, n - 1);
      forall d | 0 <= d < n - 1
        ensures q != Offset(p, dist, d)
      {
      }
    }
  }

  lemma {:induction false} OpenOfFacts(T: Tiles, ps: seq<Pos>)
    ensures |OpenOf(T, ps)| <= |ps|
    ensures forall q :: q in OpenOf(T, ps) <==> q in ps && T.Open(q)
    ensures Distinct(ps) ==> Distinct(OpenOf(T, ps))
    decreases |ps|
  {
    if ps != [] {
      var init := ps[..|ps| - 1];
      assert ps == init + [ps[|ps| - 1]];
      OpenOfFacts(T, init);
      if Distinct(ps) {
        assert Distinct(init);
        assert ps[|ps| - 1] !in init;
      }
    }
  }

  /** The visited neighbours are exactly the open cells two away, none twice. */
  lemma VisitedFacts(T: Tiles, w: Pos)
    ensures Distinct(VisitedAround(T, w)) && |VisitedAround(T, w)| <= 4
    ensures forall q :: q in VisitedAround(T, w) <==> T.Open(q) && T.Valid(q) && TwoAway(w, q)
  {
    AroundFacts(T, w, 2, 4);
    OpenOfFacts(T, Around(T, w, 2, 4));
    forall q | T.Valid(q) && TwoAway(w, q)
      ensures q in Around(T, w, 2, 4)
    {
      var d := if q.x == w.x - 2 then 0 else if q.x == w.x + 2 then 1 else if q.y == w.y - 2 then 2 else 3;
      assert q == Offset(w, 2, d);
    }
    forall q | q in Around(T, w, 2, 4)
      ensures TwoAway(w, q)
    {
      var d :| 0 <= d < 4 && q == Offset(w, 2, d);
      OffsetTwoAway(w, d);
    }
  }

  /** `addWalls` lists at most four cells, each inside the grid, still WALL and two away, on
      the odd lattice when `p` is. */
  lemma {:induction false} WallsAroundFacts(T: Tiles, p: Pos, n: nat)
    requires n <= 4
    ensures |WallsAround(T, p, n)| <= n
    ensures forall k :: 0 <= k < |WallsAround(T, p, n)| ==>
      var q := WallsAround(T, p, n)[k];
      T.Valid(q) && T.Closed(q) && TwoAway(p, q) && (Odd(p) ==> Odd(q))
  {
    if n > 0 {
      WallsAroundFacts(T, p, n - 1);
      OffsetTwoAway(p, n - 1);
    }
  }

  // ---------------------------------------------------------------------------
  // One round of the Prim loop
  // ---------------------------------------------------------------------------

  /** `(a + b) / 2` per coordinate: the cell between two cells two apart. */
  function Mid(a: Pos, b: Pos): Pos
  {
    Pos((a.x + b.x) / 2, (a.y + b.y) / 2)
  }

  /** What one taken wall does to the codes: when exactly one cell two away is open, the wall
      and the cell between them become GRASS; otherwise nothing changes. */
  function PrimStep(T: Tiles, w: Pos): Tiles
  {
    var vn := VisitedAround(T, w);
    if |vn| == 1 then T.With(w, GRASS).With(Mid(w, vn[0]), GRASS) else T
  }

  /** One round of the loop: the wall at index `i` leaves the list and is tried; a carved wall
      then lists the walls around it, read from the updated codes. */
  function Round(T: Tiles, ws: seq<Pos>, i: nat): (Tiles, seq<Pos>)
    requires i < |ws|
  {
    var w := ws[i];
    var T' := PrimStep(T, w);
    (T', ws[..i] + ws[i + 1..] + if |VisitedAround(T, w)| == 1 then WallsAround(T', w, 4) else [])
  }

  /** A Prim step carves exactly when one cell two away is open; it then opens the wall and the
      cell between the wall and that neighbour, one step from each, and nothing else. */
  lemma PrimStepOpens(T: Tiles, w: Pos)
    requires T.Wf() && T.Valid(w)
    ensures |VisitedAround(T, w)| != 1 ==> PrimStep(T, w) == T
    ensures |VisitedAround(T, w)| == 1 ==>
      var n := VisitedAround(T, w)[0];
      var m := Mid(w, n);
      && (forall q :: q in VisitedAround(T, w) <==> q == n)
      && T.Open(n) && TwoAway(w, n) && T.Valid(m) && Adjacent(w, m) && Adjacent(m, n)
      && PrimStep(T, w).Wf()
      && forall q :: q in T.t ==> PrimStep(T, w).t[q] == if q == w || q == m then GRASS else T.t[q]
  {
    VisitedFacts(T, w);
    if |VisitedAround(T, w)| == 1 {
      var n := VisitedAround(T, w)[0];
      assert n in VisitedAround(T, w);
    }
  }

  /** With two or more open cells two away, a wall is never carved: the rule leaves it WALL
      however often it is taken. */
  lemma PrimStepSkipsShared(T: Tiles, w: Pos, a: Pos, b: Pos)
    requires T.Wf() && T.Valid(w) && a != b
    requires T.Open(a) && T.Valid(a) && TwoAway(w, a) && T.Open(b) && T.Valid(b) && TwoAway(w, b)
    ensures PrimStep(T, w) == T
  {
    VisitedFacts(T, w);
    var vn := VisitedAround(T, w);
    assert a in vn && b in vn;
    var i :| 0 <= i < |vn| && vn[i] == a;
    var j :| 0 <= j < |vn| && vn[j] == b;
    assert i != j;
  }

  // ---------------------------------------------------------------------------
  // Walks and the carving invariant
  // ---------------------------------------------------------------------------

  /** A walk through open cells, one step at a time. */
  ghost predicate Walk(T: Tiles, w: seq<Pos>, from: Pos, to: Pos)
  {
    && |w| > 0 && w[0] == from && w[|w| - 1] == to
    && (forall k :: 0 <= k < |w| ==> T.Open(w[k]))
    && (forall k :: 0 < k < |w| ==> Adjacent(w[k - 1], w[k]))
  }

  /** Every open cell is reached from `root` by a walk. */
  ghost predicate Connected(T: Tiles, root: Pos)
  {
    forall p :: T.Open(p) ==> exists w :: Walk(T, w, root, p)
  }

  /** Same grid, and no open cell closes. */
  ghost predicate Grows(T: Tiles, T': Tiles)
  {
    T'.rows == T.rows && T'.cols == T.cols && forall p :: T.Open(p) ==> T'.Open(p)
  }

  lemma GrowsTrans(T1: Tiles, T2: Tiles, T3: Tiles)
    requires Grows(T1, T2) && Grows(T2, T3)
    ensures Grows(T1, T3)
  {
  }

  lemma WalkGrows(T: Tiles, T': Tiles, w: seq<Pos>, from: Pos, to: Pos)
    requires Walk(T, w, from, to) && Grows(T, T')
    ensures Walk(T', w, from, to)
  {
  }

  /** Opening more cells keeps every walk: each cell open in `T` is still reached in `T'`. */
  lemma ReachGrows(T: Tiles, T': Tiles, root: Pos)
    requires Connected(T, root) && Grows(T, T')
    ensures forall p :: T.Open(p) ==> exists w :: Walk(T', w, root, p)
  {
    forall p | T.Open(p)
      ensures exists w :: Walk(T', w, root, p)
    {
      var w :| Walk(T, w, root, p);
      WalkGrows(T, T', w, root, p);
    }
  }

  /** What the Prim loop keeps, with `ws` the list of walls still to take: the shape, an open
      root on the odd lattice, plain GRASS off the border for every open cell, listed walls on
      the odd lattice inside the grid, and every open cell reached from the root. */
  ghost predicate Carving(T: Tiles, ws: seq<Pos>, root: Pos)
  {
    && Shape(T) && Plain(T) && Odd(root) && T.Open(root)
    && (forall k :: 0 <= k < |ws| ==> Odd(ws[k]) && T.Valid(ws[k]))
    && Connected(T, root)
  }

  /** The cells still WALL. */
  ghost function Zeros(T: Tiles): set<Pos>
  {
    set p | p in T.t && T.t[p] == WALL
  }

  /** The list's weight: one per listed cell still WALL, five per listed cell already open. A
      taken wall that was already open lists at most four WALL cells, so the weight drops. */
  function Load(T: Tiles, ws: seq<Pos>): nat
  {
    if ws == [] then 0 else Load(T, ws[..|ws| - 1]) + (if T.Closed(ws[|ws| - 1]) then 1 else 5)
  }

  lemma {:induction false} LoadAppend(T: Tiles, a: seq<Pos>, b: seq<Pos>)
    ensures Load(T, a + b) == Load(T, a) + Load(T, b)
    decreases |b|
  {
    if b == [] {
      assert a + b == a;
    } else {
      var b' := b[..|b| - 1];
      assert (a + b)[..|a + b| - 1] == a + b';
      LoadAppend(T, a, b');
    }
  }

  lemma LoadRemove(T: Tiles, ws: seq<Pos>, i: nat)
    requires i < |ws|
    ensures Load(T, ws) == Load(T, ws[..i] + ws[i + 1..]) + if T.Closed(ws[i]) then 1 else 5
  {
    assert ws == ws[..i] + [ws[i]] + ws[i + 1..];
    LoadAppend(T, ws[..i] + [ws[i]], ws[i + 1..]);
    LoadAppend(T, ws[..i], [ws[i]]);
    LoadAppend(T, ws[..i], ws[i + 1..]);
    assert Load(T, [ws[i]]) == Load(T, []) + if T.Closed(ws[i]) then 1 else 5;
  }

  lemma {:induction false} LoadOfWalls(T: Tiles, p: Pos, n: nat)
    requires n <= 4
    ensures Load(T, WallsAround(T, p, n)) == |WallsAround(T, p, n)|
  {
    if n > 0 {
      LoadOfWalls(T, p, n - 1);
      var q := Offset(p, 2, n - 1);
      LoadAppend(T, WallsAround(T, p, n - 1), if T.Valid(q) && T.Closed(q) then [q] else []);
    }
  }

  /** A Prim step on a listed wall keeps the shape and plainness and only opens cells; either a
      WALL cell opens or nothing changes. */
  lemma StepCodes(T: Tiles, w: Pos)
    requires Shape(T) && Plain(T) && T.Valid(w) && Odd(w)
    ensures var T' := PrimStep(T, w);
      Shape(T') && Plain(T') && Grows(T, T') && (Zeros(T') < Zeros(T) || T' == T)
  {
    PrimStepOpens(T, w);
    if |VisitedAround(T, w)| == 1 {
      var T' := PrimStep(T, w);
      var n := VisitedAround(T, w)[0];
      var m := Mid(w, n);
      assert T.Interior(n) && T.Interior(w) && T.Interior(m);
      assert Zeros(T') <= Zeros(T);
      if T.Closed(w) {
        assert w in Zeros(T) - Zeros(T');
      } else if T.Closed(m) {
        assert m in Zeros(T) - Zeros(T');
      } else {
        assert T'.t == T.t;
      }
    }
  }

  lemma WalkExtend(T: Tiles, v: seq<Pos>, from: Pos, to: Pos, next: Pos)
    requires Walk(T, v, from, to) && T.Open(next) && Adjacent(to, next)
    ensures Walk(T, v + [next], from, next)
  {
  }

  /** What a carving step is made of: the one open neighbour `n`, the cell `m` between, and the
      codes with the wall and `m` set to GRASS. */
  lemma Carved(T: Tiles, w: Pos) returns (n: Pos, m: Pos)
    requires T.Wf() && T.Valid(w) && |VisitedAround(T, w)| == 1
    ensures PrimStep(T, w) == T.With(w, GRASS).With(m, GRASS)
    ensures T.Open(n) && T.Valid(m) && Adjacent(n, m) && Adjacent(m, w)
  {
    PrimStepOpens(T, w);
    n := VisitedAround(T, w)[0];
    m := Mid(w, n);
  }

  /** Opening `m` next to the reached cell `n`, and `w` next to `m`, keeps every open cell
      reached. */
  lemma OpenTwoConnected(T: Tiles, root: Pos, n: Pos, m: Pos, w: Pos)
    requires Connected(T, root) && T.Open(n) && m in T.t && w in T.t && Adjacent(n, m) && Adjacent(m, w)
    ensures Connected(T.With(w, GRASS).With(m, GRASS), root)
  {
    var T' := T.With(w, GRASS).With(m, GRASS);
    assert Grows(T, T');
    var v :| Walk(T, v, root, n);
    WalkGrows(T, T', v, root, n);
    WalkExtend(T', v, root, n, m);
    WalkExtend(T', v + [m], root, m, w);
    forall p | T'.Open(p)
      ensures exists u :: Walk(T', u, root, p)
    {
      if T.Open(p) {
        var u :| Walk(T, u, root, p);
        WalkGrows(T, T', u, root, p);
      } else if p == m {
        assert Walk(T', v + [m], root, p);
      } else {
        assert Walk(T', v + [m] + [w], root, p);
      }
    }
  }

  /** A carved wall and the cell between it and its open neighbour are reached through that
      neighbour, so every open cell stays reached from the root. */
  lemma StepConnected(T: Tiles, w: Pos, root: Pos)
    requires T.Wf() && T.Valid(w) && Connected(T, root)
    ensures Connected(PrimStep(T, w), root)
  {
    if |VisitedAround(T, w)| == 1 {
      var n, m := Carved(T, w);
      OpenTwoConnected(T, root, n, m, w);
    }
  }

  /** A carving round keeps the invariant, and either some cell opens or the codes stay and the
      list gets lighter: the loop ends. */
  lemma RoundKeeps(T: Tiles, ws: seq<Pos>, i: nat, root: Pos)
    requires Carving(T, ws, root) && i < |ws|
    ensures var (T', ws') := Round(T, ws, i);
      && Carving(T', ws', root) && Grows(T, T')
      && (Zeros(T') < Zeros(T) || (T' == T && Load(T', ws') < Load(T, ws)))
  {
    var w := ws[i];
    StepCodes(T, w);
    StepConnected(T, w, root);
    RoundListed(T, ws, i);
    if PrimStep(T, w) == T {
      RoundLighter(T, ws, i);
    }
  }

  /** The list after a round holds cells of the odd lattice inside the grid. */
  lemma RoundListed(T: Tiles, ws: seq<Pos>, i: nat)
    requires i < |ws| && forall k :: 0 <= k < |ws| ==> Odd(ws[k]) && T.Valid(ws[k])
    ensures var (T', ws') := Round(T, ws, i);
      forall k :: 0 <= k < |ws'| ==> Odd(ws'[k]) && T'.Valid(ws'[k])
  {
    var w := ws[i];
    var T' := PrimStep(T, w);
    var rest := ws[..i] + ws[i + 1..];
    assert forall k :: 0 <= k < |rest| ==> rest[k] in ws;
    WallsAroundFacts(T', w, 4);
  }

  /** A round that changes no code leaves a lighter list: the taken wall goes, and when it was
      already open, at most four WALL cells come. */
  lemma RoundLighter(T: Tiles, ws: seq<Pos>, i: nat)
    requires T.Wf() && i < |ws| && T.Valid(ws[i]) && PrimStep(T, ws[i]) == T
    ensures Load(T, Round(T, ws, i).1) < Load(T, ws)
  {
    var w := ws[i];
    var rest := ws[..i] + ws[i + 1..];
    var added := if |VisitedAround(T, w)| == 1 then WallsAround(T, w, 4) else [];
    assert Round(T, ws, i).1 == rest + added;
    LoadRemove(T, ws, i);
    LoadAppend(T, rest, added);
    if |VisitedAround(T, w)| == 1 {
      PrimStepOpens(T, w);
      assert T.Open(w);
      WallsAroundFacts(T, w, 4);
      LoadOfWalls(T, w, 4);
    }
  }

  /** The start of the loop: every cell WALL but the root, whose walls are listed. */
  lemma SeedCarving(T: Tiles, root: Pos)
    requires Shape(T) && Odd(root) && T.Interior(root)
    requires forall p :: p in T.t ==> T.t[p] == if p == root then GRASS else WALL
    ensures Carving(T, WallsAround(T, root, 4), root)
  {
    WallsAroundFacts(T, root, 4);
    forall p | T.Open(p)
      ensures exists w :: Walk(T, w, root, p)
    {
      assert Walk(T, [root], root, p);
    }
  }

  /** The cells of a `rows` x `cols` grid. */
  ghost function Spots(rows: int, cols: int): set<Pos>
  {
    set i, j | 0 <= i < rows && 0 <= j < cols :: Pos(i, j)
  }

  /** The codes the carving starts from: every cell WALL but (1, 1), which is GRASS. */
  ghost function Initial(rows: int, cols: int): (T: Tiles)
    ensures T.Wf() && T.rows == rows && T.cols == cols
    ensures forall p :: p in T.t ==> T.t[p] == if p == Pos(1, 1) then GRASS else WALL
  {
    var T := Tiles(rows, cols, map p | p in Spots(rows, cols) :: if p == Pos(1, 1) then GRASS else WALL);
    assert forall p: Pos :: T.Valid(p) ==> Pos(p.x, p.y) in Spots(rows, cols);
    T
  }

  /** The carving loop from round `k` on: in round `k` the wall at index `draws(k) % |ws|` is
      taken, until the list is empty. Every round opens a cell or lightens the list, so the loop
      ends, and it ends with the invariant kept and no cell closed. */
  ghost function PrimRun(T: Tiles, ws: seq<Pos>, root: Pos, draws: nat -> nat, k: nat): (F: Tiles)
    requires Carving(T, ws, root)
    ensures Carving(F, [], root) && Grows(T, F)
    decreases Zeros(T), Load(T, ws)
  {
    if ws == [] then T
    else
      var i := draws(k) % |ws|;
      RoundKeeps(T, ws, i, root);
      var T' := Round(T, ws, i).0;
      var F := PrimRun(T', Round(T, ws, i).1, root, draws, k + 1);
      GrowsTrans(T, T', F);
      F
  }

  /** `generateMaze`'s carving on a `rows` x `cols` grid: (1, 1) opened, the walls two away from
      it listed, and the loop run to the end. */
  ghost function PrimCarving(rows: int, cols: int, draws: nat -> nat): (F: Tiles)
    requires rows % 2 == 1 && cols % 2 == 1 && rows >= 3 && cols >= 3
    ensures Carving(F, [], Pos(1, 1)) && F.rows == rows && F.cols == cols
  {
    var S := Initial(rows, cols);
    SeedCarving(S, Pos(1, 1));
    PrimRun(S, WallsAround(S, Pos(1, 1), 4), Pos(1, 1), draws, 0)
  }

  // ---------------------------------------------------------------------------
  // After the carving: start and end, braiding, corridors, weights
  // ---------------------------------------------------------------------------

  /** The start (1, 1) and the end (rows - 2, cols - 2) as GRASS. */
  function Ends(T: Tiles): Tiles
  {
    T.With(Pos(1, 1), GRASS).With(Pos(T.rows - 2, T.cols - 2), GRASS)
  }

  /** One braiding hole: a WALL cell off the border becomes GRASS. */
  function BraidStep(T: Tiles, r: int, c: int): Tiles
  {
    if T.Closed(Pos(r, c)) && r > 0 && r < T.rows - 1 && c > 0 && c < T.cols - 1 then T.With(Pos(r, c), GRASS)
    else T
  }

  /** The first `n` braiding holes: hole `i` is at row `1 + rowDraws(i) % (rows - 2)` and column
      `1 + colDraws(i) % (cols - 2)`. */
  function Braided(T: Tiles, n: nat, rowDraws: nat -> nat, colDraws: nat -> nat): (T': Tiles)
    requires T.rows > 2 && T.cols > 2
    ensures T'.rows == T.rows && T'.cols == T.cols
  {
    if n == 0 then T
    else BraidStep(Braided(T, n - 1, rowDraws, colDraws), 1 + rowDraws(n - 1) % (T.rows - 2), 1 + colDraws(n - 1) % (T.cols - 2))
  }

  /** `carvePath`'s row: an even row moves down to the next odd one. */
  function Bumped(row: int): int
  {
    if row % 2 == 0 then row + 1 else row
  }

  /** One column of a corridor: the cell on `row` becomes GRASS, and the one below it too when
      the draw is below 2 (of 10) and that cell is off the border. */
  function CarveAt(T: Tiles, row: int, c: int, draw: nat): Tiles
  {
    var T1 := T.With(Pos(row, c), GRASS);
    if draw % 10 < 2 && row + 1 < T.rows - 1 then T1.With(Pos(row + 1, c), GRASS) else T1
  }

  /** The first `n` columns of a corridor on `row`, from column 2 on; `draws(k)` is the draw
      for column `2 + k`. */
  function Corridor(T: Tiles, row: int, draws: nat -> nat, n: nat): (T': Tiles)
    ensures T'.rows == T.rows && T'.cols == T.cols
  {
    if n == 0 then T else CarveAt(Corridor(T, row, draws, n - 1), row, 2 + n - 1, draws(n - 1))
  }

  /** `carvePath(row)`: a corridor on the bumped row over columns 2 .. cols - 3. */
  function CarvePath(T: Tiles, row: int, draws: nat -> nat): (T': Tiles)
    requires T.cols >= 4
    ensures T'.rows == T.rows && T'.cols == T.cols
  {
    Corridor(T, Bumped(row), draws, T.cols - 4)
  }

  /** The terrain a weighting draw gives: below 65 (of 100) GRASS, below 85 MUD, else WATER. */
  function TerrainOf(draw: nat): (v: int)
    ensures v in {GRASS, MUD, WATER}
    ensures v == GRASS <==> draw % 100 < 65
    ensures v == WATER <==> draw % 100 >= 85
  {
    var chance := draw % 100;
    if chance < 65 then GRASS else if chance < 85 then MUD else WATER
  }

  /** The weighting pass: every open cell gets the terrain its draw gives; walls stay. */
  function Weigh(T: Tiles, draws: Pos -> nat): Tiles
  {
    T.(t := map p | p in T.t :: if T.t[p] != WALL then TerrainOf(draws(p)) else T.t[p])
  }

  /** Setting a cell off the border to GRASS keeps the shape and plainness and only opens. */
  lemma OpenPlain(T: Tiles, p: Pos)
    requires Shape(T) && Plain(T) && T.Interior(p)
    ensures Shape(T.With(p, GRASS)) && Plain(T.With(p, GRASS)) && Grows(T, T.With(p, GRASS))
    ensures T.With(p, GRASS).Open(p)
  {
  }

  lemma EndsPlain(T: Tiles)
    requires Shape(T) && Plain(T)
    ensures Shape(Ends(T)) && Plain(Ends(T)) && Grows(T, Ends(T))
    ensures Ends(T).t[Pos(1, 1)] == GRASS && Ends(T).t[Pos(T.rows - 2, T.cols - 2)] == GRASS
  {
    OpenPlain(T, Pos(1, 1));
    OpenPlain(T.With(Pos(1, 1), GRASS), Pos(T.rows - 2, T.cols - 2));
  }

  /** Braiding only opens cells off the border. */
  lemma {:induction false} BraidedPlain(T: Tiles, n: nat, rowDraws: nat -> nat, colDraws: nat -> nat)
    requires Shape(T) && Plain(T)
    ensures var T' := Braided(T, n, rowDraws, colDraws); Shape(T') && Plain(T') && Grows(T, T')
  {
    if n > 0 {
      var B := Braided(T, n - 1, rowDraws, colDraws);
      BraidedPlain(T, n - 1, rowDraws, colDraws);
      var r, c := 1 + rowDraws(n - 1) % (T.rows - 2), 1 + colDraws(n - 1) % (T.cols - 2);
      if B.Closed(Pos(r, c)) {
        OpenPlain(B, Pos(r, c));
      }
      GrowsTrans(T, B, Braided(T, n, rowDraws, colDraws));
    }
  }

  /** A corridor on an interior row opens its cells from column 2 on and nothing on the
      border. */
  lemma {:induction false} CorridorPlain(T: Tiles, row: int, draws: nat -> nat, n: nat)
    requires Shape(T) && Plain(T) && 0 < row < T.rows - 1 && n <= T.cols - 4
    ensures var T' := Corridor(T, row, draws, n);
      Shape(T') && Plain(T') && Grows(T, T') && forall c :: 2 <= c < 2 + n ==> T'.Open(Pos(row, c))
  {
    if n > 0 {
      var C := Corridor(T, row, draws, n - 1);
      CorridorPlain(T, row, draws, n - 1);
      var c := 2 + n - 1;
      OpenPlain(C, Pos(row, c));
      var C1 := C.With(Pos(row, c), GRASS);
      if draws(n - 1) % 10 < 2 && row + 1 < T.rows - 1 {
        OpenPlain(C1, Pos(row + 1, c));
        GrowsTrans(C, C1, C1.With(Pos(row + 1, c), GRASS));
      }
      GrowsTrans(T, C, Corridor(T, row, draws, n));
    }
  }

  /** `carvePath` on a row whose bumped row is interior opens that row over columns
      2 .. cols - 3. */
  lemma CarvePathPlain(T: Tiles, row: int, draws: nat -> nat)
    requires Shape(T) && Plain(T) && 0 < Bumped(row) < T.rows - 1 && T.cols >= 4
    ensures var T' := CarvePath(T, row, draws);
      Shape(T') && Plain(T') && Grows(T, T') && forall c :: 2 <= c < T.cols - 2 ==> T'.Open(Pos(Bumped(row), c))
  {
    CorridorPlain(T, Bumped(row), draws, T.cols - 4);
  }

  /** Weighting keeps walls walls and open cells open, and gives every open cell GRASS, MUD or
      WATER. */
  lemma WeighFacts(T: Tiles, draws: Pos -> nat)
    requires T.Wf()
    ensures var T' := Weigh(T, draws);
      && T'.Wf() && Grows(T, T')
      && (forall p :: p in T.t ==> (T'.Open(p) <==> T.Open(p)))
      && forall p :: T'.Open(p) ==> T'.t[p] in {GRASS, MUD, WATER}
  {
  }

  // ---------------------------------------------------------------------------
  // What generateMaze leaves
  // ---------------------------------------------------------------------------

  /** The codes of a finished maze: only the four known codes, walls on the whole border, and
      GRASS at the start (1, 1) and the end (rows - 2, cols - 2). */
  ghost predicate Weighed(T: Tiles)
  {
    && (forall p :: p in T.t ==> T.t[p] in {WALL, GRASS, MUD, WATER})
    && (forall p :: T.Open(p) ==> T.Interior(p))
    && Pos(1, 1) in T.t && T.t[Pos(1, 1)] == GRASS
    && Pos(T.rows - 2, T.cols - 2) in T.t && T.t[Pos(T.rows - 2, T.cols - 2)] == GRASS
  }

  /** Both corridors of `generateMaze` are open over columns 2 .. cols - 3. */
  ghost predicate Corridors(T: Tiles)
  {
    forall c :: 2 <= c < T.cols - 2 ==> T.Open(Pos(Bumped(T.rows / 4), c)) && T.Open(Pos(Bumped(T.rows * 3 / 4), c))
  }

  /** The codes `generateMaze` leaves, given the codes `prim` its carving left: a finished
      maze with both corridors open in which every cell the carving opened is still open. */
  ghost predicate Generated(T: Tiles, prim: Tiles)
  {
    && Shape(T) && T.rows == prim.rows && T.cols == prim.cols
    && Weighed(T) && Corridors(T)
    && Carving(prim, [], Pos(1, 1)) && Grows(prim, T)
  }

  /** The pipeline after the carving, as `generateMaze` runs it: start and end, `n` braiding
      holes, the two corridors, the weights, then start and end again. */
  function Finish(prim: Tiles, n: nat, rowDraws: nat -> nat, colDraws: nat -> nat,
                  upper: nat -> nat, lower: nat -> nat, weights: Pos -> nat): Tiles
    requires prim.rows > 2 && prim.cols >= 4
  {
    var E := Ends(prim);
    var B := Braided(E, n, rowDraws, colDraws);
    var C := CarvePath(CarvePath(B, prim.rows / 4, upper), prim.rows * 3 / 4, lower);
    Ends(Weigh(C, weights))
  }

  /** Setting the start and the end to GRASS changes no other cell. */
  lemma EndsFacts(T: Tiles)
    requires T.Wf() && T.rows >= 3 && T.cols >= 3
    ensures Ends(T).Wf() && Grows(T, Ends(T)) && Ends(T).rows == T.rows && Ends(T).cols == T.cols
    ensures Ends(T).t[Pos(1, 1)] == GRASS && Ends(T).t[Pos(T.rows - 2, T.cols - 2)] == GRASS
    ensures forall p :: p in T.t && p != Pos(1, 1) && p != Pos(T.rows - 2, T.cols - 2) ==> Ends(T).t[p] == T.t[p]
  {
  }

  /** Setting the start and the end to GRASS on a grid with only the four codes and a closed
      border finishes it. */
  lemma EndsWeighed(W: Tiles)
    requires Shape(W) && forall p :: p in W.t ==> W.t[p] in {WALL, GRASS, MUD, WATER} && (W.Open(p) ==> W.Interior(p))
    ensures var F := Ends(W); Shape(F) && Weighed(F) && Grows(W, F) && (Corridors(W) ==> Corridors(F))
  {
    var F := Ends(W);
    EndsFacts(W);
    var s, e := Pos(1, 1), Pos(F.rows - 2, F.cols - 2);
    assert W.Interior(s) && W.Interior(e);
    forall p | p in F.t
      ensures F.t[p] in {WALL, GRASS, MUD, WATER} && (F.Open(p) ==> F.Interior(p))
    {
      if p != s && p != e {
        assert F.t[p] == W.t[p];
      }
    }
  }

  /** Weighting and then setting the start and the end to GRASS turns a plain grid with both
      corridors open into a finished maze, closing nothing. */
  lemma WeighEnds(C: Tiles, weights: Pos -> nat)
    requires Shape(C) && Plain(C) && Corridors(C)
    ensures var F := Ends(Weigh(C, weights)); Shape(F) && Weighed(F) && Corridors(F) && Grows(C, F)
  {
    var W := Weigh(C, weights);
    WeighFacts(C, weights);
    assert Corridors(W);
    forall p | p in W.t
      ensures W.t[p] in {WALL, GRASS, MUD, WATER} && (W.Open(p) ==> W.Interior(p))
    {
      assert W.Open(p) ==> C.Open(p);
    }
    EndsWeighed(W);
    GrowsTrans(C, W, Ends(W));
  }

  /** Whatever the draws, a finished carving ends as a generated maze. */
  lemma FinishGenerated(prim: Tiles, n: nat, rowDraws: nat -> nat, colDraws: nat -> nat,
                        upper: nat -> nat, lower: nat -> nat, weights: Pos -> nat)
    requires Carving(prim, [], Pos(1, 1)) && prim.cols >= 4
    requires 0 < Bumped(prim.rows / 4) < prim.rows - 1 && 0 < Bumped(prim.rows * 3 / 4) < prim.rows - 1
    ensures Generated(Finish(prim, n, rowDraws, colDraws, upper, lower, weights), prim)
  {
    var E := Ends(prim);
    EndsPlain(prim);
    var B := Braided(E, n, rowDraws, colDraws);
    BraidedPlain(E, n, rowDraws, colDraws);
    var C1 := CarvePath(B, prim.rows / 4, upper);
    CarvePathPlain(B, prim.rows / 4, upper);
    var C := CarvePath(C1, prim.rows * 3 / 4, lower);
    CarvePathPlain(C1, prim.rows * 3 / 4, lower);
    GrowsTrans(prim, E, B);
    GrowsTrans(prim, B, C1);
    GrowsTrans(prim, C1, C);
    assert Corridors(C);
    WeighEnds(C, weights);
    GrowsTrans(prim, C, Ends(Weigh(C, weights)));
  }

  /** Every cell the carving opened is reached from the start in the finished maze. */
  lemma GeneratedReach(T: Tiles, prim: Tiles)
    requires Generated(T, prim)
    ensures forall p :: prim.Open(p) ==> exists w :: Walk(T, w, Pos(1, 1), p)
  {
    ReachGrows(prim, T, Pos(1, 1));
  }
}
