/** Maze/PathAlgorithms.java, Dijkstra and A*: best-first searches that poll the queued cell of
    least `fCost` and relax the cost of each neighbour. Both are one search here, parameterised by
    a heuristic: none for Dijkstra, the Manhattan distance to the end for A*. */
module BestFirst {
  import opened Common
  import opened Cells
  import opened Grids
  import opened PathAlgorithms
  import opened Queues

  // ---------------------------------------------------------------------------
  // The abstract search
  // ---------------------------------------------------------------------------

  /** The ghost state of a best-first search: the cost `g` of the cheapest way found so far to
      each reached cell (the start's own weight left out), the parent each reached cell other than
      the start got, the cells waiting in the priority queue and the cells polled, in order. */
  datatype Frontier = Frontier(g: map<Cell, nat>, par: map<Cell, Cell>, open: set<Cell>, order: seq<Cell>)

  ghost function Begin(start: Cell): Frontier
  {
    Frontier(map[start := 0], map[], {start}, [])
  }

  /** Polling `cur`: it leaves the queue and joins the polled cells. */
  ghost function Close(s: Frontier, cur: Cell): Frontier
  {
    s.(open := s.open - {cur}, order := s.order + [cur])
  }

  /** `newCost < neighbor.gCost`, where `newCost` is the cost `gc` of the polled cell plus the
      weight of `y`; an unreached cell has cost `Double.MAX_VALUE`. */
  ghost predicate Improves(wt: map<Cell, nat>, gc: nat, s: Frontier, y: Cell)
  {
    y in wt && !(y in s.g && s.g[y] <= gc + wt[y])
  }

  /** Relaxing `y` from `cur`: when that is cheaper, `y` gets the new cost and `cur` as parent and
      is (re-)queued. */
  ghost function Relax(wt: map<Cell, nat>, cur: Cell, gc: nat, y: Cell, s: Frontier): Frontier
  {
    if Improves(wt, gc, s, y) then Frontier(s.g[y := gc + wt[y]], s.par[y := cur], s.open + {y}, s.order)
    else s
  }

  /** Relaxing the cells of `ns` in turn. */
  ghost function RelaxAll(wt: map<Cell, nat>, cur: Cell, gc: nat, ns: seq<Cell>, s: Frontier): Frontier
    decreases |ns|
  {
    if ns == [] then s else Relax(wt, cur, gc, ns[|ns| - 1], RelaxAll(wt, cur, gc, ns[..|ns| - 1], s))
  }

  /** One round for a polled cell that is not the end: close it and relax its neighbours. */
  ghost function Expand(G: map<Cell, seq<Cell>>, wt: map<Cell, nat>, s: Frontier, cur: Cell): Frontier
    requires cur in G && cur in s.g
  {
    RelaxAll(wt, cur, s.g[cur], G[cur], Close(s, cur))
  }

  /** The priority `fCost` of a reached cell: its cost plus its heuristic. */
  ghost function F(hv: map<Cell, nat>, s: Frontier, x: Cell): nat
  {
    if x in s.g && x in hv then s.g[x] + hv[x] else 0
  }

  /** `cur` is a queued cell of least priority. */
  ghost predicate MinOpen(hv: map<Cell, nat>, s: Frontier, cur: Cell)
  {
    cur in s.open && forall y :: y in s.open ==> F(hv, s, cur) <= F(hv, s, y)
  }

  /** Weights of at least 1 and a consistent heuristic: it never drops by more than the weight of
      the cell stepped into. */
  ghost predicate Costed(G: map<Cell, seq<Cell>>, wt: map<Cell, nat>, hv: map<Cell, nat>)
  {
    && Closed(G) && wt.Keys == G.Keys && hv.Keys == G.Keys
    && (forall x :: x in wt ==> wt[x] >= 1)
    && (forall x, y :: x in G && y in G[x] ==> hv[x] <= wt[y] + hv[y])
  }

  /** The bookkeeping: costs for cells of `G` only, the start reached at cost 0, and the queue
      holding exactly the reached cells not yet polled. The first cell polled is the start. */
  ghost predicate FShape(G: map<Cell, seq<Cell>>, start: Cell, s: Frontier)
  {
    && s.g.Keys <= G.Keys && start in s.g && s.g[start] == 0
    && Elems(s.order) <= s.g.Keys && s.open == s.g.Keys - Elems(s.order) && Distinct(s.order)
    && (s.order == [] ==> s.open == {start})
    && (s.order != [] ==> s.order[0] == start)
  }

  /** Every reached cell but the start has a polled parent, one step back, and its cost is its
      parent's plus its own weight. */
  ghost predicate FTree(G: map<Cell, seq<Cell>>, wt: map<Cell, nat>, start: Cell, s: Frontier)
  {
    && s.par.Keys == s.g.Keys - {start}
    && forall x :: x in s.par ==>
         && s.par[x] in s.order && s.par[x] in G && x in G[s.par[x]]
         && s.par[x] in s.g && x in wt && s.g[x] == s.g[s.par[x]] + wt[x]
  }

  /** No polled cell has a larger priority than a queued one. */
  ghost predicate Settled(hv: map<Cell, nat>, s: Frontier)
  {
    forall x, y :: x in s.order && y in s.open ==> F(hv, s, x) <= F(hv, s, y)
  }

  /** Every neighbour of a polled cell is reached, at most one step's weight dearer. */
  ghost predicate Relaxed(G: map<Cell, seq<Cell>>, wt: map<Cell, nat>, s: Frontier)
  {
    forall x, y :: x in s.order && x in G && y in G[x] ==>
      x in s.g && y in s.g && y in wt && s.g[y] <= s.g[x] + wt[y]
  }

  ghost predicate FInv(G: map<Cell, seq<Cell>>, wt: map<Cell, nat>, hv: map<Cell, nat>, start: Cell, s: Frontier)
  {
    FShape(G, start, s) && FTree(G, wt, start, s) && Settled(hv, s) && Relaxed(G, wt, s)
  }

  lemma BeginInv(G: map<Cell, seq<Cell>>, wt: map<Cell, nat>, hv: map<Cell, nat>, start: Cell)
    requires start in G
    ensures FInv(G, wt, hv, start, Begin(start))
  {
  }

  // ---------------------------------------------------------------------------
  // What relaxing a list of neighbours does
  // ---------------------------------------------------------------------------

  /** The outcome of relaxing the cells of `ns` from `s`, cell by cell: exactly the listed cells
      the polled cell improves get its cost plus their weight and the polled cell as parent, and
      are queued; nothing is forgotten and every other cell is unchanged. */
  ghost predicate RelaxedFrom(wt: map<Cell, nat>, cur: Cell, gc: nat, ns: seq<Cell>, s: Frontier, t: Frontier)
  {
    && t.order == s.order
    && s.g.Keys <= t.g.Keys && s.par.Keys <= t.par.Keys && s.open <= t.open
    && Improved(wt, cur, gc, ns, s, t)
    && KeptCosts(wt, gc, ns, s, t) && KeptParents(wt, gc, ns, s, t) && KeptQueue(wt, gc, ns, s, t)
  }

  ghost predicate Improved(wt: map<Cell, nat>, cur: Cell, gc: nat, ns: seq<Cell>, s: Frontier, t: Frontier)
  {
    forall z :: z in ns && Improves(wt, gc, s, z) ==>
      z in t.g && t.g[z] == gc + wt[z] && z in t.par && t.par[z] == cur && z in t.open
  }

  ghost predicate KeptCosts(wt: map<Cell, nat>, gc: nat, ns: seq<Cell>, s: Frontier, t: Frontier)
  {
    forall z :: z in t.g && !(z in ns && Improves(wt, gc, s, z)) ==> z in s.g && t.g[z] == s.g[z]
  }

  ghost predicate KeptParents(wt: map<Cell, nat>, gc: nat, ns: seq<Cell>, s: Frontier, t: Frontier)
  {
    forall z :: z in t.par && !(z in ns && Improves(wt, gc, s, z)) ==> z in s.par && t.par[z] == s.par[z]
  }

  ghost predicate KeptQueue(wt: map<Cell, nat>, gc: nat, ns: seq<Cell>, s: Frontier, t: Frontier)
  {
    forall z :: z in t.open && !(z in ns && Improves(wt, gc, s, z)) ==> z in s.open
  }

  lemma {:induction false} RelaxAllFacts(wt: map<Cell, nat>, cur: Cell, gc: nat, ns: seq<Cell>, s: Frontier, t: Frontier)
    requires t == RelaxAll(wt, cur, gc, ns, s)
    ensures RelaxedFrom(wt, cur, gc, ns, s, t)
    decreases |ns|
  {
    if ns != [] {
      var ns', y := ns[..|ns| - 1], ns[|ns| - 1];
      var m := RelaxAll(wt, cur, gc, ns', s);
      RelaxAllFacts(wt, cur, gc, ns', s, m);
      assert ns' + [y] == ns;
      RelaxOneImproved(wt, cur, gc, ns', y, s, m, t);
      RelaxOneCosts(wt, cur, gc, ns', y, s, m, t);
      RelaxOneParents(wt, cur, gc, ns', y, s, m, t);
      RelaxOneQueue(wt, cur, gc, ns', y, s, m, t);
    }
  }

  // Relaxing one more cell `y` after the cells of `ns`.

  lemma RelaxOneImproved(wt: map<Cell, nat>, cur: Cell, gc: nat, ns: seq<Cell>, y: Cell, s: Frontier, m: Frontier,
                         t: Frontier)
    requires Improved(wt, cur, gc, ns, s, m) && s.g.Keys <= m.g.Keys && KeptCosts(wt, gc, ns, s, m) && t == Relax(wt, cur, gc, y, m)
    ensures Improved(wt, cur, gc, ns + [y], s, t)
  {
    forall z | z in ns + [y] && Improves(wt, gc, s, z)
      ensures z in t.g && t.g[z] == gc + wt[z] && z in t.par && t.par[z] == cur && z in t.open
    {
      if z != y {
        assert z in ns;
      }
    }
  }

  lemma RelaxOneCosts(wt: map<Cell, nat>, cur: Cell, gc: nat, ns: seq<Cell>, y: Cell, s: Frontier, m: Frontier,
                      t: Frontier)
    requires Improved(wt, cur, gc, ns, s, m) && s.g.Keys <= m.g.Keys && KeptCosts(wt, gc, ns, s, m) && t == Relax(wt, cur, gc, y, m)
    ensures KeptCosts(wt, gc, ns + [y], s, t)
  {
    forall z | z in t.g && !(z in ns + [y] && Improves(wt, gc, s, z))
      ensures z in s.g && t.g[z] == s.g[z]
    {
      assert !(z in ns && Improves(wt, gc, s, z));
      if z == y && y in m.g {
        assert y in s.g && m.g[y] == s.g[y];
      }
    }
  }

  lemma RelaxOneParents(wt: map<Cell, nat>, cur: Cell, gc: nat, ns: seq<Cell>, y: Cell, s: Frontier, m: Frontier,
                        t: Frontier)
    requires Improved(wt, cur, gc, ns, s, m) && s.g.Keys <= m.g.Keys && KeptCosts(wt, gc, ns, s, m) && KeptParents(wt, gc, ns, s, m)
    requires t == Relax(wt, cur, gc, y, m)
    ensures KeptParents(wt, gc, ns + [y], s, t)
  {
    forall z | z in t.par && !(z in ns + [y] && Improves(wt, gc, s, z))
      ensures z in s.par && t.par[z] == s.par[z]
    {
      assert !(z in ns && Improves(wt, gc, s, z));
      if z == y && y in m.g {
        assert y in s.g && m.g[y] == s.g[y];
      }
    }
  }

  lemma RelaxOneQueue(wt: map<Cell, nat>, cur: Cell, gc: nat, ns: seq<Cell>, y: Cell, s: Frontier, m: Frontier,
                      t: Frontier)
    requires Improved(wt, cur, gc, ns, s, m) && s.g.Keys <= m.g.Keys && KeptCosts(wt, gc, ns, s, m) && KeptQueue(wt, gc, ns, s, m)
    requires t == Relax(wt, cur, gc, y, m)
    ensures KeptQueue(wt, gc, ns + [y], s, t)
  {
    forall z | z in t.open && !(z in ns + [y] && Improves(wt, gc, s, z))
      ensures z in s.open
    {
      assert !(z in ns && Improves(wt, gc, s, z));
      if z == y && y in m.g {
        assert y in s.g && m.g[y] == s.g[y];
      }
    }
  }

  // ---------------------------------------------------------------------------
  // One round keeps the invariant
  // ---------------------------------------------------------------------------

  /** A cell already polled, or the polled cell itself, is never made cheaper: the heuristic is
      consistent and the polled cell has the least priority. So the missing closed set of the
      source loses nothing: no polled cell is queued again. */
  lemma PolledKept(G: map<Cell, seq<Cell>>, wt: map<Cell, nat>, hv: map<Cell, nat>, start: Cell, s: Frontier, cur: Cell)
    requires Costed(G, wt, hv) && FInv(G, wt, hv, start, s) && MinOpen(hv, s, cur) && cur in G
    ensures forall z :: z in G[cur] && (z in s.order || z == cur) ==> !Improves(wt, s.g[cur], s, z)
  {
    forall z | z in G[cur] && z in s.order
      ensures !Improves(wt, s.g[cur], s, z)
    {
      assert F(hv, s, z) <= F(hv, s, cur);
    }
  }

  lemma ExpandShape(G: map<Cell, seq<Cell>>, wt: map<Cell, nat>, start: Cell, s: Frontier, cur: Cell, t: Frontier)
    requires Closed(G) && FShape(G, start, s) && cur in s.open && cur in G
    requires t.order == s.order + [cur] && s.g.Keys <= t.g.Keys && Close(s, cur).open <= t.open
    requires Improved(wt, cur, s.g[cur], G[cur], Close(s, cur), t) && KeptCosts(wt, s.g[cur], G[cur], Close(s, cur), t)
    requires KeptQueue(wt, s.g[cur], G[cur], Close(s, cur), t)
    requires forall z :: z in G[cur] && (z in s.order || z == cur) ==> !Improves(wt, s.g[cur], s, z)
    ensures FShape(G, start, t)
  {
    var c, gc := Close(s, cur), s.g[cur];
    assert Elems(t.order) == Elems(s.order) + {cur};
    assert !(start in G[cur] && Improves(wt, gc, c, start));
    ExpandKeys(G, wt, gc, start, s, cur, t);
    ExpandQueue(G, wt, gc, s, cur, t);
  }

  /** The reached cells stay cells of `G`. */
  lemma ExpandKeys(G: map<Cell, seq<Cell>>, wt: map<Cell, nat>, gc: nat, start: Cell, s: Frontier, cur: Cell, t: Frontier)
    requires Closed(G) && cur in G && s.g.Keys <= G.Keys
    requires Improved(wt, cur, gc, G[cur], Close(s, cur), t) && KeptCosts(wt, gc, G[cur], Close(s, cur), t)
    ensures t.g.Keys <= G.Keys
  {
    forall z | z in t.g
      ensures z in G
    {
      if !(z in G[cur] && Improves(wt, gc, Close(s, cur), z)) {
        assert z in s.g;
      }
    }
  }

  /** The queue holds exactly the reached cells not yet polled. */
  lemma ExpandQueue(G: map<Cell, seq<Cell>>, wt: map<Cell, nat>, gc: nat, s: Frontier, cur: Cell, t: Frontier)
    requires cur in G && s.open == s.g.Keys - Elems(s.order) && Elems(s.order) <= s.g.Keys && cur in s.open
    requires t.order == s.order + [cur] && s.g.Keys <= t.g.Keys && Elems(t.order) == Elems(s.order) + {cur}
    requires Close(s, cur).open <= t.open
    requires Improved(wt, cur, gc, G[cur], Close(s, cur), t) && KeptCosts(wt, gc, G[cur], Close(s, cur), t)
    requires KeptQueue(wt, gc, G[cur], Close(s, cur), t)
    requires forall z :: z in G[cur] && (z in s.order || z == cur) ==> !Improves(wt, gc, s, z)
    ensures t.open == t.g.Keys - Elems(t.order)
  {
    var c := Close(s, cur);
    forall z | z in t.g
      ensures z in t.open <==> z !in Elems(t.order)
    {
      if !(z in G[cur] && Improves(wt, gc, c, z)) {
        assert z in s.g;
        assert z in t.open ==> z in c.open;
      }
    }
    forall z | z in t.open
      ensures z in t.g
    {
      if !(z in G[cur] && Improves(wt, gc, c, z)) {
        assert z in c.open;
      }
    }
  }

  lemma ExpandTree(G: map<Cell, seq<Cell>>, wt: map<Cell, nat>, hv: map<Cell, nat>, start: Cell, s: Frontier,
                   cur: Cell, t: Frontier)
    requires Costed(G, wt, hv) && FShape(G, start, s) && FTree(G, wt, start, s) && cur in s.open && cur in G
    requires RelaxedFrom(wt, cur, s.g[cur], G[cur], Close(s, cur), t)
    requires forall z :: z in G[cur] && (z in s.order || z == cur) ==> !Improves(wt, s.g[cur], s, z)
    ensures FTree(G, wt, start, t)
  {
    var c, gc := Close(s, cur), s.g[cur];
    assert !(start in G[cur] && Improves(wt, gc, c, start));
    ExpandParentKeys(G, wt, gc, start, s, cur, t);
    ExpandParents(G, wt, gc, start, s, cur, t);
  }

  /** The start is the one reached cell without a parent. */
  lemma ExpandParentKeys(G: map<Cell, seq<Cell>>, wt: map<Cell, nat>, gc: nat, start: Cell, s: Frontier, cur: Cell,
                         t: Frontier)
    requires s.par.Keys == s.g.Keys - {start} && start in s.g && cur in G
    requires s.g.Keys <= t.g.Keys && s.par.Keys <= t.par.Keys
    requires !(start in G[cur] && Improves(wt, gc, Close(s, cur), start))
    requires Improved(wt, cur, gc, G[cur], Close(s, cur), t) && KeptCosts(wt, gc, G[cur], Close(s, cur), t)
    requires KeptParents(wt, gc, G[cur], Close(s, cur), t)
    ensures t.par.Keys == t.g.Keys - {start}
  {
    var c := Close(s, cur);
    forall x | x in t.g
      ensures x in t.par <==> x != start
    {
      if !(x in G[cur] && Improves(wt, gc, c, x)) {
        assert x in s.g;
      }
    }
    forall x | x in t.par
      ensures x in t.g
    {
      if !(x in G[cur] && Improves(wt, gc, c, x)) {
        assert x in s.par;
      }
    }
  }

  /** Every parent is polled, one step back, and accounts for the cost. */
  lemma ExpandParents(G: map<Cell, seq<Cell>>, wt: map<Cell, nat>, gc: nat, start: Cell, s: Frontier, cur: Cell,
                      t: Frontier)
    requires FTree(G, wt, start, s) && cur in s.g && gc == s.g[cur] && cur in G
    requires t.order == s.order + [cur] && s.g.Keys <= t.g.Keys
    requires Improved(wt, cur, gc, G[cur], Close(s, cur), t) && KeptCosts(wt, gc, G[cur], Close(s, cur), t)
    requires KeptParents(wt, gc, G[cur], Close(s, cur), t)
    requires forall z :: z in G[cur] && (z in s.order || z == cur) ==> !Improves(wt, gc, s, z)
    ensures forall x :: x in t.par ==>
         && t.par[x] in t.order && t.par[x] in G && x in G[t.par[x]]
         && t.par[x] in t.g && x in wt && t.g[x] == t.g[t.par[x]] + wt[x]
  {
    var c := Close(s, cur);
    assert !(cur in G[cur] && Improves(wt, gc, c, cur));
    assert t.g[cur] == gc;
    forall x | x in t.par
      ensures && t.par[x] in t.order && t.par[x] in G && x in G[t.par[x]]
              && t.par[x] in t.g && x in wt && t.g[x] == t.g[t.par[x]] + wt[x]
    {
      if !(x in G[cur] && Improves(wt, gc, c, x)) {
        assert x in s.par && t.par[x] == s.par[x];
        var p := s.par[x];
        assert !(p in G[cur] && Improves(wt, gc, c, p));
        assert t.g[p] == s.g[p];
        assert x in s.g;
      }
    }
  }

  /** Polled cells keep their cost. */
  lemma PolledCosts(G: map<Cell, seq<Cell>>, wt: map<Cell, nat>, gc: nat, s: Frontier, cur: Cell, t: Frontier)
    requires Elems(s.order) <= s.g.Keys && cur in s.g && cur in G
    requires t.order == s.order + [cur] && s.g.Keys <= t.g.Keys
    requires KeptCosts(wt, gc, G[cur], Close(s, cur), t)
    requires forall z :: z in G[cur] && (z in s.order || z == cur) ==> !Improves(wt, gc, s, z)
    ensures forall x :: x in t.order ==> x in s.g && x in t.g && t.g[x] == s.g[x]
  {
    forall x | x in t.order
      ensures x in s.g && x in t.g && t.g[x] == s.g[x]
    {
      assert x in s.order || x == cur;
      assert !(x in G[cur] && Improves(wt, gc, Close(s, cur), x));
    }
  }

  /** Relaxing never makes a cost dearer. */
  lemma CostsFall(G: map<Cell, seq<Cell>>, wt: map<Cell, nat>, gc: nat, s: Frontier, cur: Cell, t: Frontier)
    requires s.g.Keys <= t.g.Keys && cur in G
    requires Improved(wt, cur, gc, G[cur], Close(s, cur), t) && KeptCosts(wt, gc, G[cur], Close(s, cur), t)
    ensures forall y :: y in s.g ==> y in t.g && t.g[y] <= s.g[y]
  {
    forall y | y in s.g
      ensures y in t.g && t.g[y] <= s.g[y]
    {
      if y in G[cur] && Improves(wt, gc, Close(s, cur), y) {
      }
    }
  }

  lemma ExpandSettled(G: map<Cell, seq<Cell>>, wt: map<Cell, nat>, hv: map<Cell, nat>, s: Frontier, cur: Cell,
                      t: Frontier)
    requires Settled(hv, s) && MinOpen(hv, s, cur) && cur in G && cur in s.g && cur in hv
    requires s.open <= s.g.Keys && s.g.Keys <= t.g.Keys && t.order == s.order + [cur]
    requires forall x :: x in t.order ==> x in s.g && x in t.g && t.g[x] == s.g[x]
    requires forall y :: y in G[cur] ==> y in hv && y in wt && hv[cur] <= wt[y] + hv[y]
    requires Improved(wt, cur, s.g[cur], G[cur], Close(s, cur), t) && KeptCosts(wt, s.g[cur], G[cur], Close(s, cur), t)
    requires KeptQueue(wt, s.g[cur], G[cur], Close(s, cur), t)
    ensures Settled(hv, t)
  {
    var c, gc := Close(s, cur), s.g[cur];
    forall x | x in t.order
      ensures F(hv, t, x) <= F(hv, s, cur)
    {
      assert F(hv, t, x) == F(hv, s, x);
    }
    forall y | y in t.open
      ensures F(hv, s, cur) <= F(hv, t, y)
    {
      if !(y in G[cur] && Improves(wt, gc, c, y)) {
        assert y in c.open;
        assert F(hv, t, y) == F(hv, s, y);
      }
    }
  }

  lemma ExpandRelaxed(G: map<Cell, seq<Cell>>, wt: map<Cell, nat>, s: Frontier, cur: Cell, t: Frontier)
    requires Relaxed(G, wt, s) && cur in G && cur in s.g && t.order == s.order + [cur]
    requires forall x :: x in t.order ==> x in s.g && x in t.g && t.g[x] == s.g[x]
    requires forall y :: y in s.g ==> y in t.g && t.g[y] <= s.g[y]
    requires forall y :: y in G[cur] ==> y in wt
    requires Improved(wt, cur, s.g[cur], G[cur], Close(s, cur), t) && KeptCosts(wt, s.g[cur], G[cur], Close(s, cur), t)
    ensures Relaxed(G, wt, t)
  {
    var c, gc := Close(s, cur), s.g[cur];
    forall y | y in G[cur]
      ensures y in t.g && t.g[y] <= t.g[cur] + wt[y]
    {
      if !(y in G[cur] && Improves(wt, gc, c, y)) {
        assert y in s.g;
      }
    }
    forall x, y | x in t.order && x in G && y in G[x]
      ensures x in t.g && y in t.g && y in wt && t.g[y] <= t.g[x] + wt[y]
    {
      if x != cur {
        assert x in s.order;
      }
    }
  }

  /** Polling a queued cell of least priority other than the end and relaxing its neighbours
      keeps the invariant. */
  lemma ExpandInv(G: map<Cell, seq<Cell>>, wt: map<Cell, nat>, hv: map<Cell, nat>, start: Cell, s: Frontier,
                  cur: Cell, t: Frontier)
    requires Costed(G, wt, hv) && FInv(G, wt, hv, start, s) && MinOpen(hv, s, cur) && cur in G
    requires t == RelaxAll(wt, cur, s.g[cur], G[cur], Close(s, cur))
    ensures FInv(G, wt, hv, start, t) && t.order == s.order + [cur]
  {
    var gc := s.g[cur];
    RelaxAllFacts(wt, cur, gc, G[cur], Close(s, cur), t);
    PolledKept(G, wt, hv, start, s, cur);
    ExpandShape(G, wt, start, s, cur, t);
    ExpandTree(G, wt, hv, start, s, cur, t);
    PolledCosts(G, wt, gc, s, cur, t);
    CostsFall(G, wt, gc, s, cur, t);
    ExpandSettled(G, wt, hv, s, cur, t);
    ExpandRelaxed(G, wt, s, cur, t);
  }
  /** `ExpandInv` for the weights and heuristic of a board. */
  lemma ExpandOnBoard(b: Board, G: map<Cell, seq<Cell>>, wt: map<Cell, nat>, hv: map<Cell, nat>,
                      useHeuristic: bool, start: Cell, end: Cell, s: Frontier, cur: Cell, t: Frontier)
    requires Consistent(b) && AdjacencyOf(b, G) && Weighs(b, wt) && HeuristicOf(hv, useHeuristic, end)
    requires wt.Keys == G.Keys && hv.Keys == G.Keys
    requires FInv(G, wt, hv, start, s) && MinOpen(hv, s, cur) && cur in G
    requires t == RelaxAll(wt, cur, s.g[cur], G[cur], Close(s, cur))
    ensures FInv(G, wt, hv, start, t) && t.order == s.order + [cur]
  {
    CostedBoard(b, G, wt, hv, useHeuristic, end);
    ExpandInv(G, wt, hv, start, s, cur, t);
  }


  // ---------------------------------------------------------------------------
  // What the invariant says about walks
  // ---------------------------------------------------------------------------

  /** `wt` holds the board's weight of each of its cells. */
  ghost predicate Weighs(b: Board, wt: map<Cell, nat>)
  {
    forall x :: x in wt ==> OnBoard(b, x) && wt[x] == W(b, x)
  }

  /** What a walk from the start costs, at least, up to a cell `x` it ends at: `c`, the walk's cost
      without the start's weight, is no less than the cost of a polled `x`, and plus the heuristic
      of an unpolled `x` no less than the least priority in the queue. */
  ghost predicate Bounded(hv: map<Cell, nat>, s: Frontier, cur: Cell, x: Cell, c: nat)
  {
    && (x in s.order ==> x in s.g && s.g[x] <= c)
    && (x !in s.order ==> x in hv && cur in s.open && F(hv, s, cur) <= c + hv[x])
  }

  lemma BoundedStart(G: map<Cell, seq<Cell>>, wt: map<Cell, nat>, hv: map<Cell, nat>, start: Cell, s: Frontier,
                     cur: Cell)
    requires FShape(G, start, s) && hv.Keys == G.Keys && (s.open != {} ==> MinOpen(hv, s, cur))
    ensures Bounded(hv, s, cur, start, 0)
  {
    if start !in s.order {
      assert s.order == [];
    }
  }

  /** One more step of a walk, into `x` from `y`, keeps the bound. */
  lemma BoundedStep(G: map<Cell, seq<Cell>>, wt: map<Cell, nat>, hv: map<Cell, nat>, start: Cell, s: Frontier,
                    cur: Cell, y: Cell, x: Cell, c: nat)
    requires Costed(G, wt, hv) && FShape(G, start, s) && Settled(hv, s) && Relaxed(G, wt, s)
    requires s.open != {} ==> MinOpen(hv, s, cur)
    requires y in G && x in G[y] && Bounded(hv, s, cur, y, c)
    ensures Bounded(hv, s, cur, x, c + wt[x])
  {
    if y in s.order {
      assert x in s.g && s.g[x] <= s.g[y] + wt[x];
      if x !in s.order {
        assert x in s.open;
      }
    } else {
      assert hv[y] <= wt[x] + hv[x];
      if x in s.order {
        assert F(hv, s, x) <= F(hv, s, cur);
      }
    }
  }

  /** Stepping into a neighbour keeps the bound. */
  ghost predicate StepsBounded(G: map<Cell, seq<Cell>>, wt: map<Cell, nat>, hv: map<Cell, nat>, s: Frontier, cur: Cell)
  {
    forall y, x, c: nat :: y in G && x in G[y] && x in wt && Bounded(hv, s, cur, y, c) ==> Bounded(hv, s, cur, x, c + wt[x])
  }

  /** Over a walk from the start, a polled cell is never cheaper than its cost, and an unpolled
      one, plus its heuristic, never cheaper than the least priority in the queue. */
  lemma WalkBound(b: Board, G: map<Cell, seq<Cell>>, wt: map<Cell, nat>, hv: map<Cell, nat>,
                  start: Cell, s: Frontier, cur: Cell, w: seq<Cell>, x: Cell)
    requires Consistent(b) && AdjacencyOf(b, G) && Costed(G, wt, hv) && Weighs(b, wt)
    requires FInv(G, wt, hv, start, s) && (s.open != {} ==> MinOpen(hv, s, cur)) && IsWalk(b, w, start, x)
    ensures x in G && AllOnBoard(b, w) && PathCost(b, w) >= W(b, start)
    ensures Bounded(hv, s, cur, x, PathCost(b, w) - W(b, start))
  {
    BoundedStart(G, wt, hv, start, s, cur);
    forall y, x, c: nat | y in G && x in G[y] && x in wt && Bounded(hv, s, cur, y, c)
      ensures Bounded(hv, s, cur, x, c + wt[x])
    {
      BoundedStep(G, wt, hv, start, s, cur, y, x, c);
    }
    WalkInduct(b, G, wt, hv, start, s, cur, w, x);
  }

  /** The bound, carried along a walk one step at a time. */
  lemma {:induction false} WalkInduct(b: Board, G: map<Cell, seq<Cell>>, wt: map<Cell, nat>, hv: map<Cell, nat>,
                                      start: Cell, s: Frontier, cur: Cell, w: seq<Cell>, x: Cell)
    requires Consistent(b) && AdjacencyOf(b, G) && Weighs(b, wt) && wt.Keys == G.Keys && IsWalk(b, w, start, x)
    requires Bounded(hv, s, cur, start, 0) && StepsBounded(G, wt, hv, s, cur)
    ensures x in G && AllOnBoard(b, w) && PathCost(b, w) >= W(b, start)
    ensures Bounded(hv, s, cur, x, PathCost(b, w) - W(b, start))
    decreases |w|
  {
    AdjacencyHas(b, G, x);
    assert PathCost(b, w) == PathCost(b, w[..|w| - 1]) + W(b, x);
    if |w| == 1 {
      assert w[..0] == [];
    } else {
      var w', y := w[..|w| - 1], w[|w| - 2];
      assert IsWalk(b, w', start, y);
      WalkInduct(b, G, wt, hv, start, s, cur, w', y);
      AdjacencyStep(b, G, y);
      assert Step(b, y, x);
      assert Bounded(hv, s, cur, x, PathCost(b, w') - W(b, start) + wt[x]);
    }
  }

  /** Every polled cell was polled at the least cost of a walk from the start. */
  lemma PolledOptimal(b: Board, G: map<Cell, seq<Cell>>, wt: map<Cell, nat>, hv: map<Cell, nat>, start: Cell,
                      s: Frontier, cur: Cell)
    requires Consistent(b) && AdjacencyOf(b, G) && Costed(G, wt, hv) && Weighs(b, wt)
    requires FInv(G, wt, hv, start, s) && (s.open != {} ==> MinOpen(hv, s, cur))
    ensures forall x, w :: x in s.order && IsWalk(b, w, start, x) ==>
      x in s.g && AllOnBoard(b, w) && W(b, start) + s.g[x] <= PathCost(b, w)
  {
    forall x, w | x in s.order && IsWalk(b, w, start, x)
      ensures x in s.g && AllOnBoard(b, w) && W(b, start) + s.g[x] <= PathCost(b, w)
    {
      WalkBound(b, G, wt, hv, start, s, cur, w, x);
      assert x in s.order;
    }
  }

  /** The queued cell of least priority is reached at the least cost of a walk from the start. */
  lemma LeastOptimal(b: Board, G: map<Cell, seq<Cell>>, wt: map<Cell, nat>, hv: map<Cell, nat>, start: Cell,
                     s: Frontier, cur: Cell)
    requires Consistent(b) && AdjacencyOf(b, G) && Costed(G, wt, hv) && Weighs(b, wt)
    requires FInv(G, wt, hv, start, s) && MinOpen(hv, s, cur)
    ensures cur in s.g
    ensures forall w :: IsWalk(b, w, start, cur) ==> AllOnBoard(b, w) && W(b, start) + s.g[cur] <= PathCost(b, w)
  {
    forall w | IsWalk(b, w, start, cur)
      ensures AllOnBoard(b, w) && W(b, start) + s.g[cur] <= PathCost(b, w)
    {
      WalkBound(b, G, wt, hv, start, s, cur, w, cur);
    }
  }

  /** A search whose queue ran dry without polling the end leaves no walk to the end. */
  lemma Unreachable(b: Board, G: map<Cell, seq<Cell>>, wt: map<Cell, nat>, hv: map<Cell, nat>, start: Cell,
                    end: Cell, s: Frontier)
    requires Consistent(b) && AdjacencyOf(b, G) && FInv(G, wt, hv, start, s) && s.open == {} && end !in s.order
    ensures forall w :: !IsWalk(b, w, start, end)
  {
    assert s.order != [] && start in s.order;
    assert Elems(s.order) == s.g.Keys by {
      forall k | k in s.g.Keys
        ensures k in Elems(s.order)
      {
        assert k !in s.open;
      }
    }
    forall w | IsWalk(b, w, start, end)
      ensures false
    {
      ClosedSetHoldsWalk(b, G, s.order, w, start, end);
    }
  }

  /** The start costs nothing and every other reached cell costs what its parent costs plus its
      own weight. */
  ghost predicate Priced(wt: map<Cell, nat>, start: Cell, s: Frontier)
  {
    && start in s.g && s.g[start] == 0 && s.par.Keys == s.g.Keys - {start}
    && forall x :: x in s.par ==> s.par[x] in s.g && x in wt && s.g[x] == s.g[s.par[x]] + wt[x]
  }

  /** Following parents from a reached cell back to the start costs exactly its recorded cost
      (plus the start's own weight). */
  lemma {:induction false} ChainCost(b: Board, wt: map<Cell, nat>, start: Cell, s: Frontier, path: seq<Cell>, k: nat)
    requires Weighs(b, wt) && Priced(wt, start, s)
    requires forall x :: x in path ==> x in s.g
    requires k < |path| && path[0] == start && AllOnBoard(b, path)
    requires forall i :: 0 < i <= k ==> path[i] in s.par && s.par[path[i]] == path[i - 1]
    ensures AllOnBoard(b, path[..k + 1]) && PathCost(b, path[..k + 1]) == W(b, start) + s.g[path[k]]
    decreases k
  {
    assert path[..k + 1][..k] == path[..k];
    if k > 0 {
      ChainCost(b, wt, start, s, path, k - 1);
      assert path[k] in s.par;
    } else {
      assert path[..0] == [];
    }
  }

  // ---------------------------------------------------------------------------
  // The board's weights and the two heuristics
  // ---------------------------------------------------------------------------

  /** The weight of every cell of `G`. */
  ghost function Weights(b: Board, G: map<Cell, seq<Cell>>): map<Cell, nat>
  {
    map x | x in G && OnBoard(b, x) :: W(b, x)
  }

  /** The heuristic of a search that uses one: the Manhattan distance to the end for A*, nothing
      for Dijkstra. */
  function H(useHeuristic: bool, x: Cell, end: Cell): nat
  {
    if useHeuristic then Manhattan(x.r, x.c, end.r, end.c) else 0
  }

  ghost predicate HeuristicOf(hv: map<Cell, nat>, useHeuristic: bool, end: Cell)
  {
    forall x :: x in hv ==> hv[x] == H(useHeuristic, x, end)
  }

  /** The weights of the cells of `G` and the heuristic values of a search, computed once. */
  lemma BoardCosts(b: Board, G: map<Cell, seq<Cell>>, useHeuristic: bool, end: Cell)
    returns (wt: map<Cell, nat>, hv: map<Cell, nat>)
    requires AdjacencyOf(b, G)
    ensures Weighs(b, wt) && HeuristicOf(hv, useHeuristic, end) && wt.Keys == G.Keys && hv.Keys == G.Keys
  {
    wt := Weights(b, G);
    hv := map x | x in G :: H(useHeuristic, x, end);
  }

  /** Both heuristics are consistent on the board: one step changes the Manhattan distance to the
      end by one, and every weight is at least one. */
  lemma CostedBoard(b: Board, G: map<Cell, seq<Cell>>, wt: map<Cell, nat>, hv: map<Cell, nat>,
                    useHeuristic: bool, end: Cell)
    requires Consistent(b) && AdjacencyOf(b, G) && Weighs(b, wt) && HeuristicOf(hv, useHeuristic, end)
    requires wt.Keys == G.Keys && hv.Keys == G.Keys
    ensures Costed(G, wt, hv)
  {
    forall x, y | x in G && y in G[x]
      ensures hv[x] <= wt[y] + hv[y]
    {
      AdjacencyStep(b, G, x);
      assert Step(b, x, y) && y in G;
      HeuristicStep(useHeuristic, x, y, end);
    }
  }

  /** One step changes either heuristic by at most one. */
  lemma HeuristicStep(useHeuristic: bool, x: Cell, y: Cell, end: Cell)
    requires Adjacent(x, y)
    ensures H(useHeuristic, x, end) <= 1 + H(useHeuristic, y, end)
  {
  }

  // ---------------------------------------------------------------------------
  // The cells' fields
  // ---------------------------------------------------------------------------

  /** What `resetPath` leaves behind that the searches rely on: no cost and no parent. */
  ghost predicate Cleared(G: map<Cell, seq<Cell>>)
    reads G.Keys`gCost, G.Keys`parent
  {
    forall x :: x in G ==> x.gCost == Inf && x.parent == null
  }

  /** The fields of cell `x` hold its search state: its cost if reached, its priority and (for A*)
      its heuristic, and its parent; an unreached cell has neither cost nor parent. */
  ghost predicate Mirrors(hv: map<Cell, nat>, useHeuristic: bool, s: Frontier, x: Cell)
    reads x`gCost, x`hCost, x`fCost, x`parent
  {
    && x.gCost == (if x in s.g then Fin(s.g[x]) else Inf)
    && (x in s.g && x in hv ==> x.fCost == Fin(s.g[x] + hv[x]))
    && (useHeuristic && x in s.g && x in hv ==> x.hCost == hv[x])
    && x.parent == (if x in s.par then s.par[x] else null)
  }

  /** The fields of every cell hold the search state. */
  ghost predicate CostsMirror(G: map<Cell, seq<Cell>>, hv: map<Cell, nat>, useHeuristic: bool, s: Frontier)
    reads G.Keys`gCost, G.Keys`hCost, G.Keys`fCost, G.Keys`parent
  {
    forall x :: x in G ==> Mirrors(hv, useHeuristic, s, x)
  }

  /** The start gets cost 0 and, for A*, its heuristic; its priority is their sum. */
  method Seed(grid: array2<Cell>, ghost b: Board, ghost G: map<Cell, seq<Cell>>, ghost hv: map<Cell, nat>,
              useHeuristic: bool, start: Cell, h: nat)
    requires Pictures(grid, b) && start in G && start in hv && h == hv[start] && Cleared(G)
    modifies start`gCost, (if useHeuristic then {start} else {})`hCost, start`fCost
    ensures CostsMirror(G, hv, useHeuristic, Begin(start)) && Pictures(grid, b)
  {
    start.gCost := Fin(0);
    if useHeuristic {
      start.hCost := h;
    }
    start.fCost := Fin(0 + h);
  }

  /** A relaxed cell `x` gets cost `gv`, (for A*) its heuristic `h`, priority `gv + h` and
      parent `p`. */
  method Relabel(ghost G: map<Cell, seq<Cell>>, ghost hv: map<Cell, nat>,
                 useHeuristic: bool, ghost s: Frontier, x: Cell, p: Cell, gv: nat, h: nat)
    requires x in G && x in hv && h == hv[x] && CostsMirror(G, hv, useHeuristic, s)
    modifies x`gCost, (if useHeuristic then {x} else {})`hCost, x`fCost, x`parent
    ensures CostsMirror(G, hv, useHeuristic, Frontier(s.g[x := gv], s.par[x := p], s.open + {x}, s.order))
  {
    x.gCost := Fin(gv);
    if useHeuristic {
      x.hCost := h;
    }
    x.fCost := Fin(gv + h);
    x.parent := p;
    ghost var t := Frontier(s.g[x := gv], s.par[x := p], s.open + {x}, s.order);
    forall y | y in G
      ensures Mirrors(hv, useHeuristic, t, y)
    {
      if y != x {
        assert old(Mirrors(hv, useHeuristic, s, y));
      }
    }
  }

  /** The cell polled has the least priority of the queue. */
  lemma PolledLeast(G: map<Cell, seq<Cell>>, hv: map<Cell, nat>, useHeuristic: bool, s: Frontier, pq: seq<Cell>,
                    cur: Cell)
    requires CostsMirror(G, hv, useHeuristic, s) && Elems(pq) == s.open && s.open <= s.g.Keys
    requires s.g.Keys <= G.Keys && hv.Keys == G.Keys
    requires cur in pq && forall y :: y in pq ==> y.CompareTo(cur) >= 0
    ensures MinOpen(hv, s, cur)
  {
    forall y | y in s.open
      ensures F(hv, s, cur) <= F(hv, s, y)
    {
      assert y in pq && y.CompareTo(cur) >= 0;
    }
  }
  // ---------------------------------------------------------------------------
  // The loop over the neighbours of a polled cell
  // ---------------------------------------------------------------------------

  /** The inner `for` loop of `solveDijkstra` and `solveAStar`: each listed neighbour that the
      polled cell `current` reaches more cheaply gets the new cost, (for A*) its heuristic, the
      new priority and `current` as parent, and is removed from and re-added to the queue. The
      fields and the queue follow the abstract relaxation of the list. */
  method RelaxNeighbors(ghost G: map<Cell, seq<Cell>>, ghost wt: map<Cell, nat>, ghost hv: map<Cell, nat>,
                        useHeuristic: bool, current: Cell, end: Cell, neighbors: seq<Cell>, pq: seq<Cell>,
                        ghost s: Frontier)
    returns (pq': seq<Cell>, ghost t: Frontier)
    requires HeuristicOf(hv, useHeuristic, end) && wt.Keys == G.Keys && hv.Keys == G.Keys
    requires current in G && current in s.g
    requires forall y :: y in neighbors ==> y in G && Adjacent(current, y) && y.GetWeight() == wt[y]
    requires CostsMirror(G, hv, useHeuristic, s) && Elems(pq) == s.open && Distinct(pq)
    modifies G.Keys`gCost, (if useHeuristic then G.Keys else {})`hCost, G.Keys`fCost, G.Keys`parent
    ensures t == RelaxAll(wt, current, s.g[current], neighbors, s)
    ensures CostsMirror(G, hv, useHeuristic, t) && Elems(pq') == t.open && Distinct(pq')
  {
    ghost var gc := s.g[current];
    assert Mirrors(hv, useHeuristic, s, current);
    pq', t := pq, s;
    for k := 0 to |neighbors|
      invariant t == RelaxAll(wt, current, gc, neighbors[..k], s)
      invariant CostsMirror(G, hv, useHeuristic, t) && Elems(pq') == t.open && Distinct(pq')
      invariant current.gCost == Fin(gc)
    {
      RelaxAllNext(wt, current, gc, neighbors, k, s);
      pq' := RelaxNeighbor(G, wt, hv, useHeuristic, current, gc, end, neighbors[k], pq', t);
      t := Relax(wt, current, gc, neighbors[k], t);
    }
    assert neighbors[..|neighbors|] == neighbors;
  }

  /** One pass of the inner loop, for the neighbour `neighbor` of `current`, whose cost is `gc`. */
  method RelaxNeighbor(ghost G: map<Cell, seq<Cell>>, ghost wt: map<Cell, nat>,
                       ghost hv: map<Cell, nat>, useHeuristic: bool, current: Cell, ghost gc: nat, end: Cell,
                       neighbor: Cell, pq: seq<Cell>, ghost t: Frontier)
    returns (pq': seq<Cell>)
    requires HeuristicOf(hv, useHeuristic, end)
    requires wt.Keys == G.Keys && hv.Keys == G.Keys && neighbor in G && Adjacent(current, neighbor)
    requires neighbor.GetWeight() == wt[neighbor]
    requires current.gCost == Fin(gc)
    requires CostsMirror(G, hv, useHeuristic, t) && Elems(pq) == t.open && Distinct(pq)
    modifies neighbor`gCost, (if useHeuristic then {neighbor} else {})`hCost, neighbor`fCost, neighbor`parent
    ensures CostsMirror(G, hv, useHeuristic, Relax(wt, current, gc, neighbor, t))
    ensures Elems(pq') == Relax(wt, current, gc, neighbor, t).open && Distinct(pq')
    ensures current.gCost == Fin(gc)
  {
    assert neighbor != current;
    assert Mirrors(hv, useHeuristic, t, neighbor);
    ghost var t' := Relax(wt, current, gc, neighbor, t);
    var newCost := current.gCost.n + neighbor.GetWeight();
    if Below(Fin(newCost), neighbor.gCost) {
      assert Improves(wt, gc, t, neighbor);
      assert t' == Frontier(t.g[neighbor := newCost], t.par[neighbor := current], t.open + {neighbor}, t.order);
      Relabel(G, hv, useHeuristic, t, neighbor, current, newCost, H(useHeuristic, neighbor, end));
      Requeue(pq, neighbor);
      pq' := Remove(pq, neighbor) + [neighbor];
    } else {
      assert !Improves(wt, gc, t, neighbor) && t' == t;
      pq' := pq;
    }
  }

  lemma RelaxAllNext(wt: map<Cell, nat>, cur: Cell, gc: nat, ns: seq<Cell>, k: nat, s: Frontier)
    requires k < |ns|
    ensures RelaxAll(wt, cur, gc, ns[..k + 1], s) == Relax(wt, cur, gc, ns[k], RelaxAll(wt, cur, gc, ns[..k], s))
  {
    assert ns[..k + 1][..k] == ns[..k];
  }

  // ---------------------------------------------------------------------------
  // The outer loop
  // ---------------------------------------------------------------------------

  /** What the searches need of the cells listed as neighbours of `cur`: cells of the board, one
      step away, whose weight is the one the search assumes. */
  lemma NeighborFacts(grid: array2<Cell>, b: Board, G: map<Cell, seq<Cell>>, wt: map<Cell, nat>, cur: Cell)
    requires Pictures(grid, b) && AdjacencyOf(b, G) && Weighs(b, wt) && wt.Keys == G.Keys && cur in G
    ensures forall y :: y in G[cur] ==> y in G && Adjacent(cur, y) && y.GetWeight() == wt[y]
  {
    PicturesConsistent(grid, b);
    AdjacencyStep(b, G, cur);
    forall y | y in G[cur]
      ensures y in G && Adjacent(cur, y) && y.GetWeight() == wt[y]
    {
      assert Step(b, cur, y);
      PicturedCell(grid, b, y);
    }
  }

  /** The inner loop leaves the grid's layout and terrain as they were. */
  method RelaxPolled(grid: array2<Cell>, ghost b: Board, ghost G: map<Cell, seq<Cell>>, ghost wt: map<Cell, nat>,
                     ghost hv: map<Cell, nat>, useHeuristic: bool, current: Cell, end: Cell, neighbors: seq<Cell>,
                     pq: seq<Cell>, ghost s: Frontier)
    returns (pq': seq<Cell>, ghost t: Frontier)
    requires Pictures(grid, b) && HeuristicOf(hv, useHeuristic, end) && wt.Keys == G.Keys && hv.Keys == G.Keys
    requires current in G && current in s.g
    requires forall y :: y in neighbors ==> y in G && Adjacent(current, y) && y.GetWeight() == wt[y]
    requires CostsMirror(G, hv, useHeuristic, s) && Elems(pq) == s.open && Distinct(pq)
    modifies G.Keys`gCost, (if useHeuristic then G.Keys else {})`hCost, G.Keys`fCost, G.Keys`parent
    ensures t == RelaxAll(wt, current, s.g[current], neighbors, s)
    ensures CostsMirror(G, hv, useHeuristic, t) && Elems(pq') == t.open && Distinct(pq')
    ensures Pictures(grid, b)
  {
    pq', t := RelaxNeighbors(G, wt, hv, useHeuristic, current, end, neighbors, pq, s);
  }

  /** One round of the `while` loop: poll the queued cell of least priority and record it; unless
      it is the end, relax its neighbours. */
  method BestFirstRound(grid: array2<Cell>, ghost b: Board, ghost G: map<Cell, seq<Cell>>, ghost wt: map<Cell, nat>,
                        ghost hv: map<Cell, nat>, useHeuristic: bool, end: Cell,
                        visitedOrder: seq<Cell>, pq: seq<Cell>, ghost s: Frontier)
    returns (found: bool, cur: Cell, visitedOrder': seq<Cell>, pq': seq<Cell>, ghost s': Frontier)
    requires Pictures(grid, b) && AdjacencyOf(b, G) && Weighs(b, wt) && wt.Keys == G.Keys && hv.Keys == G.Keys
    requires HeuristicOf(hv, useHeuristic, end) && s.open <= s.g.Keys <= G.Keys
    requires CostsMirror(G, hv, useHeuristic, s) && Elems(pq) == s.open && Distinct(pq) && pq != []
    modifies G.Keys`gCost, (if useHeuristic then G.Keys else {})`hCost, G.Keys`fCost, G.Keys`parent
    ensures found == (cur == end) && visitedOrder' == visitedOrder + [cur] && MinOpen(hv, s, cur)
    ensures s' == if found then s else Expand(G, wt, s, cur)
    ensures CostsMirror(G, hv, useHeuristic, s') && Pictures(grid, b)
    ensures !found ==> Elems(pq') == s'.open && Distinct(pq')
  {
    var rest;
    cur, rest := Poll(pq).0, Poll(pq).1;
    PolledLeast(G, hv, useHeuristic, s, pq, cur);
    visitedOrder' := visitedOrder + [cur];
    found := cur == end;
    pq', s' := rest, s;
    if !found {
      pq', s' := ExpandPolled(grid, b, G, wt, hv, useHeuristic, end, cur, rest, s);
    }
  }

  /** The rest of a round for a polled cell `cur` that is not the end: relax its neighbours. */
  method ExpandPolled(grid: array2<Cell>, ghost b: Board, ghost G: map<Cell, seq<Cell>>, ghost wt: map<Cell, nat>,
                      ghost hv: map<Cell, nat>, useHeuristic: bool, end: Cell, cur: Cell, rest: seq<Cell>,
                      ghost s: Frontier)
    returns (pq': seq<Cell>, ghost s': Frontier)
    requires Pictures(grid, b) && AdjacencyOf(b, G) && Weighs(b, wt) && wt.Keys == G.Keys && hv.Keys == G.Keys
    requires HeuristicOf(hv, useHeuristic, end) && cur in G && cur in s.g
    requires CostsMirror(G, hv, useHeuristic, s) && Elems(rest) == s.open - {cur} && Distinct(rest)
    modifies G.Keys`gCost, (if useHeuristic then G.Keys else {})`hCost, G.Keys`fCost, G.Keys`parent
    ensures s' == Expand(G, wt, s, cur)
    ensures CostsMirror(G, hv, useHeuristic, s') && Elems(pq') == s'.open && Distinct(pq')
    ensures Pictures(grid, b)
  {
    NeighborFacts(grid, b, G, wt, cur);
    var neighbors := GetNeighbors(grid, cur, b);
    assert neighbors == G[cur];
    MirrorClose(G, hv, useHeuristic, s, cur);
    pq', s' := RelaxPolled(grid, b, G, wt, hv, useHeuristic, cur, end, neighbors, rest, Close(s, cur));
  }

  /** Polling changes no field of a cell. */
  lemma MirrorClose(G: map<Cell, seq<Cell>>, hv: map<Cell, nat>, useHeuristic: bool, s: Frontier, cur: Cell)
    requires CostsMirror(G, hv, useHeuristic, s)
    ensures CostsMirror(G, hv, useHeuristic, Close(s, cur))
  {
    forall x | x in G
      ensures Mirrors(hv, useHeuristic, Close(s, cur), x)
    {
      assert Mirrors(hv, useHeuristic, s, x);
    }
  }

  /** Polling a cell not polled before shrinks the set of cells never polled. */
  lemma OrderGrows(G: map<Cell, seq<Cell>>, s: Frontier, cur: Cell, t: Frontier, end: Cell)
    requires cur in G && cur !in s.order && t.order == s.order + [cur]
    ensures G.Keys - Elems(t.order) < G.Keys - Elems(s.order)
    ensures end !in s.order && end != cur ==> end !in t.order
  {
    assert Elems(t.order) == Elems(s.order) + {cur};
  }

  /** What holds of a search between rounds: the fields mirror the frontier `s`, which keeps
      `FInv`; the queue holds the open cells once each, and the end is not yet polled. */
  ghost predicate Searching(grid: array2<Cell>, b: Board, G: map<Cell, seq<Cell>>, wt: map<Cell, nat>,
                            hv: map<Cell, nat>, useHeuristic: bool, start: Cell, end: Cell,
                            visitedOrder: seq<Cell>, pq: seq<Cell>, s: Frontier)
    reads grid, BoardCells(b)`terrain, G.Keys`gCost, G.Keys`hCost, G.Keys`fCost, G.Keys`parent
  {
    && Pictures(grid, b) && FInv(G, wt, hv, start, s) && CostsMirror(G, hv, useHeuristic, s)
    && visitedOrder == s.order && Elems(pq) == s.open && Distinct(pq) && end !in s.order
  }

  /** The `while` loop of `solveDijkstra` and `solveAStar`, after the start is seeded: it runs
      until the end is polled or the queue is empty. No cell is polled twice, and the fields of
      the cells hold the search state throughout. */
  method BestFirstLoop(grid: array2<Cell>, ghost b: Board, ghost G: map<Cell, seq<Cell>>, ghost wt: map<Cell, nat>,
                       ghost hv: map<Cell, nat>, useHeuristic: bool, start: Cell, end: Cell)
    returns (found: bool, visitedOrder: seq<Cell>, ghost s: Frontier)
    requires Pictures(grid, b) && Consistent(b) && AdjacencyOf(b, G) && Weighs(b, wt)
    requires HeuristicOf(hv, useHeuristic, end) && wt.Keys == G.Keys && hv.Keys == G.Keys && start in G && Cleared(G)
    modifies G.Keys`gCost, (if useHeuristic then G.Keys else {})`hCost, G.Keys`fCost, G.Keys`parent
    ensures FInv(G, wt, hv, start, s) && CostsMirror(G, hv, useHeuristic, s)
    ensures found ==> visitedOrder == s.order + [end] && MinOpen(hv, s, end) && end !in s.order
    ensures !found ==> visitedOrder == s.order && s.open == {} && end !in s.order
  {
    var pq;
    visitedOrder, pq, s := BestFirstStart(grid, b, G, wt, hv, useHeuristic, start, end);
    found := false;
    while pq != []
      invariant Searching(grid, b, G, wt, hv, useHeuristic, start, end, visitedOrder, pq, s)
      decreases G.Keys - Elems(s.order)
    {
      ghost var s';
      found, visitedOrder, pq, s' := BestFirstStep(grid, b, G, wt, hv, useHeuristic, start, end, visitedOrder, pq, s);
      if found {
        return;
      }
      s := s';
    }
  }

  /** Before the loop: the start is seeded with cost 0 and queued alone. */
  method BestFirstStart(grid: array2<Cell>, ghost b: Board, ghost G: map<Cell, seq<Cell>>, ghost wt: map<Cell, nat>,
                        ghost hv: map<Cell, nat>, useHeuristic: bool, start: Cell, end: Cell)
    returns (visitedOrder: seq<Cell>, pq: seq<Cell>, ghost s: Frontier)
    requires Pictures(grid, b) && HeuristicOf(hv, useHeuristic, end) && hv.Keys == G.Keys && start in G && Cleared(G)
    modifies start`gCost, (if useHeuristic then {start} else {})`hCost, start`fCost
    ensures s == Begin(start) && visitedOrder == [] && pq == [start]
    ensures Searching(grid, b, G, wt, hv, useHeuristic, start, end, visitedOrder, pq, s)
  {
    Seed(grid, b, G, hv, useHeuristic, start, H(useHeuristic, start, end));
    s := Begin(start);
    BeginInv(G, wt, hv, start);
    visitedOrder, pq := [], [start];
  }

  /** A round seen from the loop: it keeps the invariant of the search, and unless it polls the
      end it settles one more cell. */
  method BestFirstStep(grid: array2<Cell>, ghost b: Board, ghost G: map<Cell, seq<Cell>>, ghost wt: map<Cell, nat>,
                       ghost hv: map<Cell, nat>, useHeuristic: bool, ghost start: Cell, end: Cell,
                       visitedOrder: seq<Cell>, pq: seq<Cell>, ghost s: Frontier)
    returns (found: bool, visitedOrder': seq<Cell>, pq': seq<Cell>, ghost s': Frontier)
    requires Consistent(b) && AdjacencyOf(b, G) && Weighs(b, wt)
    requires HeuristicOf(hv, useHeuristic, end) && wt.Keys == G.Keys && hv.Keys == G.Keys
    requires Pictures(grid, b) && FInv(G, wt, hv, start, s) && CostsMirror(G, hv, useHeuristic, s)
    requires visitedOrder == s.order && Elems(pq) == s.open && Distinct(pq) && end !in s.order && pq != []
    modifies G.Keys`gCost, (if useHeuristic then G.Keys else {})`hCost, G.Keys`fCost, G.Keys`parent
    ensures found ==> s' == s && visitedOrder' == s.order + [end] && MinOpen(hv, s, end)
    ensures Pictures(grid, b) && FInv(G, wt, hv, start, s') && CostsMirror(G, hv, useHeuristic, s')
    ensures !found ==> Searching(grid, b, G, wt, hv, useHeuristic, start, end, visitedOrder', pq', s')
    ensures !found ==> G.Keys - Elems(s'.order) < G.Keys - Elems(s.order)
  {
    var cur;
    found, cur, visitedOrder', pq', s' := BestFirstRound(grid, b, G, wt, hv, useHeuristic, end, visitedOrder, pq, s);
    if !found {
      ExpandOnBoard(b, G, wt, hv, useHeuristic, start, end, s, cur, s');
      OrderGrows(G, s, cur, s', end);
    }
  }

  // ---------------------------------------------------------------------------
  // The result
  // ---------------------------------------------------------------------------

  /** The parent fields of the reached cells form a tree of steps rooted at the start, ranked by
      cost: a parent is always strictly cheaper, since every weight is at least 1. */
  lemma MirrorTree(b: Board, G: map<Cell, seq<Cell>>, wt: map<Cell, nat>, hv: map<Cell, nat>, useHeuristic: bool,
                   start: Cell, s: Frontier)
    requires Consistent(b) && AdjacencyOf(b, G) && Weighs(b, wt)
    requires FShape(G, start, s) && FTree(G, wt, start, s) && CostsMirror(G, hv, useHeuristic, s)
    ensures ParentTree(b, start, s.g)
  {
    forall x | x in s.g
      ensures OnBoard(b, x) && (x.parent == null ==> x == start)
      ensures x.parent != null ==> x.parent in s.g && s.g[x.parent] < s.g[x] && Step(b, x.parent, x)
    {
      assert Mirrors(hv, useHeuristic, s, x);
      if x != start {
        AdjacencyStep(b, G, s.par[x]);
      }
    }
  }

  /** A chain of parent fields is a chain of recorded parents. */
  lemma MirrorChain(G: map<Cell, seq<Cell>>, hv: map<Cell, nat>, useHeuristic: bool, s: Frontier,
                    path: seq<Cell>, end: Cell)
    requires CostsMirror(G, hv, useHeuristic, s) && IsParentChain(path, end)
    requires forall x :: x in path ==> x in G
    ensures forall i :: 0 < i < |path| ==> path[i] in s.par && s.par[path[i]] == path[i - 1]
  {
    forall i | 0 < i < |path|
      ensures path[i] in s.par && s.par[path[i]] == path[i - 1]
    {
      assert path[i].parent == path[i - 1] && Mirrors(hv, useHeuristic, s, path[i]);
    }
  }

  /** What the search knows once it polls the end: the parent fields form a tree of steps ranked
      by cost, and no walk to the end is cheaper than the end's cost. */
  lemma FoundFacts(b: Board, G: map<Cell, seq<Cell>>, wt: map<Cell, nat>, hv: map<Cell, nat>, useHeuristic: bool,
                   start: Cell, end: Cell, s: Frontier)
    requires Consistent(b) && AdjacencyOf(b, G) && Weighs(b, wt) && HeuristicOf(hv, useHeuristic, end)
    requires wt.Keys == G.Keys && hv.Keys == G.Keys
    requires FInv(G, wt, hv, start, s) && CostsMirror(G, hv, useHeuristic, s) && MinOpen(hv, s, end)
    ensures ParentTree(b, start, s.g) && Priced(wt, start, s) && end in s.g && s.g.Keys <= G.Keys
    ensures NoCheaper(b, start, end, s.g[end])
  {
    CostedBoard(b, G, wt, hv, useHeuristic, end);
    LeastOptimal(b, G, wt, hv, start, s, end);
    MirrorTree(b, G, wt, hv, useHeuristic, start, s);
  }

  /** No walk from `start` to `end` costs less than the start's weight plus `c`. */
  ghost predicate NoCheaper(b: Board, start: Cell, end: Cell, c: nat)
  {
    forall w :: IsWalk(b, w, start, end) ==> AllOnBoard(b, w) && W(b, start) + c <= PathCost(b, w)
  }

  /** A chain of parent fields ending at a reached cell costs what the search recorded for it. */
  lemma ChainPrice(b: Board, G: map<Cell, seq<Cell>>, wt: map<Cell, nat>, hv: map<Cell, nat>, useHeuristic: bool,
                   start: Cell, end: Cell, s: Frontier, path: seq<Cell>)
    requires Weighs(b, wt) && Priced(wt, start, s) && s.g.Keys <= G.Keys && CostsMirror(G, hv, useHeuristic, s)
    requires IsParentChain(path, end) && IsWalk(b, path, start, end) && forall x :: x in path ==> x in s.g
    requires end in s.g && NoCheaper(b, start, end, s.g[end])
    ensures PathCost(b, path) == W(b, start) + s.g[end]
    ensures forall w :: IsWalk(b, w, start, end) ==> PathCost(b, path) <= PathCost(b, w)
  {
    MirrorChain(G, hv, useHeuristic, s, path, end);
    ChainCost(b, wt, start, s, path, |path| - 1);
    assert path[..|path|] == path;
  }

  /** The search polled the end: the result is its chain of parents, a cheapest walk from the
      start, and the end's cost field holds what that walk costs beyond the start's weight. */
  method BestFirstFound(ghost b: Board, ghost G: map<Cell, seq<Cell>>, ghost wt: map<Cell, nat>,
                        ghost hv: map<Cell, nat>, ghost useHeuristic: bool, start: Cell, end: Cell,
                        visitedOrder: seq<Cell>, ghost s: Frontier)
    returns (res: Result)
    requires Weighs(b, wt) && ParentTree(b, start, s.g) && Priced(wt, start, s) && end in s.g && s.g.Keys <= G.Keys
    requires CostsMirror(G, hv, useHeuristic, s)
    requires NoCheaper(b, start, end, s.g[end])
    ensures res.visitedOrder == visitedOrder && res.path != []
    ensures IsParentChain(res.path, end) && IsWalk(b, res.path, start, end)
    ensures end.gCost.Fin? && PathCost(b, res.path) == W(b, start) + end.gCost.n
    ensures forall w :: IsWalk(b, w, start, end) ==> PathCost(b, res.path) <= PathCost(b, w)
  {
    ghost var e := s.g[end];
    assert end.gCost == Fin(e) by { assert Mirrors(hv, useHeuristic, s, end); }
    var path := ReconstructPath(end, b, start, s.g);
    ChainPrice(b, G, wt, hv, useHeuristic, start, end, s, path);
    res := Result(visitedOrder, path);
  }

  /** What the polled cells are once the loop is over: the start comes first, none twice, and the
      end only if it was found. */
  lemma VisitedShape(b: Board, G: map<Cell, seq<Cell>>, wt: map<Cell, nat>, hv: map<Cell, nat>, start: Cell,
                     end: Cell, found: bool, visitedOrder: seq<Cell>, s: Frontier)
    requires AdjacencyOf(b, G) && FShape(G, start, s)
    requires found ==> visitedOrder == s.order + [end] && MinOpen(hv, s, end) && end !in s.order
    requires !found ==> visitedOrder == s.order && s.open == {} && end !in s.order
    ensures visitedOrder != [] && visitedOrder[0] == start && Distinct(visitedOrder)
    ensures AllOnBoard(b, visitedOrder) && Elems(visitedOrder) <= s.g.Keys
    ensures found <==> end in visitedOrder
  {
    if found {
      assert s.order == [] ==> end == start;
      forall i, j | 0 <= i < j < |visitedOrder|
        ensures visitedOrder[i] != visitedOrder[j]
      {
        if j == |s.order| {
          assert visitedOrder[i] in s.order;
        }
      }
    } else {
      assert s.order != [];
    }
    forall i | 0 <= i < |visitedOrder|
      ensures OnBoard(b, visitedOrder[i])
    {
      assert visitedOrder[i] in G;
    }
  }

  /** Each polled cell was polled at the least cost of a walk from the start. */
  lemma VisitedOptimal(b: Board, G: map<Cell, seq<Cell>>, wt: map<Cell, nat>, hv: map<Cell, nat>,
                       useHeuristic: bool, start: Cell, end: Cell, found: bool, visitedOrder: seq<Cell>, s: Frontier)
    requires Consistent(b) && AdjacencyOf(b, G) && Weighs(b, wt) && HeuristicOf(hv, useHeuristic, end)
    requires wt.Keys == G.Keys && hv.Keys == G.Keys && FInv(G, wt, hv, start, s)
    requires found ==> visitedOrder == s.order + [end] && MinOpen(hv, s, end)
    requires !found ==> visitedOrder == s.order && s.open == {}
    ensures forall x, w :: x in visitedOrder && IsWalk(b, w, start, x) ==>
      x in s.g && AllOnBoard(b, w) && W(b, start) + s.g[x] <= PathCost(b, w)
  {
    CostedBoard(b, G, wt, hv, useHeuristic, end);
    var cur := if found then end else start;
    forall x, w | x in visitedOrder && IsWalk(b, w, start, x)
      ensures x in s.g && AllOnBoard(b, w) && W(b, start) + s.g[x] <= PathCost(b, w)
    {
      WalkBound(b, G, wt, hv, start, s, cur, w, x);
      if !found || x != end {
        assert x in s.order;
      }
    }
  }

  /** The same bound, read off the cells' cost fields. */
  lemma VisitedCosts(G: map<Cell, seq<Cell>>, hv: map<Cell, nat>, useHeuristic: bool, s: Frontier, b: Board,
                     start: Cell, visitedOrder: seq<Cell>)
    requires CostsMirror(G, hv, useHeuristic, s) && Elems(visitedOrder) <= s.g.Keys <= G.Keys
    requires forall x, w :: x in visitedOrder && IsWalk(b, w, start, x) ==>
      x in s.g && AllOnBoard(b, w) && W(b, start) + s.g[x] <= PathCost(b, w)
    ensures forall x, w :: x in visitedOrder && IsWalk(b, w, start, x) ==>
      x.gCost.Fin? && AllOnBoard(b, w) && W(b, start) + x.gCost.n <= PathCost(b, w)
  {
    forall x | x in visitedOrder
      ensures x.gCost == Fin(s.g[x])
    {
      assert Mirrors(hv, useHeuristic, s, x);
    }
  }

  /** After the loop: the result of `solveDijkstra` and `solveAStar`, with what the cells' fields
      then hold. */
  method BestFirstResult(ghost b: Board, ghost G: map<Cell, seq<Cell>>, ghost wt: map<Cell, nat>,
                         ghost hv: map<Cell, nat>, ghost useHeuristic: bool, start: Cell, end: Cell, found: bool,
                         visitedOrder: seq<Cell>, ghost s: Frontier)
    returns (res: Result)
    requires Consistent(b) && AdjacencyOf(b, G) && Weighs(b, wt) && HeuristicOf(hv, useHeuristic, end)
    requires wt.Keys == G.Keys && hv.Keys == G.Keys
    requires FInv(G, wt, hv, start, s) && CostsMirror(G, hv, useHeuristic, s)
    requires found ==> visitedOrder == s.order + [end] && MinOpen(hv, s, end) && end !in s.order
    requires !found ==> visitedOrder == s.order && s.open == {} && end !in s.order
    ensures res.visitedOrder == visitedOrder && res.visitedOrder != [] && res.visitedOrder[0] == start
    ensures Distinct(res.visitedOrder) && AllOnBoard(b, res.visitedOrder)
    ensures res.path != [] <==> end in res.visitedOrder
    ensures res.path != [] ==> res.visitedOrder[|res.visitedOrder| - 1] == end
    ensures res.path != [] ==> IsParentChain(res.path, end) && IsWalk(b, res.path, start, end)
    ensures res.path != [] ==> end.gCost.Fin? && PathCost(b, res.path) == W(b, start) + end.gCost.n
    ensures res.path != [] ==> forall w :: IsWalk(b, w, start, end) ==> PathCost(b, res.path) <= PathCost(b, w)
    ensures res.path == [] ==> forall w :: !IsWalk(b, w, start, end)
    ensures forall x, w :: x in res.visitedOrder && IsWalk(b, w, start, x) ==>
      x.gCost.Fin? && AllOnBoard(b, w) && W(b, start) + x.gCost.n <= PathCost(b, w)
  {
    VisitedShape(b, G, wt, hv, start, end, found, visitedOrder, s);
    VisitedOptimal(b, G, wt, hv, useHeuristic, start, end, found, visitedOrder, s);
    VisitedCosts(G, hv, useHeuristic, s, b, start, visitedOrder);
    if found {
      FoundFacts(b, G, wt, hv, useHeuristic, start, end, s);
      res := BestFirstFound(b, G, wt, hv, useHeuristic, start, end, visitedOrder, s);
    } else {
      Unreachable(b, G, wt, hv, start, end, s);
      res := Result(visitedOrder, []);
    }
  }

  /** `solveDijkstra` (without a heuristic) and `solveAStar` (with the Manhattan distance to the end)
      on cells that `resetPath` left without cost or parent. */
  method SolveBestFirst(grid: array2<Cell>, start: Cell, end: Cell, ghost b: Board, useHeuristic: bool)
    returns (res: Result)
    requires Pictures(grid, b) && OnBoard(b, start) && OnBoard(b, end)
    requires forall x :: x in CellSet(grid) ==> x.gCost == Inf && x.parent == null
    modifies CellSet(grid)`gCost, (if useHeuristic then CellSet(grid) else {})`hCost, CellSet(grid)`fCost
    modifies CellSet(grid)`parent
    ensures res.visitedOrder != [] && res.visitedOrder[0] == start
    ensures Distinct(res.visitedOrder) && AllOnBoard(b, res.visitedOrder)
    ensures res.path != [] <==> end in res.visitedOrder
    ensures res.path != [] ==> res.visitedOrder[|res.visitedOrder| - 1] == end
    ensures res.path != [] ==> IsParentChain(res.path, end) && IsWalk(b, res.path, start, end)
    ensures res.path != [] ==> end.gCost.Fin? && PathCost(b, res.path) == W(b, start) + end.gCost.n
    ensures res.path != [] ==> forall w :: IsWalk(b, w, start, end) ==> PathCost(b, res.path) <= PathCost(b, w)
    ensures res.path == [] ==> forall w :: !IsWalk(b, w, start, end)
    ensures forall x, w :: x in res.visitedOrder && IsWalk(b, w, start, x) ==>
      x.gCost.Fin? && AllOnBoard(b, w) && W(b, start) + x.gCost.n <= PathCost(b, w)
  {
    PicturesConsistent(grid, b);
    ghost var G := ChooseAdjacency(grid, b);
    AdjacencyHas(b, G, start);
    ghost var wt, hv := BoardCosts(b, G, useHeuristic, end);
    var found, visitedOrder;
    ghost var s;
    found, visitedOrder, s := BestFirstLoop(grid, b, G, wt, hv, useHeuristic, start, end);
    res := BestFirstResult(b, G, wt, hv, useHeuristic, start, end, found, visitedOrder, s);
  }

  /** `solveDijkstra`: every priority is the cost so far; the `hCost` fields are left alone. */
  method SolveDijkstra(grid: array2<Cell>, start: Cell, end: Cell, ghost b: Board) returns (res: Result)
    requires Pictures(grid, b) && OnBoard(b, start) && OnBoard(b, end)
    requires forall x :: x in CellSet(grid) ==> x.gCost == Inf && x.parent == null
    modifies CellSet(grid)`gCost, CellSet(grid)`fCost, CellSet(grid)`parent
    ensures res.visitedOrder != [] && res.visitedOrder[0] == start
    ensures Distinct(res.visitedOrder) && AllOnBoard(b, res.visitedOrder)
    ensures res.path != [] <==> end in res.visitedOrder
    ensures res.path != [] ==> res.visitedOrder[|res.visitedOrder| - 1] == end
    ensures res.path != [] ==> IsParentChain(res.path, end) && IsWalk(b, res.path, start, end)
    ensures res.path != [] ==> end.gCost.Fin? && PathCost(b, res.path) == W(b, start) + end.gCost.n
    ensures res.path != [] ==> forall w :: IsWalk(b, w, start, end) ==> PathCost(b, res.path) <= PathCost(b, w)
    ensures res.path == [] ==> forall w :: !IsWalk(b, w, start, end)
  {
    res := SolveBestFirst(grid, start, end, b, false);
  }

  /** `solveAStar`: priorities add the Manhattan distance to the end, which never overestimates,
      so the path found is still a cheapest one. */
  method SolveAStar(grid: array2<Cell>, start: Cell, end: Cell, ghost b: Board) returns (res: Result)
    requires Pictures(grid, b) && OnBoard(b, start) && OnBoard(b, end)
    requires forall x :: x in CellSet(grid) ==> x.gCost == Inf && x.parent == null
    modifies CellSet(grid)`gCost, CellSet(grid)`hCost, CellSet(grid)`fCost, CellSet(grid)`parent
    ensures res.visitedOrder != [] && res.visitedOrder[0] == start
    ensures Distinct(res.visitedOrder) && AllOnBoard(b, res.visitedOrder)
    ensures res.path != [] <==> end in res.visitedOrder
    ensures res.path != [] ==> res.visitedOrder[|res.visitedOrder| - 1] == end
    ensures res.path != [] ==> IsParentChain(res.path, end) && IsWalk(b, res.path, start, end)
    ensures res.path != [] ==> end.gCost.Fin? && PathCost(b, res.path) == W(b, start) + end.gCost.n
    ensures res.path != [] ==> forall w :: IsWalk(b, w, start, end) ==> PathCost(b, res.path) <= PathCost(b, w)
    ensures res.path == [] ==> forall w :: !IsWalk(b, w, start, end)
  {
    res := SolveBestFirst(grid, start, end, b, true);
  }
}
