/** `revealAdjacent`, the recursive sweep from a zero-adjacency cell.

    The source walks the neighbour list of (x, y); each neighbour that is
    not flagged, not yet revealed, and either has zero adjacency or holds no
    mine is revealed, and when its adjacency is zero the sweep recurses into
    it before the walk goes on. The cells are read as they stand at the
    moment the walk reaches them, so `Sweep` reads the current grid at each
    step. `RevealAdjacent` and `Sweep` recurse into each other; both
    terminate because every recursive call into a cell comes right after
    that hidden cell was revealed, so the number of hidden cells drops. */
module FloodFill {
  import opened Board
  import opened Neighborhood
  import opened Mines

  /** The flood-fill's admission test, apart from "not yet revealed". */
  predicate Admissible(c: Cell) {
    !c.isFlagged && (c.adjacentMines == 0 || !c.hasMine)
  }

  /** `revealAdjacent(x, y, grid)`. The cell (x, y) itself is revealed only if
      the sweep comes back to it from one of its neighbours. */
  function RevealAdjacent(g: Grid, w: nat, h: nat, x: nat, y: nat): (r: Grid)
    requires Shaped(g, w, h) && x < w && y < h
    ensures Shaped(r, w, h)
    ensures OnlyReveals(g, r) && NoFlagRevealed(g, r)
    ensures HiddenCount(r) <= HiddenCount(g)
    decreases HiddenCount(g), 1, 0
  {
    NeighborsMembers(w, h, x, y);
    Sweep(g, w, h, Neighbors(w, h, x, y))
  }

  /** The `for (let cell of neighborhood)` loop of `revealAdjacent`, over the
      positions `ns` still to visit. */
  function Sweep(g: Grid, w: nat, h: nat, ns: seq<Pos>): (r: Grid)
    requires Shaped(g, w, h) && AllInside(g, ns)
    ensures Shaped(r, w, h)
    ensures OnlyReveals(g, r) && NoFlagRevealed(g, r)
    ensures HiddenCount(r) <= HiddenCount(g)
    decreases HiddenCount(g), 0, |ns|
  {
    if ns == [] then g
    else
      var q := ns[0];
      assert Inside(g, q);
      var c := g[q.y][q.x];
      if !c.isRevealed && Admissible(c) then
        var g1 := Reveal(g, q.x, q.y);
        var g2 := if c.adjacentMines == 0 then RevealAdjacent(g1, w, h, q.x, q.y) else g1;
        OnlyRevealsTrans(g, g1, g2);
        var r := Sweep(g2, w, h, ns[1..]);
        OnlyRevealsTrans(g, g2, r);
        r
      else
        Sweep(g, w, h, ns[1..])
  }

  /** One step of the walk at a hidden admissible cell with zero adjacency:
      reveal it, sweep from it, then walk on. */
  lemma SweepZero(g: Grid, w: nat, h: nat, ns: seq<Pos>)
    requires Shaped(g, w, h) && AllInside(g, ns) && ns != []
    requires Inside(g, ns[0]) && !g[ns[0].y][ns[0].x].isRevealed
    requires Admissible(g[ns[0].y][ns[0].x]) && g[ns[0].y][ns[0].x].adjacentMines == 0
    ensures var g1 := Reveal(g, ns[0].x, ns[0].y);
            && ns[0].x < w && ns[0].y < h && Shaped(g1, w, h)
            && AllInside(RevealAdjacent(g1, w, h, ns[0].x, ns[0].y), ns[1..])
            && Sweep(g, w, h, ns) == Sweep(RevealAdjacent(g1, w, h, ns[0].x, ns[0].y), w, h, ns[1..])
  {
    TailInside(g, RevealAdjacent(Reveal(g, ns[0].x, ns[0].y), w, h, ns[0].x, ns[0].y), ns);
  }

  /** One step of the walk at a cell already revealed or not admissible: it is skipped. */
  lemma SweepSkip(g: Grid, w: nat, h: nat, ns: seq<Pos>)
    requires Shaped(g, w, h) && AllInside(g, ns) && ns != []
    requires Inside(g, ns[0]) && (g[ns[0].y][ns[0].x].isRevealed || !Admissible(g[ns[0].y][ns[0].x]))
    ensures AllInside(g, ns[1..]) && Sweep(g, w, h, ns) == Sweep(g, w, h, ns[1..])
  {
    TailInside(g, g, ns);
  }

  /** Every neighbour on the list that passes the admission test (flag,
      adjacency and mine as they stand in `g`) is revealed after the sweep,
      whether it was before or not. */
  lemma {:induction false} SweepCovers(g: Grid, w: nat, h: nat, ns: seq<Pos>)
    requires Shaped(g, w, h) && AllInside(g, ns)
    ensures Covers(g, Sweep(g, w, h, ns), ns)
    decreases |ns|
  {
    if ns != [] {
      var q := ns[0];
      assert Inside(g, q);
      var c := g[q.y][q.x];
      var r: Grid := Sweep(g, w, h, ns);
      if !c.isRevealed && Admissible(c) {
        var g1 := Reveal(g, q.x, q.y);
        var g2 := if c.adjacentMines == 0 then RevealAdjacent(g1, w, h, q.x, q.y) else g1;
        OnlyRevealsTrans(g, g1, g2);
        assert r == Sweep(g2, w, h, ns[1..]);
        assert g2[q.y][q.x].isRevealed;
        TailInside(g, g2, ns);
        SweepCovers(g2, w, h, ns[1..]);
        CoveredTail(g, g2, r, ns);
      } else {
        assert r == Sweep(g, w, h, ns[1..]);
        TailInside(g, g, ns);
        SweepCovers(g, w, h, ns[1..]);
        CoveredTail(g, g, r, ns);
      }
    }
  }

  /** Every listed position that passes the admission test in `g` is revealed in `r`. */
  predicate Covers(g: Grid, r: Grid, ns: seq<Pos>)
    requires AllInside(g, ns) && SameShape(g, r)
  {
    forall i :: 0 <= i < |ns| && Admissible(g[ns[i].y][ns[i].x]) ==> r[ns[i].y][ns[i].x].isRevealed
  }

  lemma TailInside(g: Grid, r: Grid, ns: seq<Pos>)
    requires AllInside(g, ns) && SameShape(g, r) && ns != []
    ensures AllInside(r, ns[1..])
  {
    forall i | 0 <= i < |ns[1..]|
      ensures Inside(r, ns[1..][i])
    {
      assert ns[1..][i] == ns[i + 1];
    }
  }

  /** A sweep covers its whole list once it covers the rest of it, read in
      the board `g2` that revealing only led to, and its head. */
  lemma CoveredTail(g: Grid, g2: Grid, r: Grid, ns: seq<Pos>)
    requires OnlyReveals(g, g2) && OnlyReveals(g2, r) && AllInside(g, ns) && ns != []
    requires AllInside(g2, ns[1..]) && Covers(g2, r, ns[1..])
    requires Admissible(g[ns[0].y][ns[0].x]) ==> r[ns[0].y][ns[0].x].isRevealed
    ensures OnlyReveals(g, r) && Covers(g, r, ns)
  {
    OnlyRevealsTrans(g, g2, r);
    forall i | 0 <= i < |ns| && Admissible(g[ns[i].y][ns[i].x])
      ensures r[ns[i].y][ns[i].x].isRevealed
    {
      if i > 0 {
        assert ns[i] == ns[1..][i - 1];
        assert Inside(g, ns[i]);
        assert Admissible(g2[ns[i].y][ns[i].x]);
      }
    }
  }

  /** After `revealAdjacent(x, y)`, every neighbour of (x, y) that is not
      flagged and either has zero adjacency or holds no mine is revealed. */
  lemma RevealAdjacentCovers(g: Grid, w: nat, h: nat, x: nat, y: nat, q: Pos)
    requires Shaped(g, w, h) && x < w && y < h
    requires IsNeighbor(w, h, x, y, q) && Admissible(g[q.y][q.x])
    ensures RevealAdjacent(g, w, h, x, y)[q.y][q.x].isRevealed
  {
    var ns := Neighbors(w, h, x, y);
    NeighborsMembers(w, h, x, y);
    SweepCovers(g, w, h, ns);
    var i :| 0 <= i < |ns| && ns[i] == q;
  }

  /** On a correctly counted board, a sweep started from a mine-free cell
      with zero adjacency never reveals a mine: every neighbour of such a
      cell is mine-free, and the sweep recurses only into such cells. */
  lemma {:induction false} RevealAdjacentSafe(g: Grid, w: nat, h: nat, x: nat, y: nat)
    requires Counted(g, w, h) && x < w && y < h
    requires !g[y][x].hasMine && g[y][x].adjacentMines == 0
    ensures NoMineRevealed(g, RevealAdjacent(g, w, h, x, y))
    decreases HiddenCount(g), 1, 0
  {
    NeighborsMineFree(g, w, h, x, y);
    SweepSafe(g, w, h, Neighbors(w, h, x, y));
  }

  /** No listed position holds a mine. */
  predicate MineFree(g: Grid, ns: seq<Pos>)
    requires AllInside(g, ns)
  {
    forall i :: 0 <= i < |ns| ==> !g[ns[i].y][ns[i].x].hasMine
  }

  /** On a correctly counted board, a mine-free cell with zero adjacency has
      no mined neighbour. */
  lemma NeighborsMineFree(g: Grid, w: nat, h: nat, x: nat, y: nat)
    requires Counted(g, w, h) && x < w && y < h
    requires !g[y][x].hasMine && g[y][x].adjacentMines == 0
    ensures AllInside(g, Neighbors(w, h, x, y)) && MineFree(g, Neighbors(w, h, x, y))
  {
    var ns := Neighbors(w, h, x, y);
    NeighborsMembers(w, h, x, y);
    var around := MinedAround(g, w, h, x, y);
    assert around == {};
    forall i | 0 <= i < |ns|
      ensures !g[ns[i].y][ns[i].x].hasMine
    {
      var q := ns[i];
      assert q in ns;
      assert g[q.y][q.x].hasMine ==> Pos(q.x, q.y) in around;
    }
  }

  /** A sweep over mine-free positions of a correctly counted board reveals no mine. */
  lemma {:induction false} SweepSafe(g: Grid, w: nat, h: nat, ns: seq<Pos>)
    requires Counted(g, w, h) && AllInside(g, ns) && MineFree(g, ns)
    ensures NoMineRevealed(g, Sweep(g, w, h, ns))
    decreases HiddenCount(g), 0, |ns|
  {
    if ns != [] {
      var q := ns[0];
      assert Inside(g, q);
      var c := g[q.y][q.x];
      if !c.isRevealed && Admissible(c) {
        var g1 := Reveal(g, q.x, q.y);
        CountedKept(g, g1, w, h);
        var g2 := if c.adjacentMines == 0 then RevealAdjacent(g1, w, h, q.x, q.y) else g1;
        if c.adjacentMines == 0 {
          RevealAdjacentSafe(g1, w, h, q.x, q.y);
          CountedKept(g1, g2, w, h);
        }
        OnlyRevealsTrans(g, g1, g2);
        SafeTail(g, g2, ns);
        SweepSafe(g2, w, h, ns[1..]);
        OnlyRevealsTrans(g, g2, Sweep(g2, w, h, ns[1..]));
      } else {
        SafeTail(g, g, ns);
        SweepSafe(g, w, h, ns[1..]);
      }
    }
  }

  /** Revealing cells keeps the rest of a mine-free list mine-free. */
  lemma SafeTail(g: Grid, r: Grid, ns: seq<Pos>)
    requires OnlyReveals(g, r) && AllInside(g, ns) && ns != [] && MineFree(g, ns)
    ensures AllInside(r, ns[1..]) && MineFree(r, ns[1..])
  {
    forall i | 0 <= i < |ns[1..]|
      ensures Inside(r, ns[1..][i]) && !r[ns[1..][i].y][ns[1..][i].x].hasMine
    {
      assert ns[1..][i] == ns[i + 1];
      assert Inside(g, ns[i + 1]);
    }
  }

  // ---------------------------------------------------------------------
  // What the sweep may reveal

  /** Cell `q` was hidden in `g0` and is revealed in `r`. */
  predicate NewlyRevealed(g0: Grid, r: Grid, q: Pos)
    requires SameShape(g0, r) && Inside(g0, q)
  {
    !g0[q.y][q.x].isRevealed && r[q.y][q.x].isRevealed
  }

  /** `q` is a zero-adjacency cell of the `w x h` board `g0` that the sweep
      has revealed by the time of `r`, and `p` is one of its neighbours, so
      the sweep from `q` may reveal `p`. */
  predicate Feeds(g0: Grid, r: Grid, w: nat, h: nat, q: Pos, p: Pos) {
    && Shaped(g0, w, h) && SameShape(g0, r) && q.x < w && q.y < h
    && NewlyRevealed(g0, r, q) && g0[q.y][q.x].adjacentMines == 0
    && IsNeighbor(w, h, q.x, q.y, p)
  }

  /** Every cell revealed between `g0` and `r` passes the admission test in
      `g0` and is a neighbour of (x, y) or of a zero-adjacency cell revealed
      between `g0` and `r`. */
  ghost predicate Supported(g0: Grid, r: Grid, w: nat, h: nat, x: nat, y: nat) {
    && Shaped(g0, w, h) && SameShape(g0, r)
    && forall j, i :: 0 <= j < h && 0 <= i < w && !g0[j][i].isRevealed && r[j][i].isRevealed ==>
         && Admissible(g0[j][i])
         && (IsNeighbor(w, h, x, y, Pos(i, j)) || exists q :: Feeds(g0, r, w, h, q, Pos(i, j)))
  }

  /** A sweep may start from (x, y): it is the clicked cell (rx, ry) or a
      zero-adjacency cell revealed since `g0`. */
  ghost predicate Center(g0: Grid, g: Grid, w: nat, h: nat, rx: nat, ry: nat, x: nat, y: nat) {
    && Shaped(g0, w, h) && SameShape(g0, g) && x < w && y < h
    && ((x == rx && y == ry) || (NewlyRevealed(g0, g, Pos(x, y)) && g0[y][x].adjacentMines == 0))
  }

  /** `revealAdjacent(x, y)` reveals only cells that pass the admission test
      and are neighbours of (x, y) or of a zero-adjacency cell it revealed. */
  lemma RevealAdjacentBounded(g: Grid, w: nat, h: nat, x: nat, y: nat)
    requires Shaped(g, w, h) && x < w && y < h
    ensures Supported(g, RevealAdjacent(g, w, h, x, y), w, h, x, y)
  {
    RevealAdjacentSupported(g, g, w, h, x, y, x, y);
  }

  lemma {:induction false} RevealAdjacentSupported(g0: Grid, g: Grid, w: nat, h: nat, rx: nat, ry: nat, x: nat, y: nat)
    requires Shaped(g, w, h) && OnlyReveals(g0, g) && rx < w && ry < h
    requires Supported(g0, g, w, h, rx, ry) && Center(g0, g, w, h, rx, ry, x, y)
    ensures Supported(g0, RevealAdjacent(g, w, h, x, y), w, h, rx, ry)
    decreases HiddenCount(g), 1, 0
  {
    NeighborsMembers(w, h, x, y);
    SweepSupported(g0, g, w, h, rx, ry, x, y, Neighbors(w, h, x, y));
  }

  lemma {:induction false} SweepSupported(g0: Grid, g: Grid, w: nat, h: nat, rx: nat, ry: nat, x: nat, y: nat, ns: seq<Pos>)
    requires Shaped(g, w, h) && OnlyReveals(g0, g) && AllInside(g, ns) && rx < w && ry < h
    requires forall i :: 0 <= i < |ns| ==> IsNeighbor(w, h, x, y, ns[i])
    requires Supported(g0, g, w, h, rx, ry) && Center(g0, g, w, h, rx, ry, x, y)
    ensures Supported(g0, Sweep(g, w, h, ns), w, h, rx, ry)
    decreases HiddenCount(g), 0, |ns|
  {
    if ns != [] {
      var q := ns[0];
      assert Inside(g, q) && IsNeighbor(w, h, x, y, q);
      var c := g[q.y][q.x];
      TailNeighbors(w, h, x, y, ns);
      if !c.isRevealed && Admissible(c) {
        var g1 := Reveal(g, q.x, q.y);
        RevealSupported(g0, g, w, h, rx, ry, x, y, q);
        var g2 := if c.adjacentMines == 0 then RevealAdjacent(g1, w, h, q.x, q.y) else g1;
        if c.adjacentMines == 0 {
          RevealAdjacentSupported(g0, g1, w, h, rx, ry, q.x, q.y);
          OnlyRevealsTrans(g0, g1, g2);
        }
        TailInside(g, g2, ns);
        SweepSupported(g0, g2, w, h, rx, ry, x, y, ns[1..]);
      } else {
        TailInside(g, g, ns);
        SweepSupported(g0, g, w, h, rx, ry, x, y, ns[1..]);
      }
    }
  }

  lemma TailNeighbors(w: nat, h: nat, x: nat, y: nat, ns: seq<Pos>)
    requires ns != [] && forall i :: 0 <= i < |ns| ==> IsNeighbor(w, h, x, y, ns[i])
    ensures forall i :: 0 <= i < |ns[1..]| ==> IsNeighbor(w, h, x, y, ns[1..][i])
  {
    forall i | 0 <= i < |ns[1..]|
      ensures IsNeighbor(w, h, x, y, ns[1..][i])
    {
      assert ns[1..][i] == ns[i + 1];
    }
  }

  /** Revealing an admissible neighbour `q` of a sweep's centre keeps the
      revealed cells supported, keeps the centre a centre, and makes `q` a
      centre when its adjacency is zero. */
  lemma RevealSupported(g0: Grid, g: Grid, w: nat, h: nat, rx: nat, ry: nat, x: nat, y: nat, q: Pos)
    requires Shaped(g, w, h) && OnlyReveals(g0, g) && rx < w && ry < h
    requires Supported(g0, g, w, h, rx, ry) && Center(g0, g, w, h, rx, ry, x, y)
    requires IsNeighbor(w, h, x, y, q) && !g[q.y][q.x].isRevealed && Admissible(g[q.y][q.x])
    ensures var g1 := Reveal(g, q.x, q.y);
            && OnlyReveals(g0, g1) && Supported(g0, g1, w, h, rx, ry) && Center(g0, g1, w, h, rx, ry, x, y)
            && (g[q.y][q.x].adjacentMines == 0 ==> Center(g0, g1, w, h, rx, ry, q.x, q.y))
  {
    var g1 := Reveal(g, q.x, q.y);
    OnlyRevealsTrans(g0, g, g1);
    forall j, i | 0 <= j < h && 0 <= i < w && !g0[j][i].isRevealed && g1[j][i].isRevealed
      ensures Admissible(g0[j][i])
      ensures IsNeighbor(w, h, rx, ry, Pos(i, j)) || exists q' :: Feeds(g0, g1, w, h, q', Pos(i, j))
    {
      if j == q.y && i == q.x {
        assert Admissible(g0[j][i]);
        if x != rx || y != ry {
          assert Feeds(g0, g1, w, h, Pos(x, y), Pos(i, j));
        }
      } else {
        assert g[j][i].isRevealed;
        if !IsNeighbor(w, h, rx, ry, Pos(i, j)) {
          var q' :| Feeds(g0, g, w, h, q', Pos(i, j));
          assert Feeds(g0, g1, w, h, q', Pos(i, j));
        }
      }
    }
  }

  // ---------------------------------------------------------------------
  // How far the sweep spreads

  /** Every neighbour of `c` that passes the admission test in `g0` is revealed in `r`. */
  ghost predicate SpreadFrom(g0: Grid, r: Grid, w: nat, h: nat, c: Pos)
    requires Shaped(g0, w, h) && SameShape(g0, r)
  {
    forall p :: IsNeighbor(w, h, c.x, c.y, p) && Admissible(g0[p.y][p.x]) ==> r[p.y][p.x].isRevealed
  }

  /** Every zero-adjacency cell revealed between `g0` and `r`, except the
      pending centres `e` whose sweeps have not finished, has spread to its
      neighbours. */
  ghost predicate Closed(g0: Grid, r: Grid, w: nat, h: nat, e: set<Pos>) {
    && Shaped(g0, w, h) && SameShape(g0, r)
    && forall j, i :: 0 <= j < h && 0 <= i < w && !g0[j][i].isRevealed && r[j][i].isRevealed
                      && g0[j][i].adjacentMines == 0 && Pos(i, j) !in e ==>
         SpreadFrom(g0, r, w, h, Pos(i, j))
  }

  /** Every zero-adjacency cell that `revealAdjacent(x, y)` reveals has, by
      the time it returns, every neighbour that passes the admission test
      revealed: the sweep spreads through each zero-adjacency cell it reaches. */
  lemma RevealAdjacentSpreads(g: Grid, w: nat, h: nat, x: nat, y: nat)
    requires Shaped(g, w, h) && x < w && y < h
    ensures var r := RevealAdjacent(g, w, h, x, y);
            forall j, i :: 0 <= j < h && 0 <= i < w && !g[j][i].isRevealed && r[j][i].isRevealed
                           && g[j][i].adjacentMines == 0 ==>
              forall p :: IsNeighbor(w, h, i, j, p) && Admissible(g[p.y][p.x]) ==> r[p.y][p.x].isRevealed
  {
    RevealAdjacentClosed(g, g, w, h, x, y, {});
    var r: Grid := RevealAdjacent(g, w, h, x, y);
    forall j, i | 0 <= j < h && 0 <= i < w && !g[j][i].isRevealed && r[j][i].isRevealed && g[j][i].adjacentMines == 0
      ensures forall p :: IsNeighbor(w, h, i, j, p) && Admissible(g[p.y][p.x]) ==> r[p.y][p.x].isRevealed
    {
      assert SpreadFrom(g, r, w, h, Pos(i, j));
    }
  }

  lemma {:induction false} RevealAdjacentClosed(g0: Grid, g: Grid, w: nat, h: nat, x: nat, y: nat, e: set<Pos>)
    requires Shaped(g, w, h) && OnlyReveals(g0, g) && x < w && y < h
    requires Closed(g0, g, w, h, e)
    ensures Closed(g0, RevealAdjacent(g, w, h, x, y), w, h, e)
    decreases HiddenCount(g), 1, 0
  {
    NeighborsMembers(w, h, x, y);
    SweepClosed(g0, g, w, h, Neighbors(w, h, x, y), e);
  }

  lemma {:induction false} SweepClosed(g0: Grid, g: Grid, w: nat, h: nat, ns: seq<Pos>, e: set<Pos>)
    requires Shaped(g, w, h) && OnlyReveals(g0, g) && AllInside(g, ns)
    requires Closed(g0, g, w, h, e)
    ensures Closed(g0, Sweep(g, w, h, ns), w, h, e)
    decreases HiddenCount(g), 0, |ns|
  {
    if ns != [] {
      var q := ns[0];
      assert Inside(g, q);
      var c := g[q.y][q.x];
      if !c.isRevealed && Admissible(c) {
        var g1 := Reveal(g, q.x, q.y);
        RevealClosed(g0, g, w, h, q, e);
        var g2 := if c.adjacentMines == 0 then RevealAdjacent(g1, w, h, q.x, q.y) else g1;
        if c.adjacentMines == 0 {
          RevealAdjacentClosed(g0, g1, w, h, q.x, q.y, e + {q});
          CenterDone(g0, g1, w, h, q, e);
        }
        OnlyRevealsTrans(g0, g1, g2);
        TailInside(g, g2, ns);
        SweepClosed(g0, g2, w, h, ns[1..], e);
      } else {
        TailInside(g, g, ns);
        SweepClosed(g0, g, w, h, ns[1..], e);
      }
    }
  }

  /** Revealing `q` leaves `q` pending; a cell with nonzero adjacency owes nothing. */
  lemma RevealClosed(g0: Grid, g: Grid, w: nat, h: nat, q: Pos, e: set<Pos>)
    requires Shaped(g, w, h) && OnlyReveals(g0, g) && q.x < w && q.y < h
    requires Closed(g0, g, w, h, e)
    ensures var g1 := Reveal(g, q.x, q.y);
            && OnlyReveals(g0, g1) && Closed(g0, g1, w, h, e + {q})
            && (g[q.y][q.x].adjacentMines != 0 ==> Closed(g0, g1, w, h, e))
  {
    var g1 := Reveal(g, q.x, q.y);
    OnlyRevealsTrans(g0, g, g1);
    forall j, i | 0 <= j < h && 0 <= i < w && !g0[j][i].isRevealed && g1[j][i].isRevealed
                  && g0[j][i].adjacentMines == 0 && Pos(i, j) !in e && Pos(i, j) != q
      ensures SpreadFrom(g0, g1, w, h, Pos(i, j))
    {
      assert g[j][i].isRevealed;
      assert SpreadFrom(g0, g, w, h, Pos(i, j));
    }
  }

  /** Once the sweep from `q` has returned, `q` is no longer pending. */
  lemma CenterDone(g0: Grid, g1: Grid, w: nat, h: nat, q: Pos, e: set<Pos>)
    requires Shaped(g1, w, h) && OnlyReveals(g0, g1) && q.x < w && q.y < h
    requires Closed(g0, RevealAdjacent(g1, w, h, q.x, q.y), w, h, e + {q})
    ensures Closed(g0, RevealAdjacent(g1, w, h, q.x, q.y), w, h, e)
  {
    SweepFromSpreads(g0, g1, w, h, q);
  }

  /** The sweep from `q` reveals every neighbour of `q` that passes the
      admission test, which reads the same in `g0` as in `g1`. */
  lemma SweepFromSpreads(g0: Grid, g1: Grid, w: nat, h: nat, q: Pos)
    requires Shaped(g1, w, h) && OnlyReveals(g0, g1) && q.x < w && q.y < h
    ensures SpreadFrom(g0, RevealAdjacent(g1, w, h, q.x, q.y), w, h, q)
  {
    var g2: Grid := RevealAdjacent(g1, w, h, q.x, q.y);
    forall p | IsNeighbor(w, h, q.x, q.y, p) && Admissible(g0[p.y][p.x])
      ensures g2[p.y][p.x].isRevealed
    {
      assert Admissible(g1[p.y][p.x]);
      RevealAdjacentCovers(g1, w, h, q.x, q.y, p);
    }
  }
}
