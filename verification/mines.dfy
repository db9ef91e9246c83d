/** Board set-up: planting mines from a supplied sequence of random picks
    (`initMines`), filling in the neighbouring-mine counts
    (`getAdjacentMineCount`) and the two together after `initGrid`
    (`initBoardData`). */
module Mines {
  import opened Board
  import opened Neighborhood

  // ---------------------------------------------------------------------
  // Mine placement

  /** `r` has the shape of `g` and differs from it only in cells that went
      from mine-free to mined. */
  predicate OnlyPlants(g: Grid, r: Grid) {
    && SameShape(g, r)
    && forall y, x :: 0 <= y < |g| && 0 <= x < |g[y]| ==>
         && r[y][x] == g[y][x].(hasMine := r[y][x].hasMine)
         && (g[y][x].hasMine ==> r[y][x].hasMine)
  }

  /** `initMines`: draws picks in order while fewer than `mines` mines have
      been planted, planting a mine at each pick whose cell has none yet.
      `Math.random` is replaced by `picks`, the coordinates the source would
      draw; `used` is how many of them were drawn. When the picks run out
      first (`planted < mines`), the source would still be drawing. */
  method InitMines(g: Grid, w: nat, h: nat, mines: nat, picks: seq<Pos>)
    returns (r: Grid, planted: nat, used: nat)
    requires Shaped(g, w, h)
    requires forall i :: 0 <= i < |picks| ==> picks[i].x < w && picks[i].y < h
    ensures Shaped(r, w, h) && OnlyPlants(g, r)
    ensures MineCount(r) == MineCount(g) + planted
    ensures used <= |picks|
    ensures planted == mines || (planted < mines && used == |picks|)
    ensures forall i :: 0 <= i < used ==> r[picks[i].y][picks[i].x].hasMine
    ensures forall y, x :: 0 <= y < h && 0 <= x < w && r[y][x].hasMine && !g[y][x].hasMine ==>
              Pos(x, y) in picks[..used]
  {
    r, planted, used := g, 0, 0;
    while planted < mines && used < |picks|
      invariant planted <= mines && used <= |picks|
      invariant Shaped(r, w, h) && OnlyPlants(g, r)
      invariant MineCount(r) == MineCount(g) + planted
      invariant forall i :: 0 <= i < used ==> r[picks[i].y][picks[i].x].hasMine
      invariant forall y, x :: 0 <= y < h && 0 <= x < w && r[y][x].hasMine && !g[y][x].hasMine ==>
                  Pos(x, y) in picks[..used]
    {
      var p := picks[used];
      PlantStep(g, r, w, h, picks, used);
      if !r[p.y][p.x].hasMine {
        r := r[p.y := r[p.y][p.x := r[p.y][p.x].(hasMine := true)]];
        planted := planted + 1;
      }
      used := used + 1;
    }
  }

  /** One round of the `initMines` loop keeps the loop's invariants. */
  lemma PlantStep(g: Grid, r: Grid, w: nat, h: nat, picks: seq<Pos>, used: nat)
    requires Shaped(r, w, h) && OnlyPlants(g, r) && used < |picks|
    requires forall i :: 0 <= i < |picks| ==> picks[i].x < w && picks[i].y < h
    requires forall i :: 0 <= i < used ==> r[picks[i].y][picks[i].x].hasMine
    requires forall y, x :: 0 <= y < h && 0 <= x < w && r[y][x].hasMine && !g[y][x].hasMine ==>
               Pos(x, y) in picks[..used]
    ensures var p := picks[used];
            var r' := if r[p.y][p.x].hasMine then r else r[p.y := r[p.y][p.x := r[p.y][p.x].(hasMine := true)]];
            && Shaped(r', w, h) && OnlyPlants(g, r')
            && MineCount(r') == MineCount(r) + (if r[p.y][p.x].hasMine then 0 else 1)
            && (forall i :: 0 <= i < used + 1 ==> r'[picks[i].y][picks[i].x].hasMine)
            && (forall y, x :: 0 <= y < h && 0 <= x < w && r'[y][x].hasMine && !g[y][x].hasMine ==>
                  Pos(x, y) in picks[..used + 1])
  {
    var p := picks[used];
    assert picks[..used + 1] == picks[..used] + [p];
    if !r[p.y][p.x].hasMine {
      GridCountUpdate(r, p.x, p.y, r[p.y][p.x].(hasMine := true), IsMine);
    }
  }

  // ---------------------------------------------------------------------
  // Adjacency counts

  /** The mined neighbours of (x, y), as a set of positions. */
  ghost function MinedAround(g: Grid, w: nat, h: nat, x: nat, y: nat): set<Pos>
    requires Shaped(g, w, h)
  {
    set j: nat, i: nat | j < h && i < w && IsNeighbor(w, h, x, y, Pos(i, j)) && g[j][i].hasMine :: Pos(i, j)
  }

  /** Every mine-free cell's `adjacentMines` is the number of its mined neighbours. */
  ghost predicate Counted(g: Grid, w: nat, h: nat) {
    && Shaped(g, w, h)
    && forall y, x :: 0 <= y < h && 0 <= x < w && !g[y][x].hasMine ==>
         g[y][x].adjacentMines == |MinedAround(g, w, h, x, y)|
  }

  /** How many of the positions `ns` hold a mine, counted along the list. */
  function MinedAmong(g: Grid, ns: seq<Pos>): nat
    requires AllInside(g, ns)
  {
    if ns == [] then 0
    else
      var q := ns[|ns| - 1];
      assert Inside(g, q);
      MinedAmong(g, ns[..|ns| - 1]) + (if g[q.y][q.x].hasMine then 1 else 0)
  }

  ghost function MinedIn(g: Grid, ns: seq<Pos>): set<Pos> {
    set q | q in ns && Inside(g, q) && g[q.y][q.x].hasMine
  }

  /** Counting mines along a list without repeats gives the size of the set of mined positions on it. */
  lemma {:induction false} MinedAmongIsSetSize(g: Grid, ns: seq<Pos>)
    requires AllInside(g, ns)
    requires Distinct(ns)
    ensures MinedAmong(g, ns) == |MinedIn(g, ns)|
  {
    if ns != [] {
      var init, last := ns[..|ns| - 1], ns[|ns| - 1];
      assert Distinct(init);
      MinedAmongIsSetSize(g, init);
      assert last !in init;
      if g[last.y][last.x].hasMine {
        assert MinedIn(g, ns) == MinedIn(g, init) + {last};
      } else {
        assert MinedIn(g, ns) == MinedIn(g, init);
      }
    }
  }

  /** The mined cells on `getNeighbors`' list are the mined neighbours. */
  lemma MinedInNeighbors(g: Grid, w: nat, h: nat, x: nat, y: nat)
    requires Shaped(g, w, h) && x < w && y < h
    ensures MinedIn(g, Neighbors(w, h, x, y)) == MinedAround(g, w, h, x, y)
  {
    var ns := Neighbors(w, h, x, y);
    NeighborsMembers(w, h, x, y);
    forall q | q in MinedIn(g, ns)
      ensures q in MinedAround(g, w, h, x, y)
    {
      assert q == Pos(q.x, q.y);
    }
  }

  /** Only where mines are matters to `MinedAround`. */
  lemma MinedAroundSameMines(g: Grid, r: Grid, w: nat, h: nat, x: nat, y: nat)
    requires Shaped(g, w, h) && Shaped(r, w, h)
    requires forall j, i :: 0 <= j < h && 0 <= i < w ==> r[j][i].hasMine == g[j][i].hasMine
    ensures MinedAround(r, w, h, x, y) == MinedAround(g, w, h, x, y)
  {
  }

  /** Counts stay correct while mines and counts stay where they are. */
  lemma CountedKept(g: Grid, r: Grid, w: nat, h: nat)
    requires Counted(g, w, h) && OnlyReveals(g, r)
    ensures Counted(r, w, h)
  {
    forall y, x | 0 <= y < h && 0 <= x < w
      ensures MinedAround(r, w, h, x, y) == MinedAround(g, w, h, x, y)
    {
      MinedAroundSameMines(g, r, w, h, x, y);
    }
  }

  /** The loop over the neighbourhood in `getAdjacentMineCount`: walks a list of cells,
      none listed twice, and counts those that hold a mine. */
  method CountMined(g: Grid, ns: seq<Pos>) returns (count: nat)
    requires AllInside(g, ns) && Distinct(ns)
    ensures count == |MinedIn(g, ns)|
  {
    count := 0;
    var k := 0;
    while k < |ns|
      invariant k <= |ns|
      invariant count == MinedAmong(g, ns[..k])
    {
      var q := ns[k];
      assert ns[..k + 1][..k] == ns[..k];
      if g[q.y][q.x].hasMine {
        count := count + 1;
      }
      k := k + 1;
    }
    assert ns[..k] == ns;
    MinedAmongIsSetSize(g, ns);
  }

  /** Lines 86-92 of `getAdjacentMineCount`: the number of mined cells on
      the neighbour list of (x, y), which is its number of mined neighbours. */
  method CountMinedNeighbors(g: Grid, w: nat, h: nat, x: nat, y: nat) returns (count: nat)
    requires Shaped(g, w, h) && x < w && y < h
    ensures count == |MinedAround(g, w, h, x, y)|
  {
    NeighborsMembers(w, h, x, y);
    NeighborsDistinct(w, h, x, y);
    count := CountMined(g, Neighbors(w, h, x, y));
    MinedInNeighbors(g, w, h, x, y);
  }

  /** `getAdjacentMineCount`: stores in every mine-free cell the number of
      its mined neighbours, leaving mined cells and every other field alone. */
  method GetAdjacentMineCount(g: Grid, w: nat, h: nat) returns (r: Grid)
    requires Shaped(g, w, h)
    ensures Counted(r, w, h)
    ensures forall y, x :: 0 <= y < h && 0 <= x < w ==>
              r[y][x] == g[y][x].(adjacentMines := r[y][x].adjacentMines)
    ensures forall y, x :: 0 <= y < h && 0 <= x < w && g[y][x].hasMine ==>
              r[y][x].adjacentMines == g[y][x].adjacentMines
  {
    r := g;
    var y := 0;
    while y < h
      invariant y <= h && Shaped(r, w, h)
      invariant forall j, i :: 0 <= j < h && 0 <= i < w ==>
                  r[j][i] == g[j][i].(adjacentMines := r[j][i].adjacentMines)
      invariant forall j, i :: 0 <= j < h && 0 <= i < w ==>
                  r[j][i].adjacentMines
                  == if j < y && !g[j][i].hasMine then |MinedAround(g, w, h, i, j)|
                     else g[j][i].adjacentMines
    {
      var x := 0;
      while x < w
        invariant x <= w && Shaped(r, w, h)
        invariant forall j, i :: 0 <= j < h && 0 <= i < w ==>
                    r[j][i] == g[j][i].(adjacentMines := r[j][i].adjacentMines)
        invariant forall j, i :: 0 <= j < h && 0 <= i < w ==>
                    r[j][i].adjacentMines
                    == if (j < y || (j == y && i < x)) && !g[j][i].hasMine then |MinedAround(g, w, h, i, j)|
                       else g[j][i].adjacentMines
      {
        if !r[y][x].hasMine {
          var count := CountMinedNeighbors(r, w, h, x, y);
          MinedAroundSameMines(g, r, w, h, x, y);
          r := r[y := r[y][x := r[y][x].(adjacentMines := count)]];
        }
        x := x + 1;
      }
      y := y + 1;
    }
    forall j, i | 0 <= j < h && 0 <= i < w
      ensures MinedAround(r, w, h, i, j) == MinedAround(g, w, h, i, j)
    {
      MinedAroundSameMines(g, r, w, h, i, j);
    }
  }

  // ---------------------------------------------------------------------
  // The whole set-up

  /** `initBoardData`: an empty grid, mines planted from `picks`, counts
      filled in. `planted` is how many mines went down; it falls short of
      `mines` only when the picks ran out, every one of them drawn. */
  method InitBoardData(h: nat, w: nat, mines: nat, picks: seq<Pos>) returns (g: Grid, planted: nat, used: nat)
    requires forall i :: 0 <= i < |picks| ==> picks[i].x < w && picks[i].y < h
    ensures WellFormed(g, w, h) && Counted(g, w, h)
    ensures MineCount(g) == planted && planted <= mines
    ensures used <= |picks| && (planted == mines || used == |picks|)
    ensures forall y, x :: 0 <= y < h && 0 <= x < w ==> (g[y][x].hasMine <==> Pos(x, y) in picks[..used])
    ensures forall y, x :: 0 <= y < h && 0 <= x < w ==>
              && !g[y][x].isRevealed && !g[y][x].isFlagged
              && (g[y][x].hasMine ==> g[y][x].adjacentMines == 0)
    ensures HiddenCount(g) == h * w
  {
    var g0 := InitGrid(h, w);
    InitGridCounts(h, w);
    var g1;
    g1, planted, used := InitMines(g0, w, h, mines, picks);
    g := GetAdjacentMineCount(g1, w, h);
    GridCountSame(g1, g, IsMine);
    GridCountSame(g0, g, IsHidden);
  }
}
