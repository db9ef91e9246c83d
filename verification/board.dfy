/** The cell records and the grid of the Minesweeper board, the counts taken
    over a grid, and the two reveal operations that touch cells directly
    (one cell, or the whole board). */
module Board {

  /** A grid position: column `x`, row `y`. */
  datatype Pos = Pos(x: nat, y: nat)

  /** One cell of the board as stored in `boardData[y][x]`. */
  datatype Cell = Cell(
    x: nat,
    y: nat,
    hasMine: bool,
    isRevealed: bool,
    isFlagged: bool,
    adjacentMines: nat)

  /** The board's cells, row by row: `g[y][x]`. */
  type Grid = seq<seq<Cell>>

  /** `g` has `h` rows of `w` cells each. */
  predicate Shaped(g: Grid, w: nat, h: nat) {
    |g| == h && forall y :: 0 <= y < h ==> |g[y]| == w
  }

  /** `g` is shaped and every cell carries its own coordinates. */
  predicate WellFormed(g: Grid, w: nat, h: nat) {
    && Shaped(g, w, h)
    && forall y, x :: 0 <= y < h && 0 <= x < w ==> g[y][x].x == x && g[y][x].y == y
  }

  /** Position `q` names a cell of `g`. */
  predicate Inside(g: Grid, q: Pos) {
    q.y < |g| && q.x < |g[q.y]|
  }

  /** Every position on the list names a cell of `g`. */
  predicate AllInside(g: Grid, ns: seq<Pos>) {
    forall i :: 0 <= i < |ns| ==> Inside(g, ns[i])
  }

  predicate SameShape(g: Grid, r: Grid) {
    |r| == |g| && forall y :: 0 <= y < |g| ==> |r[y]| == |g[y]|
  }

  /** A cell as `initGrid` creates it, apart from its coordinates. */
  predicate Blank(c: Cell) {
    !c.hasMine && !c.isRevealed && !c.isFlagged && c.adjacentMines == 0
  }

  predicate IsHidden(c: Cell) { !c.isRevealed }

  predicate IsMine(c: Cell) { c.hasMine }

  predicate AllRevealed(g: Grid) {
    forall y, x :: 0 <= y < |g| && 0 <= x < |g[y]| ==> g[y][x].isRevealed
  }

  /** `r` has the shape of `g` and differs from it only in cells that went
      from hidden to revealed: no other field of any cell changes. */
  predicate OnlyReveals(g: Grid, r: Grid) {
    && SameShape(g, r)
    && forall y, x :: 0 <= y < |g| && 0 <= x < |g[y]| ==>
         && r[y][x] == g[y][x].(isRevealed := r[y][x].isRevealed)
         && (g[y][x].isRevealed ==> r[y][x].isRevealed)
  }

  /** No hidden flagged cell of `g` is revealed in `r`. */
  predicate NoFlagRevealed(g: Grid, r: Grid)
    requires SameShape(g, r)
  {
    forall y, x :: 0 <= y < |g| && 0 <= x < |g[y]| && g[y][x].isFlagged && !g[y][x].isRevealed ==>
      !r[y][x].isRevealed
  }

  /** No hidden mined cell of `g` is revealed in `r`. */
  predicate NoMineRevealed(g: Grid, r: Grid)
    requires SameShape(g, r)
  {
    forall y, x :: 0 <= y < |g| && 0 <= x < |g[y]| && g[y][x].hasMine && !g[y][x].isRevealed ==>
      !r[y][x].isRevealed
  }

  lemma OnlyRevealsTrans(a: Grid, b: Grid, c: Grid)
    requires OnlyReveals(a, b) && OnlyReveals(b, c)
    ensures OnlyReveals(a, c)
    ensures NoFlagRevealed(a, b) && NoFlagRevealed(b, c) ==> NoFlagRevealed(a, c)
    ensures NoMineRevealed(a, b) && NoMineRevealed(b, c) ==> NoMineRevealed(a, c)
  {
  }

  /** The empty `height x width` grid of `initGrid`. */
  function InitGrid(h: nat, w: nat): (g: Grid)
    ensures WellFormed(g, w, h)
    ensures forall y, x :: 0 <= y < h && 0 <= x < w ==> Blank(g[y][x])
  {
    seq(h, y requires 0 <= y < h => seq(w, x requires 0 <= x < w => Cell(x, y, false, false, false, 0)))
  }

  // ---------------------------------------------------------------------
  // Counting cells

  /** The number of cells of `row` that satisfy `p`. */
  function RowCount(row: seq<Cell>, p: Cell -> bool): (n: nat)
    ensures n <= |row|
  {
    if row == [] then 0 else (if p(row[0]) then 1 else 0) + RowCount(row[1..], p)
  }

  /** The number of cells of `g` that satisfy `p`. */
  function GridCount(g: Grid, p: Cell -> bool): nat {
    if g == [] then 0 else RowCount(g[0], p) + GridCount(g[1..], p)
  }

  /** `getHiddenCount`: the number of cells not yet revealed. */
  function HiddenCount(g: Grid): nat {
    GridCount(g, IsHidden)
  }

  /** The number of mined cells. */
  function MineCount(g: Grid): nat {
    GridCount(g, IsMine)
  }

  lemma {:induction false} RowCountUpdate(row: seq<Cell>, x: nat, c: Cell, p: Cell -> bool)
    requires x < |row|
    ensures RowCount(row[x := c], p)
            == RowCount(row, p) - (if p(row[x]) then 1 else 0) + (if p(c) then 1 else 0)
  {
    if x == 0 {
      assert row[x := c][1..] == row[1..];
    } else {
      assert row[x := c][1..] == row[1..][x - 1 := c];
      RowCountUpdate(row[1..], x - 1, c, p);
    }
  }

  /** Replacing one cell changes a count by at most that cell's contribution. */
  lemma {:induction false} GridCountUpdate(g: Grid, x: nat, y: nat, c: Cell, p: Cell -> bool)
    requires y < |g| && x < |g[y]|
    ensures GridCount(g[y := g[y][x := c]], p)
            == GridCount(g, p) - (if p(g[y][x]) then 1 else 0) + (if p(c) then 1 else 0)
  {
    if y == 0 {
      assert g[y := g[y][x := c]][1..] == g[1..];
      RowCountUpdate(g[0], x, c, p);
    } else {
      assert g[y := g[y][x := c]][1..] == g[1..][y - 1 := g[y][x := c]];
      GridCountUpdate(g[1..], x, y - 1, c, p);
    }
  }

  lemma {:induction false} RowCountZero(row: seq<Cell>, p: Cell -> bool)
    ensures RowCount(row, p) == 0 <==> forall x :: 0 <= x < |row| ==> !p(row[x])
  {
    if row != [] {
      RowCountZero(row[1..], p);
      assert forall x :: 1 <= x < |row| ==> row[x] == row[1..][x - 1];
    }
  }

  /** A count is zero exactly when no cell satisfies the predicate. */
  lemma {:induction false} GridCountZero(g: Grid, p: Cell -> bool)
    ensures GridCount(g, p) == 0 <==> forall y, x :: 0 <= y < |g| && 0 <= x < |g[y]| ==> !p(g[y][x])
  {
    if g != [] {
      RowCountZero(g[0], p);
      GridCountZero(g[1..], p);
      assert forall y :: 1 <= y < |g| ==> g[y] == g[1..][y - 1];
    }
  }

  lemma {:induction false} RowCountCompare(row: seq<Cell>, p: Cell -> bool, q: Cell -> bool)
    requires forall x :: 0 <= x < |row| && p(row[x]) ==> q(row[x])
    ensures RowCount(row, p) <= RowCount(row, q)
    ensures RowCount(row, p) == RowCount(row, q) <==> forall x :: 0 <= x < |row| && q(row[x]) ==> p(row[x])
  {
    if row != [] {
      assert forall x :: 1 <= x < |row| ==> row[x] == row[1..][x - 1];
      RowCountCompare(row[1..], p, q);
    }
  }

  /** When `p` implies `q` on every cell, `p` counts no more cells than `q`,
      and the two counts agree exactly when `q` also implies `p`. */
  lemma {:induction false} GridCountCompare(g: Grid, p: Cell -> bool, q: Cell -> bool)
    requires forall y, x :: 0 <= y < |g| && 0 <= x < |g[y]| && p(g[y][x]) ==> q(g[y][x])
    ensures GridCount(g, p) <= GridCount(g, q)
    ensures GridCount(g, p) == GridCount(g, q)
            <==> forall y, x :: 0 <= y < |g| && 0 <= x < |g[y]| && q(g[y][x]) ==> p(g[y][x])
  {
    if g != [] {
      assert forall y :: 1 <= y < |g| ==> g[y] == g[1..][y - 1];
      RowCountCompare(g[0], p, q);
      GridCountCompare(g[1..], p, q);
    }
  }

  lemma {:induction false} RowCountSame(row: seq<Cell>, row': seq<Cell>, p: Cell -> bool)
    requires |row'| == |row|
    requires forall x :: 0 <= x < |row| ==> p(row[x]) == p(row'[x])
    ensures RowCount(row', p) == RowCount(row, p)
  {
    if row != [] {
      assert forall x :: 1 <= x < |row| ==> row[x] == row[1..][x - 1] && row'[x] == row'[1..][x - 1];
      RowCountSame(row[1..], row'[1..], p);
    }
  }

  /** Two grids of the same shape that agree on `p` cell by cell have the same count. */
  lemma {:induction false} GridCountSame(g: Grid, r: Grid, p: Cell -> bool)
    requires SameShape(g, r)
    requires forall y, x :: 0 <= y < |g| && 0 <= x < |g[y]| ==> p(g[y][x]) == p(r[y][x])
    ensures GridCount(r, p) == GridCount(g, p)
  {
    if g != [] {
      assert forall y :: 1 <= y < |g| ==> g[y] == g[1..][y - 1] && r[y] == r[1..][y - 1];
      RowCountSame(g[0], r[0], p);
      GridCountSame(g[1..], r[1..], p);
    }
  }

  /** Revealing cells never changes which cells hold mines, so the mine count stays. */
  lemma OnlyRevealsKeepsMineCount(g: Grid, r: Grid)
    requires OnlyReveals(g, r)
    ensures MineCount(r) == MineCount(g)
  {
    GridCountSame(g, r, IsMine);
  }

  /** Every cell of a fresh `h x w` grid is hidden and none holds a mine. */
  lemma {:induction false} InitGridCounts(h: nat, w: nat)
    ensures HiddenCount(InitGrid(h, w)) == h * w
    ensures MineCount(InitGrid(h, w)) == 0
  {
    var g := InitGrid(h, w);
    GridCountZero(g, IsMine);
    AllHiddenCount(g, w, h);
  }

  lemma {:induction false} AllHiddenCount(g: Grid, w: nat, h: nat)
    requires Shaped(g, w, h)
    requires forall y, x :: 0 <= y < h && 0 <= x < w ==> !g[y][x].isRevealed
    ensures HiddenCount(g) == h * w
  {
    if h > 0 {
      assert forall y :: 1 <= y < h ==> g[y] == g[1..][y - 1];
      AllHiddenRow(g[0]);
      AllHiddenCount(g[1..], w, h - 1);
      assert h * w == (h - 1) * w + w;
    }
  }

  lemma {:induction false} AllHiddenRow(row: seq<Cell>)
    requires forall x :: 0 <= x < |row| ==> !row[x].isRevealed
    ensures RowCount(row, IsHidden) == |row|
  {
    if row != [] {
      assert forall x :: 1 <= x < |row| ==> row[x] == row[1..][x - 1];
      AllHiddenRow(row[1..]);
    }
  }

  /** No cell is hidden exactly when every cell is revealed. */
  lemma HiddenCountZero(g: Grid)
    ensures HiddenCount(g) == 0 <==> AllRevealed(g)
  {
    GridCountZero(g, IsHidden);
  }

  // ---------------------------------------------------------------------
  // Revealing cells

  /** Marks the cell at (x, y) revealed (`grid[y][x].isRevealed = true`). */
  function Reveal(g: Grid, x: nat, y: nat): (r: Grid)
    requires y < |g| && x < |g[y]|
    ensures OnlyReveals(g, r)
    ensures r[y][x].isRevealed
    ensures forall j, i :: 0 <= j < |g| && 0 <= i < |g[j]| && (j != y || i != x) ==> r[j][i] == g[j][i]
    ensures HiddenCount(r) == HiddenCount(g) - (if g[y][x].isRevealed then 0 else 1)
    ensures !g[y][x].isFlagged ==> NoFlagRevealed(g, r)
    ensures !g[y][x].hasMine ==> NoMineRevealed(g, r)
  {
    var r := g[y := g[y][x := g[y][x].(isRevealed := true)]];
    GridCountUpdate(g, x, y, g[y][x].(isRevealed := true), IsHidden);
    r
  }

  /** `revealBoard`: every cell of the `h x w` board is revealed. */
  function RevealBoard(g: Grid, w: nat, h: nat): (r: Grid)
    requires Shaped(g, w, h)
    ensures OnlyReveals(g, r)
    ensures AllRevealed(r)
    ensures HiddenCount(r) == 0
  {
    var r := seq(h, y requires 0 <= y < h => seq(w, x requires 0 <= x < w => g[y][x].(isRevealed := true)));
    GridCountZero(r, IsHidden);
    r
  }
}
