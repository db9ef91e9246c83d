/** The two gestures the board answers: `onCellClick` (reveal) and
    `onRightClick` (toggle a flag), as pure transitions. The source's
    `alert` calls become the two flags of `Click`, and `setState` becomes
    the returned board. */
module Clicks {
  import opened Board
  import opened Neighborhood
  import opened Mines
  import opened FloodFill

  /** The Board component's props. */
  datatype Props = Props(height: nat, width: nat, mines: nat)

  /** What a primary click leaves behind: the board, and which of the two
      alerts ("Game over!", "You win!") it raised. */
  datatype Click = Click(board: Grid, lost: bool, won: bool)

  /** The click names a cell of a board of the configured size. */
  predicate ValidClick(p: Props, g: Grid, x: nat, y: nat) {
    Shaped(g, p.width, p.height) && x < p.width && y < p.height
  }

  /** `r` is `g` with the cell (x, y) revealed and nothing else changed. */
  predicate OnlyCellRevealed(g: Grid, r: Grid, x: nat, y: nat) {
    && OnlyReveals(g, r)
    && Inside(r, Pos(x, y)) && r[y][x].isRevealed
    && forall j, i :: 0 <= j < |g| && 0 <= i < |g[j]| && (j != y || i != x) ==> r[j][i] == g[j][i]
  }

  /** The reveal rules of `onCellClick` for a cell that is neither revealed
      nor flagged, before the win check: a mine reveals the whole board, a
      zero-adjacency cell starts the sweep, any other cell is revealed alone. */
  function Uncover(p: Props, g: Grid, x: nat, y: nat): (r: Grid)
    requires ValidClick(p, g, x, y)
    ensures Shaped(r, p.width, p.height) && OnlyReveals(g, r)
    ensures g[y][x].hasMine ==> AllRevealed(r)
    ensures !g[y][x].hasMine && g[y][x].adjacentMines != 0 ==> OnlyCellRevealed(g, r, x, y)
  {
    if g[y][x].hasMine then RevealBoard(g, p.width, p.height)
    else if g[y][x].adjacentMines == 0 then RevealAdjacent(g, p.width, p.height, x, y)
    else Reveal(g, x, y)
  }

  /** `onCellClick(x, y)`. A revealed or flagged cell is left alone and no
      check follows. Otherwise the reveal rules apply, and then, if exactly
      `mines` cells are still hidden, the whole board is revealed and the
      game is won. */
  function OnCellClick(p: Props, g: Grid, x: nat, y: nat): (r: Click)
    requires ValidClick(p, g, x, y)
    ensures Shaped(r.board, p.width, p.height) && OnlyReveals(g, r.board)
    ensures g[y][x].isRevealed || g[y][x].isFlagged ==> r == Click(g, false, false)
    ensures !g[y][x].isRevealed && !g[y][x].isFlagged ==> (r.lost <==> g[y][x].hasMine)
    ensures r.lost ==> AllRevealed(r.board)
    ensures r.won ==> AllRevealed(r.board) && !g[y][x].isRevealed && !g[y][x].isFlagged
    ensures !g[y][x].isRevealed && !g[y][x].isFlagged && HiddenCount(r.board) == p.mines ==> r.won
    ensures r.won <==> !g[y][x].isRevealed && !g[y][x].isFlagged && HiddenCount(Uncover(p, g, x, y)) == p.mines
    ensures !g[y][x].isRevealed && !g[y][x].isFlagged && !r.won ==> r.board == Uncover(p, g, x, y)
    ensures !g[y][x].isRevealed && !g[y][x].isFlagged && !g[y][x].hasMine && g[y][x].adjacentMines != 0 && !r.won ==>
              OnlyCellRevealed(g, r.board, x, y)
  {
    if g[y][x].isRevealed || g[y][x].isFlagged then Click(g, false, false)
    else
      var u := Uncover(p, g, x, y);
      if HiddenCount(u) == p.mines then
        var r := RevealBoard(u, p.width, p.height);
        OnlyRevealsTrans(g, u, r);
        Click(r, g[y][x].hasMine, true)
      else
        Click(u, g[y][x].hasMine, false)
  }

  /** `onRightClick(e, x, y)`: toggles the flag of a hidden cell; a revealed
      cell is left alone. */
  function OnRightClick(g: Grid, x: nat, y: nat): (r: Grid)
    requires Inside(g, Pos(x, y))
    ensures SameShape(g, r)
    ensures g[y][x].isRevealed ==> r == g
    ensures !g[y][x].isRevealed ==> r[y][x].isFlagged == !g[y][x].isFlagged
    ensures r[y][x] == g[y][x].(isFlagged := r[y][x].isFlagged)
    ensures forall j, i :: 0 <= j < |g| && 0 <= i < |g[j]| && (j != y || i != x) ==> r[j][i] == g[j][i]
  {
    if g[y][x].isRevealed then g
    else g[y := g[y][x := g[y][x].(isFlagged := !g[y][x].isFlagged)]]
  }

  // ---------------------------------------------------------------------
  // Properties of clicks

  /** Toggling a flag twice gives back the board. */
  lemma RightClickTwice(g: Grid, x: nat, y: nat)
    requires Inside(g, Pos(x, y))
    ensures OnRightClick(OnRightClick(g, x, y), x, y) == g
  {
    var r := OnRightClick(OnRightClick(g, x, y), x, y);
    assert forall j :: 0 <= j < |g| ==> r[j] == g[j];
  }

  /** Clicking a cell a second time changes nothing and raises no alert. */
  lemma ClickTwice(p: Props, g: Grid, x: nat, y: nat)
    requires ValidClick(p, g, x, y)
    requires !g[y][x].isFlagged
    ensures var r := OnCellClick(p, g, x, y).board;
            (r[y][x].isRevealed && OnCellClick(p, r, x, y) == Click(r, false, false))
            || (!r[y][x].isRevealed && !g[y][x].hasMine && g[y][x].adjacentMines == 0)
  {
  }

  /** On a board holding `mines` mines, losing never also counts as winning. */
  lemma LossIsNotWin(p: Props, g: Grid, x: nat, y: nat)
    requires ValidClick(p, g, x, y) && MineCount(g) == p.mines
    ensures OnCellClick(p, g, x, y).lost ==> !OnCellClick(p, g, x, y).won
  {
    if OnCellClick(p, g, x, y).lost {
      GridCountZero(g, IsMine);
      assert IsMine(g[y][x]);
    }
  }

  /** Clicking a hidden, unflagged, mine-free cell of a correctly counted
      board never loses, never reveals a mine and never reveals a flagged
      cell (unless the click wins, which reveals everything). */
  lemma SafeClick(p: Props, g: Grid, x: nat, y: nat)
    requires ValidClick(p, g, x, y) && Counted(g, p.width, p.height)
    requires !g[y][x].isRevealed && !g[y][x].isFlagged && !g[y][x].hasMine
    ensures !OnCellClick(p, g, x, y).lost
    ensures NoMineRevealed(g, Uncover(p, g, x, y)) && NoFlagRevealed(g, Uncover(p, g, x, y))
    ensures var r := OnCellClick(p, g, x, y);
            !r.won ==> NoMineRevealed(g, r.board) && NoFlagRevealed(g, r.board)
  {
    if g[y][x].adjacentMines == 0 {
      RevealAdjacentSafe(g, p.width, p.height, x, y);
    }
  }

  /** Clicking a zero-adjacency cell reveals every neighbour that is not
      flagged and not a mine. */
  lemma ZeroClickRevealsNeighbors(p: Props, g: Grid, x: nat, y: nat, q: Pos)
    requires ValidClick(p, g, x, y)
    requires !g[y][x].isRevealed && !g[y][x].isFlagged && !g[y][x].hasMine && g[y][x].adjacentMines == 0
    requires IsNeighbor(p.width, p.height, x, y, q)
    requires !g[q.y][q.x].isFlagged && !g[q.y][q.x].hasMine
    ensures OnCellClick(p, g, x, y).board[q.y][q.x].isRevealed
  {
    RevealAdjacentCovers(g, p.width, p.height, x, y, q);
  }

  /** On a correctly counted board holding `mines` mines, none of them yet
      revealed, a click on a hidden mine-free cell wins exactly when it
      leaves every mine-free cell revealed. */
  lemma WinMeansAllSafeRevealed(p: Props, g: Grid, x: nat, y: nat)
    requires ValidClick(p, g, x, y) && Counted(g, p.width, p.height)
    requires MineCount(g) == p.mines
    requires forall j, i :: 0 <= j < p.height && 0 <= i < p.width && g[j][i].hasMine ==> !g[j][i].isRevealed
    requires !g[y][x].isRevealed && !g[y][x].isFlagged && !g[y][x].hasMine
    ensures var u := Uncover(p, g, x, y);
            OnCellClick(p, g, x, y).won
            <==> forall j, i :: 0 <= j < p.height && 0 <= i < p.width && !u[j][i].hasMine ==> u[j][i].isRevealed
  {
    var u := Uncover(p, g, x, y);
    SafeClick(p, g, x, y);
    OnlyRevealsKeepsMineCount(g, u);
    GridCountCompare(u, IsMine, IsHidden);
  }

  // ---------------------------------------------------------------------
  // Worked examples

  /** A 1 x 3 row with a mine at the right end: the left cell has no mined
      neighbour, the middle one has one. */
  function RowWithMine(): Grid {
    [[Cell(0, 0, false, false, false, 0), Cell(1, 0, false, false, false, 1), Cell(2, 0, true, false, false, 0)]]
  }

  /** Clicking the left end of `RowWithMine` reveals only the middle cell: the
      clicked zero-adjacency cell itself stays hidden, and the game goes on. */
  lemma ClickedZeroCellStaysHidden()
    ensures Counted(RowWithMine(), 3, 1)
    ensures var r := OnCellClick(Props(1, 3, 1), RowWithMine(), 0, 0);
            && !r.board[0][0].isRevealed && r.board[0][1].isRevealed && !r.board[0][2].isRevealed
            && !r.lost && !r.won
  {
    var g := RowWithMine();
    RowWithMineCounted();
    NeighborsMembers(3, 1, 0, 0);
    assert Neighbors(3, 1, 0, 0) == [Pos(1, 0)];
    var g1 := Reveal(g, 1, 0);
    assert Sweep(g1, 3, 1, []) == g1;
    assert RevealAdjacent(g, 3, 1, 0, 0) == g1;
    var row := [g[0][0], g[0][1].(isRevealed := true), g[0][2]];
    assert g1[0] == row;
    assert g1 == [row];
    assert RowCount(row[2..], IsHidden) == 1 by { assert row[2..][1..] == []; }
    assert RowCount(row[1..], IsHidden) == 1 by { assert row[1..][1..] == row[2..]; }
    assert HiddenCount(g1) == 2 by { assert g1[1..] == []; }
  }

  /** `RowWithMine` carries the adjacency counts `getAdjacentMineCount` gives it. */
  lemma RowWithMineCounted()
    ensures Counted(RowWithMine(), 3, 1)
  {
    var g := RowWithMine();
    assert MinedAround(g, 3, 1, 0, 0) == {};
    assert MinedAround(g, 3, 1, 1, 0) == {Pos(2, 0)};
  }

  /** A 1 x 3 row without mines whose three cells are revealed as `l`, `m` and `r` say. */
  function EmptyRow(l: bool, m: bool, r: bool): Grid {
    [[Cell(0, 0, false, l, false, 0), Cell(1, 0, false, m, false, 0), Cell(2, 0, false, r, false, 0)]]
  }

  /** Clicking the left end of a hidden `EmptyRow` with no mines configured
      sweeps the whole row, the clicked cell included, because the sweep
      comes back to it from its zero-adjacency neighbour; the game is won. */
  lemma EmptyRowSweepWins()
    ensures Counted(EmptyRow(false, false, false), 3, 1)
    ensures var r := OnCellClick(Props(1, 3, 0), EmptyRow(false, false, false), 0, 0);
            AllRevealed(r.board) && !r.lost && r.won
  {
    EmptyRowCounted();
    EmptyRowSweep();
    HiddenCountZero(EmptyRow(true, true, true));
  }

  /** A mine-free row has zero adjacency everywhere, as `EmptyRow` says. */
  lemma EmptyRowCounted()
    ensures Counted(EmptyRow(false, false, false), 3, 1)
  {
    var g := EmptyRow(false, false, false);
    assert MinedAround(g, 3, 1, 0, 0) == {};
    assert MinedAround(g, 3, 1, 1, 0) == {};
    assert MinedAround(g, 3, 1, 2, 0) == {};
  }

  /** The sweep from the left end: it reveals the middle cell, from there the
      right cell, and then the clicked cell. */
  lemma EmptyRowSweep()
    ensures RevealAdjacent(EmptyRow(false, false, false), 3, 1, 0, 0) == EmptyRow(true, true, true)
  {
    var g, a := EmptyRow(false, false, false), EmptyRow(false, true, false);
    EmptyRowReveals();
    EmptyRowSweepTail();
    assert Neighbors(3, 1, 0, 0) == [Pos(1, 0)];
    SweepZero(g, 3, 1, [Pos(1, 0)]);
  }

  /** The sweep from the middle cell once it is revealed. */
  lemma EmptyRowSweepTail()
    ensures RevealAdjacent(EmptyRow(false, true, false), 3, 1, 1, 0) == EmptyRow(true, true, true)
  {
    var a, b := EmptyRow(false, true, false), EmptyRow(false, true, true);
    EmptyRowReveals();
    EmptyRowSweepEnds();
    assert Neighbors(3, 1, 1, 0) == [Pos(2, 0), Pos(0, 0)];
    assert [Pos(2, 0), Pos(0, 0)][1..] == [Pos(0, 0)];
    SweepZero(a, 3, 1, [Pos(2, 0), Pos(0, 0)]);
  }

  /** The two end cells' sweeps find nothing left to reveal but the clicked cell. */
  lemma EmptyRowSweepEnds()
    ensures RevealAdjacent(EmptyRow(false, true, true), 3, 1, 2, 0) == EmptyRow(false, true, true)
    ensures Sweep(EmptyRow(false, true, true), 3, 1, [Pos(0, 0)]) == EmptyRow(true, true, true)
  {
    var b, c := EmptyRow(false, true, true), EmptyRow(true, true, true);
    EmptyRowReveals();
    assert Neighbors(3, 1, 0, 0) == [Pos(1, 0)];
    assert Neighbors(3, 1, 2, 0) == [Pos(1, 0)];
    SweepSkip(c, 3, 1, [Pos(1, 0)]);
    SweepZero(b, 3, 1, [Pos(0, 0)]);
    SweepSkip(b, 3, 1, [Pos(1, 0)]);
  }

  /** Revealing a cell of an `EmptyRow` sets its flag. */
  lemma EmptyRowReveals()
    ensures Reveal(EmptyRow(false, false, false), 1, 0) == EmptyRow(false, true, false)
    ensures Reveal(EmptyRow(false, true, false), 2, 0) == EmptyRow(false, true, true)
    ensures Reveal(EmptyRow(false, true, true), 0, 0) == EmptyRow(true, true, true)
  {
    var a := Reveal(EmptyRow(false, false, false), 1, 0);
    var b := Reveal(EmptyRow(false, true, false), 2, 0);
    var c := Reveal(EmptyRow(false, true, true), 0, 0);
    assert a[0] == EmptyRow(false, true, false)[0];
    assert b[0] == EmptyRow(false, true, true)[0];
    assert c[0] == EmptyRow(true, true, true)[0];
  }
}
