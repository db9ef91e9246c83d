# Minesweeper board engine, modelled in Dafny

This project models the `Board` component of a small React minesweeper
(`src/Game.js`). It covers the part of the component that builds a board and
plays it, and leaves out the rendering.

- **Set-up.** `initGrid`, `initMines`, `getAdjacentMineCount` and
  `getNeighbors` build a `height x width` grid of cells. Each cell holds
  `x`, `y`, `hasMine`, `isRevealed`, `isFlagged` and `adjacentMines`.
- **Play.**
  - `onCellClick` reveals a cell. A mine reveals the whole board and loses.
    A cell with no mined neighbour starts the recursive sweep
    `revealAdjacent`. Any other cell is revealed alone.
  - After a click, if the number of hidden cells (`getHiddenCount`) equals
    the configured mine count, the board is revealed and the game is won.
  - `onRightClick` toggles the flag of a hidden cell.

The model is purely functional. A grid is a `seq<seq<Cell>>`, and every
operation returns a new grid where the source mutates `state.boardData` in
place.

- `getNeighbors` returns cell references. The model returns the cells'
  positions (`Pos`) instead. The source reveals `grid[cell.y][cell.x]` and
  recurses on `cell.x, cell.y`, reading the coordinates stored in the cell;
  the model reveals and recurses at the listed position. The two agree on a
  board whose cells carry their own coordinates (`Board.WellFormed`), which
  `Mines.InitBoardData` establishes and which revealing cells preserves
  (`Board.OnlyReveals` changes only `isRevealed`).
- The sweep in the source reads each neighbour object as it stands when the
  loop reaches it. Earlier recursive calls may already have revealed it. So
  `FloodFill.Sweep` reads the current grid at each step of the walk.

The modules follow the source:

- `Board` holds the cell and grid types, `initGrid`, `getHiddenCount`,
  `revealBoard` and single-cell reveals.
- `Neighborhood` holds `getNeighbors`.
- `Mines` holds `initMines`, `getAdjacentMineCount` and `initBoardData`.
- `FloodFill` holds `revealAdjacent`.
- `Clicks` holds `onCellClick` and `onRightClick`.

Two behaviours of the code are kept as written:

- **The clicked cell is not revealed by its own sweep.** A click on a
  zero-adjacency cell does not reveal that cell: `onCellClick` calls
  `revealAdjacent`, which only reveals neighbours. The clicked cell is
  revealed only when the sweep reaches it again from a neighbour that also
  has zero adjacency. Minesweeper is usually played with the clicked cell
  revealed first; this code does not do that, and the model follows the code.
  `Clicks.ClickedZeroCellStaysHidden` and `Clicks.EmptyRowSweepWins` show
  both outcomes.
- **Both alerts can fire on one click.** After a mine click the board is
  fully revealed, so the win check that follows compares 0 with `mines`.
  The model therefore returns two independent flags, `lost` and `won`.
  `Clicks.LossIsNotWin` shows that on a board holding exactly `mines` mines
  they never both hold.

Mined cells keep `adjacentMines == 0`, because `getAdjacentMineCount` skips
them.

## Model

| member | source | states |
|---|---|---|
| Board.InitGrid | src/Game.js:50-66 | the grid is `height` rows of `width` cells, each carrying its own coordinates, with no mine, not revealed, not flagged, adjacency 0 |
| Board.InitGridCounts | src/Game.js:50-66 | a fresh `h x w` grid has `h * w` hidden cells and no mine |
| Board.HiddenCount | src/Game.js:181-192 | the number of unrevealed cells; its contract is stated by `HiddenCountZero`, `AllHiddenCount`, `InitGridCounts` and `Reveal`'s count clause |
| Board.HiddenCountZero | src/Game.js:181-192 | the hidden count is 0 exactly when every cell is revealed |
| Board.AllHiddenCount | src/Game.js:181-192 | a grid of `h` rows of `w` cells, none revealed, has hidden count `h * w` |
| Board.GridCountCompare | src/Game.js:181-192 | counting cells with a property `p` that implies `q` gives at most the count for `q`, with equality exactly when `q` also implies `p` (used to compare hidden cells with mines) |
| Board.GridCountZero | src/Game.js:181-192 | a cell count is zero exactly when no cell qualifies |
| Board.GridCountUpdate | src/Game.js:181-192 | replacing one cell changes a count by that cell's old and new contributions only |
| Board.OnlyRevealsKeepsMineCount | src/Game.js:172 | revealing cells never changes how many cells hold a mine |
| Board.Reveal | src/Game.js:142 | exactly the one cell becomes revealed and no other field or cell changes; the hidden count drops by one if the cell was hidden; no flagged or mined cell is revealed unless it is that cell |
| Board.RevealBoard | src/Game.js:194-204 | every cell is revealed, nothing else about any cell changes, and the hidden count becomes 0 |
| Board.OnlyRevealsTrans | src/Game.js:172 | revealing cells in two stages is revealing cells, and not revealing flagged or mined cells survives the composition |
| Neighborhood.Neighbors | src/Game.js:100-129 | the neighbour list in push order; its contract is stated by `NeighborsMembers`, `NeighborsDistinct`, `NeighborsLength`, `NeighborCounts` and `AtMostEight` |
| Neighborhood.NeighborsMembers | src/Game.js:100-129 | a position is on the neighbour list exactly when it is on the board, differs from (x, y), and lies at most one step away in each direction |
| Neighborhood.NeighborsDistinct | src/Game.js:100-129 | no cell appears twice on a neighbour list |
| Neighborhood.NeighborsLength | src/Game.js:100-129 | the list holds (columns in reach) times (rows in reach) minus one cells |
| Neighborhood.NeighborCounts | src/Game.js:100-129 | on a board at least 2 x 2, a corner has 3 neighbours, a non-corner edge cell 5, an interior cell 8 |
| Neighborhood.AtMostEight | src/Game.js:100-129 | no cell has more than 8 neighbours |
| Mines.InitMines | src/Game.js:68-79 | drawing the picks in order until `mines` mines are planted plants a mine at every drawn pick and nowhere else, never removes one and changes no other field; the mine count grows by `planted`, which reaches `mines` unless the picks run out |
| Mines.CountMined | src/Game.js:86-92 | counting the mined cells along a list with no repeats gives the number of distinct mined positions on it |
| Mines.MinedAmongIsSetSize | src/Game.js:86-92 | the running tally along a repeat-free list equals the size of the set of mined positions on it |
| Mines.MinedInNeighbors | src/Game.js:87-92 | the mined cells on the neighbour list are exactly the mined neighbours of the cell |
| Mines.CountMinedNeighbors | src/Game.js:85-93 | the count the inner loop computes for (x, y) is the number of mined neighbours of (x, y) |
| Mines.GetAdjacentMineCount | src/Game.js:81-98 | every mine-free cell ends with `adjacentMines` equal to its number of mined neighbours; mined cells keep their value, and no other field changes |
| Mines.CountedKept | src/Game.js:172 | revealing cells keeps every stored adjacency count correct |
| Mines.InitBoardData | src/Game.js:43-48 | the set-up yields a board with correct coordinates and adjacency counts, no cell revealed or flagged, mined cells at adjacency 0, and `h * w` hidden cells; a cell holds a mine exactly when it is one of the `used` picks drawn; `planted` mines lie on the board, at most `mines`, and fewer only when every pick was drawn |
| FloodFill.RevealAdjacent | src/Game.js:167-179 | the sweep terminates, never hides a cell, changes nothing but `isRevealed`, never reveals a hidden flagged cell, and never increases the hidden count |
| FloodFill.Sweep | src/Game.js:170-177 | the walk over the rest of the neighbour list terminates, changes nothing but `isRevealed`, never hides a cell or reveals a hidden flagged cell, and never increases the hidden count |
| FloodFill.RevealAdjacentBounded | src/Game.js:167-179 | every cell the sweep from (x, y) reveals passes the admission test and is a neighbour of (x, y) or of a zero-adjacency cell the sweep revealed |
| FloodFill.RevealAdjacentSupported | src/Game.js:167-179 | a sweep started from the clicked cell or from a zero-adjacency cell revealed since the click keeps every newly revealed cell admissible and next to the clicked cell or to a revealed zero-adjacency cell |
| FloodFill.SweepSupported | src/Game.js:170-177 | the same holds of the walk over a list of neighbours of such a starting cell |
| FloodFill.SweepCovers | src/Game.js:170-177 | every listed cell that is unflagged and either zero-adjacency or mine-free is revealed when the walk ends |
| FloodFill.RevealAdjacentCovers | src/Game.js:167-179 | after the sweep from (x, y), every neighbour that is unflagged and either zero-adjacency or mine-free is revealed |
| FloodFill.RevealAdjacentSpreads | src/Game.js:170-177 | the sweep spreads: every zero-adjacency cell it reveals has, when the sweep returns, every neighbour that is unflagged and either zero-adjacency or mine-free revealed |
| FloodFill.RevealAdjacentClosed | src/Game.js:167-179 | a sweep keeps every revealed zero-adjacency cell, other than the centres whose own sweeps are still running, spread to its admissible neighbours |
| FloodFill.SweepClosed | src/Game.js:170-177 | the same holds of the walk over a neighbour list, including the recursive sweep from each zero-adjacency cell it reveals |
| FloodFill.NeighborsMineFree | src/Game.js:85-93 | on a correctly counted board, a mine-free cell with adjacency 0 has no mined neighbour |
| FloodFill.RevealAdjacentSafe | src/Game.js:167-179 | on a correctly counted board, the sweep from a mine-free zero-adjacency cell reveals no mine |
| FloodFill.SweepSafe | src/Game.js:170-177 | on a correctly counted board, walking a list of mine-free cells reveals no mine |
| Clicks.Uncover | src/Game.js:134-143 | a mine reveals the whole board; a mine-free cell with a nonzero count is revealed alone; otherwise only hidden cells become revealed |
| Clicks.OnCellClick | src/Game.js:131-153 | a revealed or flagged cell changes nothing and raises no alert; otherwise the game is lost exactly when the cell holds a mine; a loss or a win leaves the whole board revealed; the game is won exactly when the cell was hidden and unflagged and the hidden count after the reveal rules equals `mines`; a click that does not win leaves the board the reveal rules produced; a mine-free cell with a nonzero count is revealed alone unless the click wins |
| Clicks.OnRightClick | src/Game.js:155-165 | a hidden cell's flag is toggled and nothing else changes; a revealed cell is left alone |
| Clicks.RightClickTwice | src/Game.js:155-165 | two right clicks on the same cell give back the board |
| Clicks.ClickTwice | src/Game.js:131-153 | clicking a cell again after it was revealed changes nothing; the only click that leaves its cell hidden is one on a mine-free zero-adjacency cell |
| Clicks.LossIsNotWin | src/Game.js:136-148 | on a board holding `mines` mines, a losing click is never also a winning one |
| Clicks.SafeClick | src/Game.js:131-153 | on a correctly counted board, clicking a hidden unflagged mine-free cell never loses, and reveals no mine and no flagged cell unless it wins |
| Clicks.ZeroClickRevealsNeighbors | src/Game.js:139-140 | clicking a mine-free zero-adjacency cell reveals every neighbour that is neither flagged nor mined |
| Clicks.WinMeansAllSafeRevealed | src/Game.js:145-147 | on a correctly counted board holding `mines` mines, none of them revealed, a click on a mine-free cell wins exactly when it leaves every mine-free cell revealed |
| Clicks.ClickedZeroCellStaysHidden | src/Game.js:139-140 | on the 1 x 3 row with a mine at the right end, clicking the left cell reveals only the middle cell; the clicked cell stays hidden and the game neither ends in a loss nor a win |
| Clicks.EmptyRowSweepWins | src/Game.js:139-147 | on a mine-free 1 x 3 row with no mines configured, clicking the left cell reveals the whole row, the clicked cell included, and wins |

## Left out

- Rendering is not modelled: the `Cell` component, `getDisplayValue`, `renderBoard`, `render` and the `Game` component with its fixed 10 x 10 configuration. None of them changes the board.
- `alert`, `setState` and `e.preventDefault()` are not modelled as effects. The alerts become the `lost` and `won` flags of `Clicks.Click`, and the new state becomes the returned board.
- `Math.random` is replaced by the `picks` parameter of `Mines.InitMines`. Uniformity of the draw is not modelled.
- Mines.InitMines: when the picks run out before `mines` mines are planted, the method stops, but the source would keep drawing. On a board with at least one cell and `mines > width * height`, the source never terminates.
- Mines.InitMines: on a board with no cells and `mines > 0`, the source throws a TypeError on its first draw at `grid[y][x].hasMine`. When `height == 0`, `grid[y]` is undefined. When `width == 0`, the rows exist but are empty, so `grid[y][x]` is undefined. The model has no pick to draw there, because every pick must be on the board. It returns `InitGrid(h, w)`, which has no cells, with `planted == 0`.
- Clicks.OnCellClick: requires the click to name a cell of the board. The source indexes `boardData[y][x]` without a check, so an out-of-range click throws.
- Clicks.OnRightClick: requires the click to name a cell of the board. The source reads `boardData[y][x].isRevealed` without a check, so an out-of-range right click throws a TypeError.
- The aliasing between `state.boardData` and the grid that `revealBoard` and `revealAdjacent` mutate is not modelled. The model returns the board that the source ends up holding.
- FloodFill.RevealAdjacentSafe: is stated only for a sweep started from a mine-free zero-adjacency cell of a correctly counted board, as `onCellClick` starts it. The sweep's admission test lets a mined cell with adjacency 0 through, so on a board whose counts were not filled in by `getAdjacentMineCount` it could reveal a mine.
- FloodFill.RevealAdjacent: its own contract states only termination, reveal-only changes, no flagged cell revealed and no rise in the hidden count. The revealed set is not characterised as exactly "the connected zero-adjacency region plus its border". Lemmas bound it by local facts instead:
  - From below, `RevealAdjacentCovers` gives the admissible neighbours of the start. `RevealAdjacentSpreads` says every zero-adjacency cell the sweep reveals has its admissible neighbours revealed too.
  - From above, `RevealAdjacentBounded` says every revealed cell is admissible and next to the start or to a revealed zero-adjacency cell.
  - `RevealAdjacentSafe` says no mine is revealed.
- FloodFill.Sweep: its own contract states the same four facts as `RevealAdjacent`'s. What the walk reveals is stated by `SweepCovers` (every admissible listed cell), `SweepClosed` (the recursive sweeps from the zero-adjacency cells it reveals spread to their neighbours), `SweepSupported` (nothing beyond such cells' neighbours) and `SweepSafe` (no mine on a counted board).
