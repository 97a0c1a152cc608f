# Minesweeper rule engine in Dafny

This project models the game rules of a browser Minesweeper (`js/minesweeper.js`) and proves what
they do. A board is a `columns × rows` grid of cells, `cells[x][y]`. Each cell has four mutable
fields: `flagged`, `hasMine`, `visible` and `minedNeighbors`. The board also has a game state:
not started, running, won or lost.

The model covers these rules:

- `initialize` lays out fresh cells, places the mines and starts the game.
- A left click does nothing on a flagged or visible cell. On a mine it is a loss and every cell is
  revealed. Otherwise the cell is revealed and the win test runs.
- Revealing a cell (`checkNeighbors`) records how many mines its 3×3 block holds and shows the
  cell. When the block holds no mine, every cell of the block is left-clicked, which spreads the
  reveal (the flood fill).
- A right click clears the flag of a flagged cell, visible or not, and flags an unflagged hidden
  cell.
- The game is won when the number of hidden cells equals the number of mines.

All of this lives in one module, `Minesweeper` (`minesweeper.dfy`):

- `Cell` is a datatype value holding a cell's position and its four fields. `Show` is the cell's
  reveal operation.
- `Board` is a class. It holds `const cells: array2<Cell>`, updated in place, and
  `var gameState`. Each rule function of the source's board has a method of the same name. The
  drawing and event-binding functions (`drawRowDivider`, `bindEvents`) are display code and are
  left out. Two loops of `checkNeighbors` are methods of their own: its counting loop is
  `CountMines` and its click loop is `Cascade`. The random draws of `getRandomCell` become a parameter (see below). Each
  `for`/`while` loop of the source is a loop with invariants, and the re-entrant click cascade is
  mutual recursion between methods.
- The cascade terminates because the number of hidden cells, `Count(HiddenCells)`, never grows. Each
  method's `decreases` pairs that number with a rank: Cascade 3, LeftClick 2, ShowAll 1,
  CheckNeighbors 0. Every nested reveal of a hidden cell makes the number strictly smaller.
- The methods are specified against ghost functions:
  - `Neighbors(x, y)` is the 3×3 scan, defined step by step as `ScanCells`.
  - `NeighborMines(x, y)` is the number of mines the counting loop finds in that scan.
    `NeighborsMineCount` proves it equal to `BlockMines(x, y)`, the mines of the 3×3 block
    counted cell by cell.
  - `Count(t)` tallies hidden, mined or hidden-safe cells, row by row.
- Two-state predicates say how the grid may change during play:
  - `Grew`: no mine or flag changes, and a visible cell stays visible with the same count.
  - `Untouched`: no cell changes at all.
  - `OnlyChanged(x, y)`: no cell other than `(x, y)` changes.
  - `FlagsHeld(x, y)`: every flagged hidden cell other than `(x, y)` stays hidden.
  - `RevealedSafe(x, y)`: every newly revealed cell other than `(x, y)` is free of mines.
  - `KeptOrWon`: the game state is unchanged, or it became won and no more cells are hidden
    than there are mines.
- One-state predicates state the board's invariants:
  - `CountsCorrect`: every visible cell shows the number of mines in its block. Initialization
    establishes it and every move keeps it.
  - `NoMineShowing`: no mined cell is visible.
  - `SafeCleared`: every cell without a mine is visible.

These quirks of the code are followed as written:

- The neighbourhood of a cell includes the cell itself, so the mine count of a cell reached from
  `showAll` counts its own mine.
- The cascade goes back through the left-click rule. Flagged neighbours are therefore skipped, and
  every cascaded click runs the win test.
- Neither click checks the game state.
- `showAll` reveals flagged cells too.
- The win tests that run inside `showAll` can turn a loss into a win. One example is a 4×1 board
  with its single mine at (3, 0): clicking the mine sets the state to lost. Then `showAll` reveals
  (0, 0), whose block holds no mine. The cascade reaches (2, 0) while only the mine is still
  hidden, and that click's win test sets the state to won. This is why `LeftClick` on a mine
  promises a lost *or* won state.

## Model

| member | source | states |
|---|---|---|
| Minesweeper.Show | js/minesweeper.js:28-43 | The result is visible and equals the input in every other field: the mine, the flag and the count are kept. |
| Minesweeper.ShowIdempotent | js/minesweeper.js:28-31 | Showing twice is showing once, and showing a visible cell changes nothing. |
| Minesweeper.MineCountZero | js/minesweeper.js:215-219 | The mine count of a list of cells is at most its length. It is zero exactly when no listed cell holds a mine. |
| Minesweeper.Board.CountMines | js/minesweeper.js:209-219 | The counting loop returns the number of mined cells among the neighbours. |
| Minesweeper.Board.constructor | js/minesweeper.js:54-64 | A board of the given size and mine number, in the not-started state, with a grid of that shape. |
| Minesweeper.Board.Initialize | js/minesweeper.js:75-91 | Every cell is fresh: it carries its own position, is unflagged and hidden, and has count 0. Mines lie only at consumed draws, and every consumed draw holds a mine. Exactly `mines - left` cells are mined. When the draws hold at least `mines` distinct positions, every mine is placed (`left == 0`, so exactly `mines` cells are mined). No mine shows and every count is correct. The game is running. |
| Minesweeper.Board.GenerateMines | js/minesweeper.js:176-188 | The mined-cell count grows by exactly `count - left`. Mines are never removed, and only `hasMine` changes. Every new mine is at one of the first `used` draws, and every one of those draws holds a mine. Either all mines were placed or every draw was used. When none are asked for, no draw is consumed. When some were asked for and all were placed, the last draw consumed is a fresh position that received the last mine, so no draw is consumed beyond need. |
| Minesweeper.Board.DrawsMined | js/minesweeper.js:176-188 | When every draw holds a mine, the board holds at least as many mines as there are distinct draws. |
| Minesweeper.Board.CountCard | js/minesweeper.js:144-155 | A tally equals the number of board positions whose cell it counts. |
| Minesweeper.Board.GetNeighbors | js/minesweeper.js:191-205 | The loop returns exactly the scan `Neighbors(x, y)`. |
| Minesweeper.Board.NeighborsSpec | js/minesweeper.js:191-205 | The neighbourhood holds exactly the on-board cells of the 3×3 block, the centre included. Each one lies on the board, is the cell stored at its position and appears once. There are between 1 and 9 of them. |
| Minesweeper.Board.ScanBounds | js/minesweeper.js:194-201 | Part way through the scan, the cells collected are on-board cells of the block, each before the scan's next position, and at most as many as the steps taken. |
| Minesweeper.Board.ScanOrder | js/minesweeper.js:194-201 | The scan collects cells column by column and row by row, strictly in that order. |
| Minesweeper.Board.ScanComplete | js/minesweeper.js:194-201 | Every on-board cell of the block that the scan has passed has been collected. |
| Minesweeper.Board.NeighborsMineCount | js/minesweeper.js:194-219 | The counting loop over the scan finds exactly the mines of the 3×3 block, cell by cell. |
| Minesweeper.Board.SameMines | js/minesweeper.js:209-223 | When no cell gained or lost a mine, every block holds as many mines as before, so revealing or flagging cells never makes a shown count wrong. |
| Minesweeper.Board.NeighborsListed | js/minesweeper.js:210-228 | Each listed neighbour names an on-board cell and carries that cell's mine. Every on-board cell of the block is named by some entry. |
| Minesweeper.Board.CountHiddenCells | js/minesweeper.js:144-155 | The loop returns the number of hidden cells, `Count(HiddenCells)`, which is at most `columns * rows`. |
| Minesweeper.Board.CountZero | js/minesweeper.js:144-155 | A tally is zero exactly when no cell of the board is tallied. |
| Minesweeper.Board.CountRowsSplit | js/minesweeper.js:144-167 | While no mine is showing, the hidden cells are the mined cells plus the hidden safe ones. |
| Minesweeper.Board.WinMeansCleared | js/minesweeper.js:158-167 | With the configured mine number placed and no mine showing, the hidden count is at least the mine number, and equals it exactly when every safe cell is visible. |
| Minesweeper.Board.CountRowsFlip | js/minesweeper.js:182-184 | When one cell changes, each tally moves only by that cell's contribution. When no cell changes, the tally is the same. |
| Minesweeper.Board.CheckWinCondition | js/minesweeper.js:158-167 | The state becomes won exactly when the hidden count equals the mine number; otherwise it is unchanged. |
| Minesweeper.Board.WinTest | js/minesweeper.js:117-123 | After a safe click on a board holding the configured mine number, with no mine showing, the game is won exactly when it already was or every safe cell is now visible. |
| Minesweeper.Board.LeftClick | js/minesweeper.js:106-124 | No move on a flagged or visible cell. On a hidden mine every cell becomes visible and the game is lost (or won, see above). On a hidden safe cell, that cell becomes visible with its block's mine count. With any other count than 0 no other cell changes, and the game is won exactly when the hidden count equals the mine number; otherwise the state stays. With a count of 0 its unflagged block cells are shown, and the state stays or becomes won with no more hidden cells than mines (a nested click can turn a lost game into a won one). Every other cell revealed is free of mines, and other hidden flagged cells stay hidden. If no mine was showing before, none shows after. If in addition the configured mine number is placed, the game is won exactly when it was already won or every safe cell is visible. Visibility never shrinks, hidden cells never increase, and every shown count stays correct. |
| Minesweeper.Board.RightClick | js/minesweeper.js:126-141 | A flag is cleared, or set on a hidden cell. A visible unflagged cell keeps no flag. Nothing else of this cell or any other cell changes, and every shown count stays correct. |
| Minesweeper.Board.CheckNeighbors | js/minesweeper.js:208-232 | Nothing changes on a visible cell. A hidden cell becomes visible with `minedNeighbors` equal to its block's mine count, and the hidden count strictly drops. With count 0, every unflagged cell of the block is visible afterwards. With any other count, no other cell and not the game state changes. Every other cell revealed is free of mines, and flagged hidden cells elsewhere stay hidden. The game state stays, or becomes won with no more hidden cells than mines. Every shown count stays correct. |
| Minesweeper.Board.Revealed | js/minesweeper.js:222-223 | The write of the reveal step changes no mine or flag, leaves one hidden cell fewer and keeps every shown count correct. |
| Minesweeper.Board.Cascade | js/minesweeper.js:226-230 | After a zero count, the click on each neighbour leaves every unflagged cell of the block visible. Every cell it reveals is free of mines and shows its block's mine count. It keeps the other flagged hidden cells hidden and never loses the game. |
| Minesweeper.Board.ShowAll | js/minesweeper.js:235-244 | Afterwards every cell is visible, flagged ones included. No mine or flag changes, and every cell it reveals shows its block's mine count. The state is unchanged, or won with no more hidden cells than mines. |

## Left out

- The presentation layer: jQuery elements, CSS classes, drawing, row dividers, event binding, the
  `#messages` text and the page bootstrap. This is display, not game logic.
- `console.log` output, which is I/O.
- Event dispatch: `trigger('click')` and the `game-state-check` event are direct calls. The cascade
  calls `LeftClick`, and `LeftClick` calls `CheckWinCondition`.
- `Math.random` in `getRandomCell`. The random draws are a parameter `picks` of on-board positions.
  `GenerateMines` returns how many mines it could not place (`left`) and how many draws it used.
- GenerateMines: the source loops until every mine is placed and never stops when there are more
  mines than cells. With finite draws the model stops when the draws run out and reports in `left`
  how many mines are still unplaced. `Initialize` proves that none are left whenever the draws hold
  at least `mines` distinct positions.
- The fixed 10 × 10 board with 10 mines becomes constructor parameters. The operations require the
  grid to be laid out (`Valid()`), which `Initialize` establishes. Before that the source's methods
  would fail on an empty `cells` array.
- Cell objects become `Cell` values held in the in-place `array2`. Two things are therefore not
  modelled.
  - Aliasing between the grid and the `neighbors` array. In the source the entries are the grid's
    own objects; in the model they are copies taken when the scan ran. The cascade reads only their
    positions, so it clicks the same cells.
  - Object identity.
- LeftClick: on a hidden mine the contract promises a lost or won state rather than lost. The
  source's own cascaded win tests can set won during `showAll` (example above).
- CheckNeighbors, Cascade, LeftClick: the flood-fill promise covers only the clicked cell's block
  (every unflagged cell of its block is visible), because reachability over the region of zero-count
  cells is not stated. Every cell the recursion reveals is proved free of mines and to show the right
  count, but the full connected region it uncovers is not described, so a win that needs the whole
  region uncovered (clicking (0, 0) of a 3×3 board whose only mine is at (2, 2)) cannot be derived.
- That won and lost are final states is not stated, because the source does not enforce it.
