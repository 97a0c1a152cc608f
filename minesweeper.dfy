/** The Minesweeper rule engine: cells, the board, mine placement, the reveal cascade and the
    win and loss checks. */
module Minesweeper {

  /** A cell position (column, row); the grid is indexed cells[x][y]. */
  type Pos = (int, int)

  predicate InBounds(columns: int, rows: int, p: Pos) {
    0 <= p.0 < columns && 0 <= p.1 < rows
  }

  /** p lies in the 3×3 block centred on q; q itself is part of its own block. */
  predicate Adjacent(p: Pos, q: Pos) {
    q.0 - 1 <= p.0 <= q.0 + 1 && q.1 - 1 <= p.1 <= q.1 + 1
  }

  /** p comes before q in the neighbourhood scan, which runs column by column and, within a
      column, row by row. */
  predicate Before(p: Pos, q: Pos) {
    p.0 < q.0 || (p.0 == q.0 && p.1 < q.1)
  }

  /** The distinct positions among the random draws. */
  function Drawn(picks: seq<Pos>): set<Pos> {
    set k | 0 <= k < |picks| :: picks[k]
  }

  datatype GameState = NotStarted | Running | Won | Lost

  /** One square of the board: its position, which never changes, and the four fields play updates. */
  datatype Cell = Cell(x: int, y: int, flagged: bool, hasMine: bool, visible: bool, minedNeighbors: nat)
  {
    function Position(): Pos {
      (x, y)
    }
  }

  /** Reveals a cell. Only `visible` changes, and a cell that is already visible comes back as it was. */
  function Show(c: Cell): (r: Cell)
    ensures r.visible
    ensures r.(visible := c.visible) == c
  {
    if c.visible then c else c.(visible := true)
  }

  /** Showing is idempotent, and on a visible cell it changes nothing. */
  lemma ShowIdempotent(c: Cell)
    ensures Show(Show(c)) == Show(c)
    ensures c.visible ==> Show(c) == c
  {
  }

  /** How a square may change while the game is played: its position, mine and flag stay, and once
      visible it stays visible with the same count. */
  predicate Kept(before: Cell, after: Cell) {
    after.x == before.x && after.y == before.y &&
    after.hasMine == before.hasMine && after.flagged == before.flagged &&
    (before.visible ==> after.visible && after.minedNeighbors == before.minedNeighbors)
  }

  function Bit(b: bool): nat {
    if b then 1 else 0
  }

  /** The number of mined cells in cs. */
  function MineCount(cs: seq<Cell>): nat {
    if cs == [] then 0 else MineCount(cs[..|cs| - 1]) + Bit(cs[|cs| - 1].hasMine)
  }

  /** The mine count is at most the number of cells, and zero exactly when none of them is mined. */
  lemma {:induction false} MineCountZero(cs: seq<Cell>)
    ensures MineCount(cs) <= |cs|
    ensures MineCount(cs) == 0 <==> forall k :: 0 <= k < |cs| ==> !cs[k].hasMine
    decreases |cs|
  {
    if cs != [] {
      var front := cs[..|cs| - 1];
      MineCountZero(front);
      assert forall k :: 0 <= k < |front| ==> front[k] == cs[k];
    }
  }

  /** The mine count of two lists one after the other is the sum of their counts. */
  lemma {:induction false} MineCountAppend(s: seq<Cell>, t: seq<Cell>)
    ensures MineCount(s + t) == MineCount(s) + MineCount(t)
    decreases |t|
  {
    if t == [] {
      assert s + t == s;
    } else {
      MineCountAppend(s, t[..|t| - 1]);
      assert (s + t)[..|s + t| - 1] == s + t[..|t| - 1];
    }
  }

  /** A quantity the board tallies over all of its cells. */
  datatype Tally = HiddenCells | MinedCells | HiddenSafeCells

  predicate Tallied(t: Tally, c: Cell) {
    match t
    case HiddenCells => !c.visible
    case MinedCells => c.hasMine
    case HiddenSafeCells => !c.visible && !c.hasMine
  }

  /** The arguments of the two-state tally lemmas, bundled in one value: the tally t over an initial
      part of length n of a row or of the rows of the grid, and the one cell (x, y) that a step of
      play may have changed; a cell outside that part means that no cell of it changed. (In Dafny
      4.11, calling a two-state lemma that takes several parameters makes the solver reject the
      generated query when contradictory assumptions are being checked, so these lemmas take this
      single value.) */
  datatype Scan = Scan(t: Tally, x: int, y: int, n: int)

  /** The state of the neighbourhood scan of (x, y) after a full turns of its outer loop and b of
      the inner one, bundled as the single argument of a two-state lemma for the same reason as Scan. */
  datatype Sweep = Sweep(x: int, y: int, a: nat, b: nat)

  /** A columns × rows grid of cells, cells[x, y], updated in place, and the state of the game played on it. */
  class Board {
    const columns: nat
    const rows: nat
    const mines: nat
    const cells: array2<Cell>
    var gameState: GameState

    /** The grid has been laid out: it has the board's shape and every cell carries its own position. */
    ghost predicate Valid()
      reads cells
    {
      cells.Length0 == columns && cells.Length1 == rows &&
      forall i, j :: 0 <= i < columns && 0 <= j < rows ==> cells[i, j].x == i && cells[i, j].y == j
    }

    // ---------------------------------------------------------------------------------------
    // Tallies over the grid, in the order the counting loop visits it (row by row)

    /** How many of the cells (0, y), ..., (n-1, y) are tallied by t. */
    ghost function CountRow(t: Tally, y: int, n: int): (r: nat)
      requires Valid() && 0 <= y < rows && 0 <= n <= columns
      reads cells
      ensures r <= n
      decreases n
    {
      if n == 0 then 0 else CountRow(t, y, n - 1) + Bit(Tallied(t, cells[n - 1, y]))
    }

    /** How many cells of rows 0, ..., m-1 are tallied by t. */
    ghost function CountRows(t: Tally, m: int): (r: nat)
      requires Valid() && 0 <= m <= rows
      reads cells
      ensures r <= m * columns
      decreases m
    {
      if m == 0 then 0 else CountRows(t, m - 1) + CountRow(t, m - 1, columns)
    }

    ghost function Count(t: Tally): nat
      requires Valid()
      reads cells
    {
      CountRows(t, rows)
    }

    /** The positions of the cells (0, y), ..., (n-1, y) that t tallies. */
    ghost function TalliedRow(t: Tally, y: int, n: int): set<Pos>
      requires Valid() && 0 <= y < rows && 0 <= n <= columns
      reads cells
    {
      set i | 0 <= i < n && Tallied(t, cells[i, y]) :: (i, y)
    }

    /** The positions of the cells of rows 0, ..., m-1 that t tallies. */
    ghost function TalliedRows(t: Tally, m: int): set<Pos>
      requires Valid() && 0 <= m <= rows
      reads cells
    {
      set i, j | 0 <= i < columns && 0 <= j < m && Tallied(t, cells[i, j]) :: (i, j)
    }

    // ---------------------------------------------------------------------------------------
    // The neighbourhood

    /** The cell at (i, j) as a one-element list, or nothing when (i, j) is off the board. */
    ghost function CellAt(i: int, j: int): seq<Cell>
      requires Valid()
      reads cells
    {
      if InBounds(columns, rows, (i, j)) then [cells[i, j]] else []
    }

    /** The cells the neighbourhood scan of (x, y) has collected after a full turns of its outer
        loop (columns x-1 .. x-2+a) and b turns of the inner loop of the next one (rows y-1 .. y-2+b). */
    ghost function ScanCells(x: int, y: int, a: nat, b: nat): seq<Cell>
      requires Valid() && 3 * a + b <= 9 && b <= 3
      reads cells
      decreases a, b
    {
      if b == 0 then (if a == 0 then [] else ScanCells(x, y, a - 1, 3))
      else ScanCells(x, y, a, b - 1) + CellAt(x - 1 + a, y - 2 + b)
    }

    /** The neighbourhood of (x, y): the cells of its 3×3 block that lie on the board, the cell
        itself included, in scan order. */
    ghost function Neighbors(x: int, y: int): seq<Cell>
      requires Valid()
      reads cells
    {
      ScanCells(x, y, 3, 0)
    }

    /** 1 when (i, j) is on the board and holds a mine, 0 otherwise. */
    ghost function MineAt(i: int, j: int): nat
      requires Valid()
      reads cells
    {
      if InBounds(columns, rows, (i, j)) && cells[i, j].hasMine then 1 else 0
    }

    /** The number of mined cells in the 3×3 block around (x, y), the cell itself included, cell by
        cell. */
    ghost function BlockMines(x: int, y: int): nat
      requires Valid()
      reads cells
    {
      MineAt(x - 1, y - 1) + MineAt(x - 1, y) + MineAt(x - 1, y + 1) +
      MineAt(x, y - 1) + MineAt(x, y) + MineAt(x, y + 1) +
      MineAt(x + 1, y - 1) + MineAt(x + 1, y) + MineAt(x + 1, y + 1)
    }

    /** The number of mines the counting loop finds among the neighbourhood of (x, y); by
        NeighborsMineCount this is BlockMines(x, y). */
    ghost function NeighborMines(x: int, y: int): nat
      requires Valid()
      reads cells
    {
      MineCount(Neighbors(x, y))
    }

    ghost predicate AllVisible()
      requires Valid()
      reads cells
    {
      forall i, j :: 0 <= i < columns && 0 <= j < rows ==> cells[i, j].visible
    }

    /** Every unflagged cell of the block around (x, y) is visible. */
    ghost predicate NeighborsShown(x: int, y: int)
      requires Valid()
      reads cells
    {
      forall i, j :: InBounds(columns, rows, (i, j)) && Adjacent((i, j), (x, y)) && !cells[i, j].flagged ==>
        cells[i, j].visible
    }

    /** Every visible cell shows the number of mines in its block. */
    ghost predicate CountsCorrect()
      requires Valid()
      reads cells
    {
      forall i, j {:trigger NeighborMines(i, j)} ::
        0 <= i < columns && 0 <= j < rows && cells[i, j].visible ==> cells[i, j].minedNeighbors == NeighborMines(i, j)
    }

    /** No mined cell is visible. */
    ghost predicate NoMineShowing()
      requires Valid()
      reads cells
    {
      forall i, j :: 0 <= i < columns && 0 <= j < rows && cells[i, j].hasMine ==> !cells[i, j].visible
    }

    /** Every cell without a mine is visible. */
    ghost predicate SafeCleared()
      requires Valid()
      reads cells
    {
      forall i, j :: 0 <= i < columns && 0 <= j < rows && !cells[i, j].hasMine ==> cells[i, j].visible
    }

    // ---------------------------------------------------------------------------------------
    // How the grid may change during play

    /** Every cell was Kept: no mine and no flag has changed, no cell was hidden again, and a
        visible cell kept its count. */
    twostate predicate Grew()
      requires old(Valid()) && Valid()
      reads cells
    {
      forall i, j :: 0 <= i < columns && 0 <= j < rows ==> Kept(old(cells[i, j]), cells[i, j])
    }

    /** No cell has changed at all. */
    twostate predicate Untouched()
      requires old(Valid()) && Valid()
      reads cells
    {
      forall i, j :: 0 <= i < columns && 0 <= j < rows ==> cells[i, j] == old(cells[i, j])
    }

    /** No cell other than (x, y) has changed. */
    twostate predicate OnlyChanged(x: int, y: int)
      requires old(Valid()) && Valid()
      reads cells
    {
      forall i, j :: 0 <= i < columns && 0 <= j < rows && (i, j) != (x, y) ==> cells[i, j] == old(cells[i, j])
    }

    /** Every cell other than (x, y) that was flagged and hidden is still hidden. */
    twostate predicate FlagsHeld(x: int, y: int)
      requires old(Valid()) && Valid()
      reads cells
    {
      forall i, j :: 0 <= i < columns && 0 <= j < rows && (i, j) != (x, y) && old(cells[i, j].flagged && !cells[i, j].visible) ==>
        !cells[i, j].visible
    }

    /** Every cell other than (x, y) that has been revealed is free of mines. */
    twostate predicate RevealedSafe(x: int, y: int)
      requires old(Valid()) && Valid()
      reads cells
    {
      forall i, j :: 0 <= i < columns && 0 <= j < rows && (i, j) != (x, y) && cells[i, j].visible && !old(cells[i, j].visible) ==>
        !cells[i, j].hasMine
    }

    /** The game state is unchanged, or it has become won, which the win check only does once the
        hidden count is down to the number of mines (and that count never grows back). */
    twostate predicate KeptOrWon()
      requires Valid()
      reads this, cells
    {
      gameState == old(gameState) || (gameState == Won && Count(HiddenCells) <= mines)
    }

    // ---------------------------------------------------------------------------------------
    // Set-up

    /** A board that has not been laid out yet: its grid holds placeholder cells. */
    constructor (columns: nat, rows: nat, mines: nat)
      ensures this.columns == columns && this.rows == rows && this.mines == mines
      ensures cells.Length0 == columns && cells.Length1 == rows && fresh(cells)
      ensures gameState == NotStarted
    {
      this.columns := columns;
      this.rows := rows;
      this.mines := mines;
      cells := new Cell[columns, rows]((i, j) => Cell(0, 0, false, false, false, 0));
      gameState := NotStarted;
    }

    /** Lays out a grid of fresh cells, places the board's mines at the first suitable positions of
        picks (the random draws), and starts the game. */
    method Initialize(picks: seq<Pos>) returns (left: nat, used: nat)
      requires cells.Length0 == columns && cells.Length1 == rows
      requires forall k :: 0 <= k < |picks| ==> InBounds(columns, rows, picks[k])
      modifies this, cells
      ensures Valid()
      ensures forall i, j :: 0 <= i < columns && 0 <= j < rows ==>
                !cells[i, j].flagged && !cells[i, j].visible && cells[i, j].minedNeighbors == 0
      ensures left <= mines && used <= |picks| && (left == 0 || used == |picks|)
      ensures forall i, j :: 0 <= i < columns && 0 <= j < rows && cells[i, j].hasMine ==> (i, j) in picks[..used]
      ensures forall k :: 0 <= k < used ==> InBounds(columns, rows, picks[k]) && cells[picks[k].0, picks[k].1].hasMine
      ensures Count(MinedCells) == mines - left
      ensures mines <= |Drawn(picks)| ==> left == 0 && Count(MinedCells) == mines
      ensures NoMineShowing() && CountsCorrect()
      ensures gameState == Running
    {
      for y := 0 to rows
        invariant forall i, j :: 0 <= i < columns && 0 <= j < y ==> cells[i, j] == Cell(i, j, false, false, false, 0)
      {
        for x := 0 to columns
          invariant forall i, j :: 0 <= i < columns && 0 <= j < y ==> cells[i, j] == Cell(i, j, false, false, false, 0)
          invariant forall i :: 0 <= i < x ==> cells[i, y] == Cell(i, y, false, false, false, 0)
        {
          cells[x, y] := Cell(x, y, false, false, false, 0);
        }
      }
      CountZero(MinedCells);
      left, used := GenerateMines(mines, picks);
      if left > 0 {
        DrawsMined(picks);
      }
      gameState := Running;
    }

    /** Places count mines, trying the positions of picks in order and skipping any that already
        holds a mine. Returns how many mines were not placed and how many picks were consumed: every
        consumed pick holds a mine afterwards, and when all mines were placed the last consumed pick
        is the one that received the last mine. */
    method GenerateMines(count: nat, picks: seq<Pos>) returns (left: nat, used: nat)
      requires Valid()
      requires forall k :: 0 <= k < |picks| ==> InBounds(columns, rows, picks[k])
      modifies cells
      ensures Valid()
      ensures left <= count && used <= |picks| && (left == 0 || used == |picks|)
      ensures Count(MinedCells) == old(Count(MinedCells)) + (count - left)
      ensures forall i, j :: 0 <= i < columns && 0 <= j < rows ==>
                cells[i, j] == old(cells[i, j]).(hasMine := cells[i, j].hasMine) &&
                (old(cells[i, j].hasMine) ==> cells[i, j].hasMine) &&
                (cells[i, j].hasMine && !old(cells[i, j].hasMine) ==> (i, j) in picks[..used])
      ensures forall k :: 0 <= k < used ==> InBounds(columns, rows, picks[k]) && cells[picks[k].0, picks[k].1].hasMine
      ensures left == 0 && count > 0 ==>
                0 < used && InBounds(columns, rows, picks[used - 1]) &&
                !old(cells[picks[used - 1].0, picks[used - 1].1].hasMine) && picks[used - 1] !in picks[..used - 1]
      ensures count == 0 ==> used == 0
    {
      left, used := count, 0;
      while left > 0 && used < |picks|
        invariant Valid()
        invariant left <= count && used <= |picks|
        invariant Count(MinedCells) == old(Count(MinedCells)) + (count - left)
        invariant forall i, j :: 0 <= i < columns && 0 <= j < rows ==>
                    cells[i, j] == old(cells[i, j]).(hasMine := cells[i, j].hasMine) &&
                    (old(cells[i, j].hasMine) ==> cells[i, j].hasMine) &&
                    (cells[i, j].hasMine && !old(cells[i, j].hasMine) ==> (i, j) in picks[..used])
        invariant forall k :: 0 <= k < used ==> InBounds(columns, rows, picks[k]) && cells[picks[k].0, picks[k].1].hasMine
        invariant left == 0 && count > 0 ==>
                    0 < used && InBounds(columns, rows, picks[used - 1]) &&
                    !old(cells[picks[used - 1].0, picks[used - 1].1].hasMine) && picks[used - 1] !in picks[..used - 1]
        invariant count == 0 ==> used == 0
        decreases |picks| - used
      {
        var p := picks[used];
        var cell := cells[p.0, p.1];
        if !cell.hasMine {
          assert p !in picks[..used];
          label Placing:
          cells[p.0, p.1] := cell.(hasMine := true);
          CountRowsFlip@Placing(Scan(MinedCells, p.0, p.1, rows));
          left := left - 1;
        }
        used := used + 1;
      }
    }

    // ---------------------------------------------------------------------------------------
    // Queries

    /** The cells of the 3×3 block around (x, y) that lie on the board, in scan order. */
    method GetNeighbors(x: int, y: int) returns (neighbors: seq<Cell>)
      requires Valid()
      ensures neighbors == Neighbors(x, y)
    {
      neighbors := [];
      for i := x - 1 to x + 2
        invariant neighbors == ScanCells(x, y, i - x + 1, 0)
      {
        for j := y - 1 to y + 2
          invariant neighbors == ScanCells(x, y, i - x + 1, j - y + 1)
        {
          if 0 <= i && 0 <= j && i < columns && j < rows {
            neighbors := neighbors + [cells[i, j]];
          }
        }
      }
    }

    /** The number of cells that are not visible. */
    method CountHiddenCells() returns (count: nat)
      requires Valid()
      ensures count == Count(HiddenCells)
      ensures count <= columns * rows
    {
      count := 0;
      for y := 0 to rows
        invariant count == CountRows(HiddenCells, y)
      {
        for x := 0 to columns
          invariant count == CountRows(HiddenCells, y) + CountRow(HiddenCells, y, x)
        {
          if !cells[x, y].visible {
            count := count + 1;
          }
        }
      }
    }

    // ---------------------------------------------------------------------------------------
    // Moves

    /** Declares the game won when exactly as many cells are hidden as the board has mines. */
    method CheckWinCondition()
      requires Valid()
      modifies this
      ensures gameState == (if Count(HiddenCells) == mines then Won else old(gameState))
    {
      var hiddenCells := CountHiddenCells();
      if hiddenCells == mines {
        gameState := Won;
      }
    }

    /** A left click on (x, y): nothing on a flagged or visible cell, the loss on a mine,
        otherwise the reveal of the cell (with its cascade) followed by the win check. */
    method LeftClick(x: int, y: int)
      requires Valid() && InBounds(columns, rows, (x, y))
      modifies this, cells
      decreases Count(HiddenCells), 2
      ensures Valid() && Grew() && Count(HiddenCells) <= old(Count(HiddenCells))
      ensures old(CountsCorrect()) ==> CountsCorrect()
      ensures old(cells[x, y].flagged || cells[x, y].visible) ==> Untouched() && gameState == old(gameState)
      ensures !cells[x, y].flagged ==> cells[x, y].visible
      ensures old(!cells[x, y].flagged && !cells[x, y].visible && cells[x, y].hasMine) ==>
                AllVisible() && (gameState == Lost || gameState == Won)
      ensures old(!cells[x, y].flagged && !cells[x, y].visible && !cells[x, y].hasMine) ==>
                cells[x, y].minedNeighbors == old(NeighborMines(x, y)) &&
                (cells[x, y].minedNeighbors == 0 ==> NeighborsShown(x, y)) &&
                (cells[x, y].minedNeighbors != 0 ==>
                   OnlyChanged(x, y) && gameState == (if Count(HiddenCells) == mines then Won else old(gameState))) &&
                (Count(HiddenCells) == mines ==> gameState == Won) &&
                KeptOrWon() && FlagsHeld(x, y) && RevealedSafe(x, y)
      ensures old(!cells[x, y].flagged && !cells[x, y].visible && !cells[x, y].hasMine && NoMineShowing()) ==>
                NoMineShowing()
      ensures old(!cells[x, y].flagged && !cells[x, y].visible && !cells[x, y].hasMine && NoMineShowing()) &&
              old(Count(MinedCells)) == mines ==>
                (gameState == Won <==> old(gameState) == Won || SafeCleared())
    {
      var cell := cells[x, y];
      if !(cell.flagged || cell.visible) {
        if cell.hasMine {
          gameState := Lost;
          ShowAll();
        } else {
          CheckNeighbors(x, y);
          CheckWinCondition();
          if old(NoMineShowing()) {
            assert NoMineShowing();
            if old(Count(MinedCells)) == mines {
              WinTest();
            }
          }
        }
      }
    }

    /** A right click on (x, y): clears a flag, or flags a hidden cell; a visible cell is left alone. */
    method RightClick(x: int, y: int)
      requires Valid() && InBounds(columns, rows, (x, y))
      modifies cells
      ensures Valid()
      ensures cells[x, y] == old(cells[x, y]).(flagged := cells[x, y].flagged)
      ensures cells[x, y].flagged == (if old(cells[x, y].flagged) then false else !cells[x, y].visible)
      ensures forall i, j :: 0 <= i < columns && 0 <= j < rows && (i, j) != (x, y) ==> cells[i, j] == old(cells[i, j])
      ensures old(CountsCorrect()) ==> CountsCorrect()
    {
      var cell := cells[x, y];
      if cell.flagged {
        cells[x, y] := cell.(flagged := false);
      } else if !cell.visible {
        cells[x, y] := cell.(flagged := true);
      }
      SameMines();
    }

    /** The counting loop of the reveal step: how many of the listed cells hold a mine. */
    static method CountMines(neighbors: seq<Cell>) returns (minesFound: nat)
      ensures minesFound == MineCount(neighbors)
    {
      minesFound := 0;
      for i := 0 to |neighbors|
        invariant minesFound == MineCount(neighbors[..i])
      {
        assert neighbors[..i + 1][..i] == neighbors[..i];
        if neighbors[i].hasMine {
          minesFound := minesFound + 1;
        }
      }
      assert neighbors[..|neighbors|] == neighbors;
    }

    /** Reveals a hidden cell after recording how many mines its block holds; when there are none,
        left-clicks every cell of the block, which spreads the reveal. */
    method CheckNeighbors(x: int, y: int)
      requires Valid() && InBounds(columns, rows, (x, y))
      modifies this, cells
      decreases Count(HiddenCells), 0
      ensures Valid() && Grew() && Count(HiddenCells) <= old(Count(HiddenCells)) && cells[x, y].visible
      ensures old(CountsCorrect()) ==> CountsCorrect()
      ensures old(cells[x, y].visible) ==> Untouched() && gameState == old(gameState)
      ensures !old(cells[x, y].visible) ==>
                Count(HiddenCells) < old(Count(HiddenCells)) &&
                cells[x, y].minedNeighbors == old(NeighborMines(x, y)) &&
                (cells[x, y].minedNeighbors == 0 ==> NeighborsShown(x, y)) &&
                (cells[x, y].minedNeighbors != 0 ==> OnlyChanged(x, y) && gameState == old(gameState))
      ensures KeptOrWon() && FlagsHeld(x, y) && RevealedSafe(x, y)
    {
      var neighbors := GetNeighbors(x, y);
      var cell := cells[x, y];
      if !cell.visible {
        NeighborsListed(x, y, neighbors);
        var minesFound := CountMines(neighbors);
        cells[x, y] := Show(cell.(minedNeighbors := minesFound));
        Revealed((x, y));
        if minesFound == 0 {
          MineCountZero(neighbors);
          Cascade(x, y, neighbors);
        }
      }
    }

    /** The click sent to every cell listed in neighbors, the on-board block around (x, y), after
        (x, y) was revealed with no mine around it. */
    method Cascade(x: int, y: int, neighbors: seq<Cell>)
      requires Valid() && InBounds(columns, rows, (x, y))
      requires forall k :: 0 <= k < |neighbors| ==>
                 InBounds(columns, rows, neighbors[k].Position()) && !cells[neighbors[k].x, neighbors[k].y].hasMine
      requires forall i, j :: InBounds(columns, rows, (i, j)) && Adjacent((i, j), (x, y)) ==>
                 exists k :: 0 <= k < |neighbors| && neighbors[k].Position() == (i, j)
      modifies this, cells
      decreases Count(HiddenCells), 3
      ensures Valid() && Grew() && Count(HiddenCells) <= old(Count(HiddenCells))
      ensures old(CountsCorrect()) ==> CountsCorrect()
      ensures NeighborsShown(x, y)
      ensures KeptOrWon() && FlagsHeld(x, y) && RevealedSafe(x, y)
    {
      for i := 0 to |neighbors|
        invariant Valid() && Grew() && Count(HiddenCells) <= old(Count(HiddenCells))
        invariant old(CountsCorrect()) ==> CountsCorrect()
        invariant KeptOrWon() && FlagsHeld(x, y) && RevealedSafe(x, y)
        invariant forall k :: 0 <= k < |neighbors| ==> !cells[neighbors[k].x, neighbors[k].y].hasMine
        invariant forall k :: 0 <= k < i && !cells[neighbors[k].x, neighbors[k].y].flagged ==>
                    cells[neighbors[k].x, neighbors[k].y].visible
      {
        LeftClick(neighbors[i].x, neighbors[i].y);
      }
      forall i, j | InBounds(columns, rows, (i, j)) && Adjacent((i, j), (x, y)) && !cells[i, j].flagged
        ensures cells[i, j].visible
      {
        var k :| 0 <= k < |neighbors| && neighbors[k].Position() == (i, j);
      }
    }

    /** Runs the reveal step on every cell of the board, row by row. */
    method ShowAll()
      requires Valid()
      modifies this, cells
      decreases Count(HiddenCells), 1
      ensures Valid() && Grew() && Count(HiddenCells) <= old(Count(HiddenCells))
      ensures old(CountsCorrect()) ==> CountsCorrect()
      ensures AllVisible()
      ensures KeptOrWon()
    {
      for y := 0 to rows
        invariant Valid() && Grew() && Count(HiddenCells) <= old(Count(HiddenCells))
        invariant old(CountsCorrect()) ==> CountsCorrect()
        invariant KeptOrWon()
        invariant forall i, j :: 0 <= i < columns && 0 <= j < y ==> cells[i, j].visible
      {
        for x := 0 to columns
          invariant Valid() && Grew() && Count(HiddenCells) <= old(Count(HiddenCells))
          invariant old(CountsCorrect()) ==> CountsCorrect()
          invariant KeptOrWon()
          invariant forall i, j :: 0 <= i < columns && 0 <= j < y ==> cells[i, j].visible
          invariant forall i :: 0 <= i < x ==> cells[i, y].visible
        {
          CheckNeighbors(x, y);
        }
      }
    }

    // ---------------------------------------------------------------------------------------
    // Lemmas about the moves

    /** The write of the reveal step: when only the hidden cell p changed, and it became visible with
        its block's mine count, no mine or flag changed, one hidden cell fewer remains, and every
        visible cell still shows the right count if it did before. */
    twostate lemma Revealed(p: Pos)
      requires old(Valid()) && Valid() && InBounds(columns, rows, p)
      requires OnlyChanged(p.0, p.1) && !old(cells[p.0, p.1].visible)
      requires cells[p.0, p.1] == old(cells[p.0, p.1]).(visible := true, minedNeighbors := old(NeighborMines(p.0, p.1)))
      ensures Grew() && FlagsHeld(p.0, p.1) && RevealedSafe(p.0, p.1)
      ensures Count(HiddenCells) + 1 == old(Count(HiddenCells))
      ensures old(CountsCorrect()) ==> CountsCorrect()
    {
      CountRowsFlip(Scan(HiddenCells, p.0, p.1, rows));
      SameMines();
    }

    /** Between the two states, the board kept its shape and no cell gained or lost a mine. */
    twostate predicate MinesKept()
      reads this, cells
    {
      old(Valid()) && Valid() &&
      forall i, j :: 0 <= i < columns && 0 <= j < rows ==> cells[i, j].hasMine == old(cells[i, j].hasMine)
    }

    /** Mine counts depend on the mines alone: when no cell gained or lost a mine, every block
        holds as many mines as before. */
    twostate lemma SameMines()
      requires old(Valid()) && Valid()
      requires forall i, j :: 0 <= i < columns && 0 <= j < rows ==> cells[i, j].hasMine == old(cells[i, j].hasMine)
      ensures forall i, j :: NeighborMines(i, j) == old(NeighborMines(i, j))
    {
      forall i, j
        ensures NeighborMines(i, j) == old(NeighborMines(i, j))
      {
        ScanMines(Sweep(i, j, 3, 0));
      }
    }

    /** The cell at p, if any, holds as many mines as before, when no cell gained or lost a mine. */
    twostate lemma CellMines(p: Pos)
      requires MinesKept()
      ensures MineCount(CellAt(p.0, p.1)) == old(MineCount(CellAt(p.0, p.1)))
    {
      if InBounds(columns, rows, p) {
        var now, before := CellAt(p.0, p.1), old(CellAt(p.0, p.1));
        assert now[..0] == [] && before[..0] == [];
      }
    }

    /** Part way through, the scan has met as many mines as it did before, when no cell gained or
        lost a mine. */
    twostate lemma {:induction false} ScanMines(w: Sweep)
      requires MinesKept() && 3 * w.a + w.b <= 9 && w.b <= 3
      ensures MineCount(ScanCells(w.x, w.y, w.a, w.b)) == old(MineCount(ScanCells(w.x, w.y, w.a, w.b)))
      decreases w.a, w.b
    {
      if w.b == 0 {
        if w.a > 0 {
          ScanMines(Sweep(w.x, w.y, w.a - 1, 3));
        }
      } else {
        ScanMines(w.(b := w.b - 1));
        ScanStep(w);
      }
    }

    /** One step of the scan adds as many mines as before, when no cell gained or lost a mine. */
    twostate lemma ScanStep(w: Sweep)
      requires MinesKept() && 3 * w.a + w.b <= 9 && 1 <= w.b <= 3
      requires MineCount(ScanCells(w.x, w.y, w.a, w.b - 1)) == old(MineCount(ScanCells(w.x, w.y, w.a, w.b - 1)))
      ensures MineCount(ScanCells(w.x, w.y, w.a, w.b)) == old(MineCount(ScanCells(w.x, w.y, w.a, w.b)))
    {
      var p := (w.x - 1 + w.a, w.y - 2 + w.b);
      var front, now := ScanCells(w.x, w.y, w.a, w.b - 1), CellAt(p.0, p.1);
      var front', before := old(ScanCells(w.x, w.y, w.a, w.b - 1)), old(CellAt(p.0, p.1));
      assert ScanCells(w.x, w.y, w.a, w.b) == front + now;
      assert old(ScanCells(w.x, w.y, w.a, w.b)) == front' + before;
      CellMines(p);
      MineCountAppend(front, now);
      MineCountAppend(front', before);
    }

    /** After a safe click on a board holding the configured number of mines, none of them showing:
        the game is won exactly when it already was or every safe cell has been revealed. */
    twostate lemma WinTest()
      requires old(Valid()) && Valid() && Grew() && KeptOrWon()
      requires old(NoMineShowing()) && NoMineShowing() && old(Count(MinedCells)) == mines
      requires Count(HiddenCells) == mines ==> gameState == Won
      ensures gameState == Won <==> old(gameState) == Won || SafeCleared()
    {
      CountSame(MinedCells);
      CountRowsSplit(rows);
      WinMeansCleared();
    }

    // ---------------------------------------------------------------------------------------
    // Lemmas about the tallies

    lemma {:induction false} CountRowZero(t: Tally, y: int, n: int)
      requires Valid() && 0 <= y < rows && 0 <= n <= columns
      ensures CountRow(t, y, n) == 0 <==> forall i :: 0 <= i < n ==> !Tallied(t, cells[i, y])
      decreases n
    {
      if n > 0 {
        CountRowZero(t, y, n - 1);
      }
    }

    lemma {:induction false} CountRowsZero(t: Tally, m: int)
      requires Valid() && 0 <= m <= rows
      ensures CountRows(t, m) == 0 <==>
                forall i, j :: 0 <= i < columns && 0 <= j < m ==> !Tallied(t, cells[i, j])
      decreases m
    {
      if m > 0 {
        CountRowsZero(t, m - 1);
        CountRowZero(t, m - 1, columns);
      }
    }

    /** A tally is zero exactly when no cell is tallied. */
    lemma CountZero(t: Tally)
      requires Valid()
      ensures Count(t) == 0 <==> forall i, j :: 0 <= i < columns && 0 <= j < rows ==> !Tallied(t, cells[i, j])
    {
      CountRowsZero(t, rows);
    }

    lemma {:induction false} CountRowCard(t: Tally, y: int, n: int)
      requires Valid() && 0 <= y < rows && 0 <= n <= columns
      ensures CountRow(t, y, n) == |TalliedRow(t, y, n)|
      decreases n
    {
      if n > 0 {
        CountRowCard(t, y, n - 1);
        var front := TalliedRow(t, y, n - 1);
        assert (n - 1, y) !in front;
        if Tallied(t, cells[n - 1, y]) {
          assert TalliedRow(t, y, n) == front + {(n - 1, y)};
        } else {
          assert TalliedRow(t, y, n) == front;
        }
      }
    }

    lemma {:induction false} CountRowsCard(t: Tally, m: int)
      requires Valid() && 0 <= m <= rows
      ensures CountRows(t, m) == |TalliedRows(t, m)|
      decreases m
    {
      if m > 0 {
        CountRowsCard(t, m - 1);
        CountRowCard(t, m - 1, columns);
        var front := TalliedRows(t, m - 1);
        var row := TalliedRow(t, m - 1, columns);
        assert TalliedRows(t, m) == front + row;
        assert front * row == {};
      }
    }

    /** Count(t) is the number of positions whose cell t tallies. */
    lemma CountCard(t: Tally)
      requires Valid()
      ensures Count(t) == |set i, j | 0 <= i < columns && 0 <= j < rows && Tallied(t, cells[i, j]) :: (i, j)|
    {
      CountRowsCard(t, rows);
    }

    /** When every drawn position holds a mine, the board holds at least as many mines as there are
        distinct draws. */
    lemma DrawsMined(picks: seq<Pos>)
      requires Valid()
      requires forall k :: 0 <= k < |picks| ==>
                 InBounds(columns, rows, picks[k]) && cells[picks[k].0, picks[k].1].hasMine
      ensures |Drawn(picks)| <= Count(MinedCells)
    {
      var mined := set i, j | 0 <= i < columns && 0 <= j < rows && Tallied(MinedCells, cells[i, j]) :: (i, j);
      CountCard(MinedCells);
      assert Drawn(picks) <= mined by {
        forall p | p in Drawn(picks)
          ensures p in mined
        {
          var k :| 0 <= k < |picks| && picks[k] == p;
          assert Tallied(MinedCells, cells[p.0, p.1]);
        }
      }
      assert mined == Drawn(picks) + (mined - Drawn(picks));
    }

    lemma {:induction false} CountRowSplit(y: int, n: int)
      requires Valid() && 0 <= y < rows && 0 <= n <= columns
      requires forall i :: 0 <= i < n && cells[i, y].hasMine ==> !cells[i, y].visible
      ensures CountRow(HiddenCells, y, n) == CountRow(MinedCells, y, n) + CountRow(HiddenSafeCells, y, n)
      decreases n
    {
      if n > 0 {
        CountRowSplit(y, n - 1);
      }
    }

    lemma {:induction false} CountRowsSplit(m: int)
      requires Valid() && 0 <= m <= rows
      requires forall i, j :: 0 <= i < columns && 0 <= j < m && cells[i, j].hasMine ==> !cells[i, j].visible
      ensures CountRows(HiddenCells, m) == CountRows(MinedCells, m) + CountRows(HiddenSafeCells, m)
      decreases m
    {
      if m > 0 {
        CountRowsSplit(m - 1);
        CountRowSplit(m - 1, columns);
      }
    }

    /** The win test is sound and complete: while no mine is showing and the board holds exactly
        its configured number of mines, the hidden count equals that number exactly when every
        safe cell has been revealed. */
    lemma WinMeansCleared()
      requires Valid() && Count(MinedCells) == mines && NoMineShowing()
      ensures Count(HiddenCells) >= mines
      ensures Count(HiddenCells) == mines <==> SafeCleared()
    {
      CountRowsSplit(rows);
      CountZero(HiddenSafeCells);
    }

    /** When only the cell (s.x, s.y) may have changed, the tally s.t over the first s.n cells of
        row s.y moves by that cell's contribution alone; when s.x lies outside 0 .. s.n-1 it stays the same. */
    twostate lemma {:induction false} CountRowFlip(s: Scan)
      requires old(Valid()) && Valid()
      requires 0 <= s.y < rows && 0 <= s.n <= columns
      requires forall i :: 0 <= i < s.n && i != s.x ==> Tallied(s.t, cells[i, s.y]) == old(Tallied(s.t, cells[i, s.y]))
      ensures CountRow(s.t, s.y, s.n) + Bit(0 <= s.x < s.n && old(Tallied(s.t, cells[s.x, s.y]))) ==
              old(CountRow(s.t, s.y, s.n)) + Bit(0 <= s.x < s.n && Tallied(s.t, cells[s.x, s.y]))
      decreases s.n
    {
      if s.n > 0 {
        CountRowFlip(s.(n := s.n - 1));
      }
    }

    /** When only the cell (s.x, s.y) may have changed, the tally s.t over rows 0 .. s.n-1 moves by
        that cell's contribution alone; with s.n == rows this is the whole board's Count(s.t). */
    twostate lemma {:induction false} CountRowsFlip(s: Scan)
      requires old(Valid()) && Valid()
      requires 0 <= s.n <= rows
      requires forall i, j :: 0 <= i < columns && 0 <= j < s.n && (i, j) != (s.x, s.y) ==>
                 Tallied(s.t, cells[i, j]) == old(Tallied(s.t, cells[i, j]))
      ensures CountRows(s.t, s.n) + Bit(InBounds(columns, rows, (s.x, s.y)) && s.y < s.n && old(Tallied(s.t, cells[s.x, s.y]))) ==
              old(CountRows(s.t, s.n)) + Bit(InBounds(columns, rows, (s.x, s.y)) && s.y < s.n && Tallied(s.t, cells[s.x, s.y]))
      decreases s.n
    {
      if s.n > 0 {
        CountRowsFlip(s.(n := s.n - 1));
        if s.n - 1 == s.y {
          CountRowFlip(Scan(s.t, s.x, s.y, columns));
        } else {
          CountRowFlip(Scan(s.t, columns, s.n - 1, columns));
        }
      }
    }

    /** When no cell changed what the tally t counts, the tally is the same. */
    twostate lemma CountSame(t: Tally)
      requires old(Valid()) && Valid()
      requires forall i, j :: 0 <= i < columns && 0 <= j < rows ==> Tallied(t, cells[i, j]) == old(Tallied(t, cells[i, j]))
      ensures Count(t) == old(Count(t))
    {
      CountRowsFlip(Scan(t, columns, 0, rows));
    }

    // ---------------------------------------------------------------------------------------
    // Lemmas about the neighbourhood

    /** After (a, b) steps the scan holds on-board cells of the block around (x, y), each the cell
        stored at its own position and before the position (x - 1 + a, y - 1 + b) the scan visits next. */
    lemma {:induction false} ScanBounds(x: int, y: int, a: nat, b: nat)
      requires Valid() && 3 * a + b <= 9 && b <= 3
      ensures |ScanCells(x, y, a, b)| <= 3 * a + b
      ensures forall k :: 0 <= k < |ScanCells(x, y, a, b)| ==>
                InBounds(columns, rows, ScanCells(x, y, a, b)[k].Position()) &&
                ScanCells(x, y, a, b)[k] == cells[ScanCells(x, y, a, b)[k].x, ScanCells(x, y, a, b)[k].y] &&
                Adjacent(ScanCells(x, y, a, b)[k].Position(), (x, y)) &&
                Before(ScanCells(x, y, a, b)[k].Position(), (x - 1 + a, y - 1 + b))
      decreases a, b
    {
      if b == 0 {
        if a > 0 {
          ScanBounds(x, y, a - 1, 3);
        }
      } else {
        ScanBounds(x, y, a, b - 1);
        var front := ScanCells(x, y, a, b - 1);
        var r := ScanCells(x, y, a, b);
        assert forall k :: 0 <= k < |front| ==> r[k] == front[k];
      }
    }

    /** The scan collects cells strictly in scan order, so none twice. */
    lemma {:induction false} ScanOrder(x: int, y: int, a: nat, b: nat)
      requires Valid() && 3 * a + b <= 9 && b <= 3
      ensures forall k, l :: 0 <= k < l < |ScanCells(x, y, a, b)| ==>
                Before(ScanCells(x, y, a, b)[k].Position(), ScanCells(x, y, a, b)[l].Position())
      decreases a, b
    {
      if b == 0 {
        if a > 0 {
          ScanOrder(x, y, a - 1, 3);
        }
      } else {
        ScanOrder(x, y, a, b - 1);
        ScanBounds(x, y, a, b - 1);
        var front := ScanCells(x, y, a, b - 1);
        var r := ScanCells(x, y, a, b);
        assert forall k :: 0 <= k < |front| ==> r[k] == front[k];
      }
    }

    /** Every on-board cell of the block around (x, y) that comes before (x - 1 + a, y - 1 + b) has
        been collected after (a, b) steps. */
    lemma {:induction false} ScanComplete(x: int, y: int, a: nat, b: nat)
      requires Valid() && 3 * a + b <= 9 && b <= 3
      ensures forall i, j ::
                InBounds(columns, rows, (i, j)) && Adjacent((i, j), (x, y)) && Before((i, j), (x - 1 + a, y - 1 + b)) ==>
                cells[i, j] in ScanCells(x, y, a, b)
      decreases a, b
    {
      if b == 0 {
        if a > 0 {
          ScanComplete(x, y, a - 1, 3);
        }
      } else {
        ScanComplete(x, y, a, b - 1);
      }
    }

    /** What the neighbourhood scan returns: exactly the on-board cells of the 3×3 block around
        (x, y), the centre included, each once, so at most 9 of them. */
    lemma NeighborsSpec(x: int, y: int)
      requires Valid()
      ensures forall k :: 0 <= k < |Neighbors(x, y)| ==>
                InBounds(columns, rows, Neighbors(x, y)[k].Position()) &&
                Neighbors(x, y)[k] == cells[Neighbors(x, y)[k].x, Neighbors(x, y)[k].y] &&
                Adjacent(Neighbors(x, y)[k].Position(), (x, y))
      ensures forall i, j :: InBounds(columns, rows, (i, j)) && Adjacent((i, j), (x, y)) ==>
                cells[i, j] in Neighbors(x, y)
      ensures forall k, l :: 0 <= k < l < |Neighbors(x, y)| ==> Neighbors(x, y)[k].Position() != Neighbors(x, y)[l].Position()
      ensures |Neighbors(x, y)| <= 9
      ensures InBounds(columns, rows, (x, y)) ==> 1 <= |Neighbors(x, y)|
    {
      ScanBounds(x, y, 3, 0);
      ScanOrder(x, y, 3, 0);
      ScanComplete(x, y, 3, 0);
      if InBounds(columns, rows, (x, y)) {
        assert cells[x, y] in Neighbors(x, y);
      }
    }

    /** The cell at (i, j), if any, contributes exactly MineAt(i, j) mines. */
    lemma CellAtMines(i: int, j: int)
      requires Valid()
      ensures MineCount(CellAt(i, j)) == MineAt(i, j)
    {
      if InBounds(columns, rows, (i, j)) {
        assert CellAt(i, j)[..0] == [];
      }
    }

    /** One column of the scan adds the mines of that column of the block. */
    lemma ScanColumn(x: int, y: int, a: nat)
      requires Valid() && 1 <= a <= 3
      ensures MineCount(ScanCells(x, y, a, 0)) ==
              MineCount(ScanCells(x, y, a - 1, 0)) + MineAt(x - 2 + a, y - 1) + MineAt(x - 2 + a, y) + MineAt(x - 2 + a, y + 1)
    {
      var c := x - 2 + a;
      var s0, s1, s2 := ScanCells(x, y, a - 1, 0), ScanCells(x, y, a - 1, 1), ScanCells(x, y, a - 1, 2);
      assert s1 == s0 + CellAt(c, y - 1);
      assert s2 == s1 + CellAt(c, y);
      assert ScanCells(x, y, a, 0) == s2 + CellAt(c, y + 1);
      CellAtMines(c, y - 1);
      CellAtMines(c, y);
      CellAtMines(c, y + 1);
      MineCountAppend(s0, CellAt(c, y - 1));
      MineCountAppend(s1, CellAt(c, y));
      MineCountAppend(s2, CellAt(c, y + 1));
    }

    /** The counting loop over the scan finds exactly the mines of the 3×3 block. */
    lemma NeighborsMineCount(x: int, y: int)
      requires Valid()
      ensures NeighborMines(x, y) == BlockMines(x, y)
    {
      ScanColumn(x, y, 1);
      ScanColumn(x, y, 2);
      ScanColumn(x, y, 3);
    }

    /** The neighbourhood as the reveal cascade uses it: each entry names an on-board cell and
        carries that cell's mine, and every on-board cell of the block is named by some entry. */
    lemma NeighborsListed(x: int, y: int, neighbors: seq<Cell>)
      requires Valid() && neighbors == Neighbors(x, y)
      ensures forall k :: 0 <= k < |neighbors| ==>
                InBounds(columns, rows, neighbors[k].Position()) &&
                neighbors[k].hasMine == cells[neighbors[k].x, neighbors[k].y].hasMine
      ensures forall i, j :: InBounds(columns, rows, (i, j)) && Adjacent((i, j), (x, y)) ==>
                exists k :: 0 <= k < |neighbors| && neighbors[k].Position() == (i, j)
    {
      NeighborsSpec(x, y);
      forall i, j | InBounds(columns, rows, (i, j)) && Adjacent((i, j), (x, y))
        ensures exists k :: 0 <= k < |neighbors| && neighbors[k].Position() == (i, j)
      {
        var k :| 0 <= k < |neighbors| && neighbors[k] == cells[i, j];
      }
    }
  }
}
