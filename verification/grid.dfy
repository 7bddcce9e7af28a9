/** The game engine of model/Grid.java: a rows x columns array of cells,
    the remaining-flags counter and the number of mines. Updating the
    label of a cell (icon, background) is display only and not modelled;
    the click handlers only change the cells and the counter. */
module Grids {
  import opened Cells
  import opened Boards
  import opened Difficulties

  /** java.awt.Point as the source uses it: x is the column, y the row. */
  datatype Point = Point(x: int, y: int)

  const WIN := 1
  const LOST := -1

  /** The array a holds the board b, b[row][column] == a[row, column]. */
  ghost predicate Mirrors(a: array2<CellState>, b: Board)
    reads a
  {
    a.Length0 > 0 && a.Length1 > 0
    && |b| == a.Length0 && (forall r :: 0 <= r < |b| ==> |b[r]| == a.Length1)
    && forall r, c :: 0 <= r < a.Length0 && 0 <= c < a.Length1 ==> b[r][c] == a[r, c]
  }

  /** A new rows x cols array of new cells, filled row by row. */
  method NewCells(rows: int, cols: int) returns (a: array2<CellState>)
    requires rows > 0 && cols > 0
    ensures fresh(a) && Mirrors(a, FreshBoard(rows, cols))
  {
    a := new CellState[rows, cols];
    for row := 0 to rows
      invariant forall r, c :: 0 <= r < row && 0 <= c < cols ==> a[r, c] == Fresh
    {
      for col := 0 to cols
        invariant forall r, c :: 0 <= r < row && 0 <= c < cols ==> a[r, c] == Fresh
        invariant forall c :: 0 <= c < col ==> a[row, c] == Fresh
      {
        a[row, col] := Fresh;
      }
    }
  }

  class Grid {
    const cells: array2<CellState>
    /** Remaining number of flags. */
    var flags: int
    const minesNb: int
    /** The cells as a board, indexed [row][column]. */
    ghost var board: Board

    /** board is the content of the array. */
    ghost predicate Linked()
      reads this, cells
    {
      Mirrors(cells, board)
    }

    ghost predicate Valid()
      reads this, cells
    {
      Linked() && AllValid(board)
    }

    constructor (difficulty: Difficulty)
      ensures Valid() && fresh(cells)
      ensures board == FreshBoard(difficulty.Rows(), difficulty.Columns())
      ensures minesNb == difficulty.Mines() && flags == minesNb
    {
      var rows, cols := difficulty.Rows(), difficulty.Columns();
      var a := NewCells(rows, cols);
      cells := a;
      minesNb := difficulty.Mines();
      flags := minesNb;
      board := FreshBoard(rows, cols);
    }

    method GetRemainingFlags() returns (n: int)
      ensures n == flags
    {
      return flags;
    }

    method GetRows() returns (n: int)
      requires Linked()
      ensures n == |board|
    {
      return cells.Length0;
    }

    /** The width of row 0. */
    method GetColumns() returns (n: int)
      requires Linked()
      ensures n == |board[0]|
    {
      return cells.Length1;
    }

    /** getNearbyMinesNumber (f = Mines) and getNearbyFlagsNumber
        (f = Flags), read from the array with the source's eight guarded
        terms. */
    function NearbyNumber(row: int, col: int, f: Feature): (n: int)
      reads this, cells
      requires Linked() && InBounds(board, row, col)
      ensures n == Nearby(board, row, col, f)
    {
      var rows, cols := cells.Length0, cells.Length1;
      (if row > 0 then Bit(Has(cells[row - 1, col], f)) else 0)
      + (if col < cols - 1 && row > 0 then Bit(Has(cells[row - 1, col + 1], f)) else 0)
      + (if col < cols - 1 then Bit(Has(cells[row, col + 1], f)) else 0)
      + (if col < cols - 1 && row < rows - 1 then Bit(Has(cells[row + 1, col + 1], f)) else 0)
      + (if row < rows - 1 then Bit(Has(cells[row + 1, col], f)) else 0)
      + (if col > 0 && row < rows - 1 then Bit(Has(cells[row + 1, col - 1], f)) else 0)
      + (if col > 0 then Bit(Has(cells[row, col - 1], f)) else 0)
      + (if col > 0 && row > 0 then Bit(Has(cells[row - 1, col - 1], f)) else 0)
    }

    /** Writes one cell. */
    method Put(r: int, c: int, v: CellState)
      requires Linked() && 0 <= r < cells.Length0 && 0 <= c < cells.Length1
      modifies this`board, cells
      ensures Linked() && board == With(old(board), r, c, v)
    {
      cells[r, c] := v;
      board := With(board, r, c, v);
    }

    /** Places minesNb mines, one at a time, each on a cell that is not yet a
        mine and is not the clicked cell. The random draw is a choice among
        those cells. A revealed one ignores the mine and stays drawable; an
        unrevealed one is used up, so without a revealed one the source
        draws forever unless there are as many of them as mines, hence the
        precondition. */
    method GenerateMines(clickedRow: int, clickedCol: int)
      requires Valid()
      requires minesNb <= |Free(board, clickedRow, clickedCol)| || RevealedFree(board, clickedRow, clickedCol)
      modifies this`board, cells
      ensures Valid()
      ensures SameButMines(old(board), board)
      ensures MinePositions(old(board)) <= MinePositions(board)
      ensures InBounds(board, clickedRow, clickedCol) ==>
        board[clickedRow][clickedCol].mine == old(board)[clickedRow][clickedCol].mine
      ensures NoneClicked(old(board)) ==>
        |MinePositions(board)| == |MinePositions(old(board))| + (if minesNb < 0 then 0 else minesNb)
    {
      ghost var b0 := board;
      PlacedStart(b0, clickedRow, clickedCol);
      var i := 0;
      while i < minesNb
        invariant (0 <= i <= minesNb) || (i == 0 && minesNb < 0)
        invariant Valid() && Placed(b0, board, clickedRow, clickedCol, i)
      {
        ghost var b := board;
        if !RevealedFree(board, clickedRow, clickedCol) {
          assert |Free(board, clickedRow, clickedCol)| > 0;
        }
        ghost var w :| w in Free(board, clickedRow, clickedCol);
        assert !cells[w.0, w.1].mine;
        var row, col :| 0 <= row < cells.Length0 && 0 <= col < cells.Length1
          && !cells[row, col].mine && !(row == clickedRow && col == clickedCol);
        assert (row, col) in Free(board, clickedRow, clickedCol);
        PlacedStep(b0, b, row, col, clickedRow, clickedCol, i);
        Put(row, col, cells[row, col].SetMine(true));
        i := i + 1;
      }
    }

    /** A main click on the cell at p: nothing on a flagged cell; a chord
        (explore all eight neighbours) when as many neighbours are flagged
        as hold mines; otherwise the cell itself is clicked, which loses on
        a mine and floods from a cell without nearby mines. WIN is returned
        only from the chord and from a safe reveal, exactly when the board
        is then won. */
    method PerformMainClick(p: Point) returns (res: int)
      requires Valid() && InBounds(board, p.y, p.x)
      modifies this`board, cells
      ensures Valid() && Grows(old(board), board)
      ensures res == WIN || res == LOST || res == 0
      ensures res != LOST ==> Explores(old(board), board)
      ensures var b0, row, col := old(board), p.y, p.x;
        var cell := b0[row][col];
        var chord := !cell.flagged && NearbyFlags(b0, row, col) == NearbyMines(b0, row, col);
        (cell.flagged ==> res == 0 && board == b0)
        && (chord ==>
              (res == WIN <==> IsVictory(board)) && res != LOST
              && Covered(board, row, col) && MinesOnlyAround(b0, board, row, col)
              && FloodFrom(b0, board, row, col, false, true))
        && (!cell.flagged && !chord && cell.clicked ==> res == 0 && board == b0)
        && (!cell.flagged && !chord && !cell.clicked && cell.mine ==>
              res == LOST && board == With(b0, row, col, cell.(clicked := true)))
        && (!cell.flagged && !chord && !cell.clicked && !cell.mine ==>
              (res == WIN <==> IsVictory(board)) && res != LOST
              && board[row][col].clicked && NoMineRevealed(b0, board)
              && (NearbyMines(b0, row, col) == 0 ==> Covered(board, row, col))
              && (NearbyMines(b0, row, col) != 0 ==> board == With(b0, row, col, cell.(clicked := true)))
              && FloodFrom(b0, board, row, col, true, false))
    {
      ghost var b0 := board;
      var col, row := p.x, p.y;
      var cell := cells[row, col];
      res := 0;
      if !cell.flagged {
        var nearbyMines := NearbyNumber(row, col, Mines);
        if NearbyNumber(row, col, Flags) == nearbyMines {
          ExploreAround(row, col);
          var win := CheckVictory();
          if win {
            res := WIN;
          }
        } else {
          var (next, outcome) := cell.Click(nearbyMines);
          Put(row, col, next);
          ghost var b1 := board;
          if outcome == Returned(Nothing) {
            RevealStep(b0, row, col, nearbyMines);
            GrowsKeeps(b0, b1);
            GrowsKeepsCounts(b0, b1, row, col);
            if nearbyMines == 0 {
              ExploreGrid(row, col, true);
            } else {
              ExploresRefl(b1);
            }
            RevealThenExplore(b0, b1, board, row, col);
            FloodAfterReveal(b0, b1, board, row, col);
            MinesOnlyAtCompose(b0, b1, board, row, col);
            var win := CheckVictory();
            if win {
              res := WIN;
            }
          } else if outcome == Returned(Mine) {
            RevealStep(b0, row, col, nearbyMines);
            GrowsKeeps(b0, b1);
            res := LOST;
          } else {
            WithSame(b0, row, col);
            ExploresRefl(b0);
          }
        }
      } else {
        ExploresRefl(b0);
      }
    }

    /** A secondary click on the cell at p cycles flag, mark and nothing,
        moving the counter as SecondaryClick says. */
    method PerformSecondaryClick(p: Point)
      requires Valid() && InBounds(board, p.y, p.x)
      modifies this, cells
      ensures Valid()
      ensures board == With(old(board), p.y, p.x, SecondaryClick(old(board)[p.y][p.x]).0)
      ensures flags == old(flags) + SecondaryClick(old(board)[p.y][p.x]).1
      ensures !old(board)[p.y][p.x].clicked ==>
        flags + |FlagPositions(board)| == old(flags) + |FlagPositions(old(board))|
    {
      ghost var b0 := board;
      var col, row := p.x, p.y;
      var cell := cells[row, col];
      if cell.flagged {
        Put(row, col, cell.SetMarked(true));
        flags := flags + 1;
      } else if cell.marked {
        Put(row, col, cell.SetMarked(false));
      } else {
        Put(row, col, cell.SetFlagged(true));
        flags := flags - 1;
      }
      if !cell.clicked {
        SecondaryClickBalance(b0, row, col);
      }
    }

    /** exploreGrid: reveals the cell (unless ignoreCenter) and, when it has
        no mine around, explores its eight neighbours. Revealed or flagged
        cells stop the flood, except the centre when ignoreCenter is set. */
    method ExploreGrid(row: int, col: int, ignoreCenter: bool)
      requires Valid() && InBounds(board, row, col)
      modifies this`board, cells
      decreases Unclicked(board), if ignoreCenter then 3 else 0, 0
      ensures Valid() && Explores(old(board), board)
      ensures MinesOnlyAt(old(board), board, row, col)
      ensures ignoreCenter ==> NoMineRevealed(old(board), board)
      ensures !ignoreCenter ==> Settled(board, row, col)
      ensures FloodFrom(old(board), board, row, col, !ignoreCenter, ignoreCenter && NearbyMines(old(board), row, col) == 0)
      ensures var cell := old(board)[row][col];
        (cell.flagged || (!ignoreCenter && cell.clicked) ==> board == old(board))
        && (!cell.flagged && (ignoreCenter || !cell.clicked) && NearbyMines(old(board), row, col) == 0 ==>
              Covered(board, row, col))
    {
      ghost var b0 := board;
      var cell := cells[row, col];
      if (!ignoreCenter && cell.clicked) || cell.flagged {
        ExploresRefl(b0);
        return;
      }
      if !ignoreCenter {
        var mines := NearbyNumber(row, col, Mines);
        Put(row, col, cell.Click(mines).0);
        RevealStep(b0, row, col, mines);
      } else {
        GrowsRefl(b0);
      }
      ghost var b1 := board;
      GrowsKeeps(b0, b1);
      GrowsKeepsCounts(b0, b1, row, col);
      if NearbyNumber(row, col, Mines) == 0 {
        ExploreAround(row, col);
        SafeAroundZero(b1, board, row, col);
      } else {
        ExploresRefl(b1);
      }
      RevealThenExplore(b0, b1, board, row, col);
      MinesOnlyAtCompose(b0, b1, board, row, col);
      if !ignoreCenter {
        FloodAfterReveal(b0, b1, board, row, col);
      }
    }

    /** The eight guarded calls exploreGrid(neighbour, false) that both the
        chord of performMainClick and the flood of exploreGrid make. */
    method ExploreAround(row: int, col: int)
      requires Valid() && InBounds(board, row, col)
      modifies this`board, cells
      decreases Unclicked(board), 2, 0
      ensures Valid() && Explores(old(board), board)
      ensures MinesOnlyAround(old(board), board, row, col)
      ensures FloodFrom(old(board), board, row, col, false, true)
      ensures Covered(board, row, col)
    {
      ghost var b0 := board;
      ProgressStart(b0, row, col);
      ExploreNeighbours(row, col, 0, b0);
      ProgressCovers(b0, board, row, col);
    }

    /** Calls k to 7 of those eight, in the source's order N, NE, E, SE, S,
        SW, W, NW; each is made when the neighbour is on the board, which
        is what the source's guard on that call tests (NeighbourGuards). */
    method ExploreNeighbours(row: int, col: int, k: int, ghost b0: Board)
      requires Valid() && 0 <= k <= 8 && Progress(b0, board, row, col, k)
      modifies this`board, cells
      decreases Unclicked(b0), 1, 8 - k
      ensures Valid() && Progress(b0, board, row, col, 8)
    {
      if k < 8 {
        var (r, c) := Neighbour(row, col, k);
        if 0 <= r < cells.Length0 && 0 <= c < cells.Length1 {
          ghost var b := board;
          ExploreGrid(r, c, false);
          ProgressStep(b0, b, board, row, col, k);
        } else {
          ProgressSkip(b0, board, row, col, k);
        }
        ExploreNeighbours(row, col, k + 1, b0);
      }
    }

    /** checkVictory: scans row by row and stops at the first cell that is
        neither revealed nor a mine. */
    method CheckVictory() returns (win: bool)
      requires Linked()
      ensures win == IsVictory(board)
    {
      win := true;
      label scan:
      for row := 0 to cells.Length0
        invariant win
        invariant forall r, c :: 0 <= r < row && 0 <= c < cells.Length1 ==> cells[r, c].clicked || cells[r, c].mine
      {
        for col := 0 to cells.Length1
          invariant win
          invariant forall r, c :: 0 <= r < row && 0 <= c < cells.Length1 ==> cells[r, c].clicked || cells[r, c].mine
          invariant forall c :: 0 <= c < col ==> cells[row, c].clicked || cells[row, c].mine
        {
          if !cells[row, col].clicked && !cells[row, col].mine {
            win := false;
            assert !board[row][col].clicked && !board[row][col].mine;
            break scan;
          }
        }
      }
    }
  }
}
