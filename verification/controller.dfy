/** The older game engine, MainController.java: the grid of cells, the
    difficulty, whether a game is started or finished, the remaining-flags
    counter and the last timer reading. There is no chord rule; the
    remaining-flags counter only moves while a game runs, and a difficulty
    change waits for the end of the game. Window updates (icons, labels,
    menus, dialogs), the timer thread, the score list and the tablet mode
    are not modelled. */
module Controllers {
  import opened Cells
  import opened Boards
  import opened Difficulties
  import opened Grids
  import opened Texts

  /** How `finished` may change over a stretch of clicks and floods: it is
      never cleared, it is set only on a won board or after a mine was
      revealed, and a board that becomes won sets it. */
  ghost predicate Finishes(b0: Board, b: Board, fin0: bool, fin: bool) {
    (fin0 ==> fin)
    && (fin ==> fin0 || IsVictory(b) || !NoMineRevealed(b0, b))
    && (IsVictory(b) ==> fin || IsVictory(b0))
  }

  lemma FinishesTrans(b0: Board, b1: Board, b2: Board, f0: bool, f1: bool, f2: bool)
    requires Grows(b0, b1) && Grows(b1, b2)
    requires Finishes(b0, b1, f0, f1) && Finishes(b1, b2, f1, f2)
    ensures Finishes(b0, b2, f0, f2)
  {
    GrowsKeeps(b1, b2);
    RevealedMinesGrow(b0, b1, b2);
  }

  class MainController {
    var cells: array2<CellState>
    var difficulty: Difficulty
    var started: bool
    var finished: bool
    /** Number of remaining flags. */
    var flags: int
    var lastTime: int
    /** The cells as a board, indexed [row][column]. */
    ghost var board: Board

    /** board is the content of the array, whose size is the difficulty's. */
    ghost predicate Linked()
      reads this, cells
    {
      Mirrors(cells, board) && cells.Length0 == difficulty.Rows() && cells.Length1 == difficulty.Columns()
    }

    /** A game is finished only once started; before it starts the grid is
        fresh and every flag is left; once started the grid holds exactly
        the difficulty's number of mines. */
    ghost predicate Valid()
      reads this, cells
    {
      Linked() && AllValid(board)
      && (finished ==> started)
      && (!started ==> board == FreshBoard(difficulty.Rows(), difficulty.Columns()) && flags == difficulty.Mines())
      && (started ==> |MinePositions(board)| == difficulty.Mines())
    }

    /** What clicks and floods work on: a started game. */
    ghost predicate Playing()
      reads this, cells
    {
      Linked() && AllValid(board) && started
    }

    /** init: an EASY game, not started, timer reading 0. */
    constructor ()
      ensures Valid() && fresh(cells)
      ensures difficulty == EASY && !started && !finished && lastTime == 0
      ensures board == FreshBoard(EASY.Rows(), EASY.Columns()) && flags == EASY.Mines()
    {
      var a := NewCells(EASY.Rows(), EASY.Columns());
      cells := a;
      difficulty := EASY;
      started, finished := false, false;
      flags := EASY.Mines();
      lastTime := 0;
      board := FreshBoard(EASY.Rows(), EASY.Columns());
      FreshBoardNotWon(EASY.Rows(), EASY.Columns());
    }

    /** resetGame: a new grid of fresh cells for the current difficulty,
        the game neither started nor finished, every flag back. */
    method ResetGame()
      modifies this
      ensures Valid() && fresh(cells)
      ensures difficulty == old(difficulty) && lastTime == old(lastTime)
      ensures !started && !finished && flags == difficulty.Mines()
      ensures board == FreshBoard(difficulty.Rows(), difficulty.Columns())
    {
      started, finished := false, false;
      flags := difficulty.Mines();
      var rows, cols := difficulty.Rows(), difficulty.Columns();
      cells := NewCells(rows, cols);
      board := FreshBoard(rows, cols);
      FreshBoardNotWon(rows, cols);
    }

    /** setGameDifficulty: taken, with a new game, only when no game is
        running; otherwise ignored. */
    method SetGameDifficulty(d: Difficulty)
      requires Valid()
      modifies this
      ensures Valid()
      ensures old(!started || finished) ==>
        difficulty == d && fresh(cells) && !started && !finished && flags == d.Mines()
        && board == FreshBoard(d.Rows(), d.Columns()) && lastTime == old(lastTime)
      ensures !old(!started || finished) ==> unchanged(this)
    {
      if !started || finished {
        difficulty := d;
        ResetGame();
      }
    }

    /** onTimerEvent: the reading in seconds. For a reading with minutes and
        seconds in range, splitting it as the scores window does gives the
        reading back, and so does reading the timer label the window
        shows. */
    method OnTimerEvent(h: int, m: int, s: int)
      modifies this`lastTime
      ensures lastTime == h * 3600 + m * 60 + s
      ensures h >= 0 && 0 <= m < 60 && 0 <= s < 60 ==> Split(lastTime) == (h, m, s)
      ensures h >= 0 && m >= 0 && s >= 0 ==> ReadClock(TimerText(h, m, s)) == lastTime
    {
      lastTime := h * 3600 + m * 60 + s;
      if h >= 0 && 0 <= m < 60 && 0 <= s < 60 {
        SplitOfClock(h, m, s);
      }
      if h >= 0 && m >= 0 && s >= 0 {
        TimerTextReadsBack(h, m, s);
      }
    }

    /** getNearbyMinesNumber, read from the array with the source's eight
        guarded terms. */
    function NearbyMinesNumber(row: int, col: int): (n: int)
      reads this, cells
      requires Linked() && InBounds(board, row, col)
      ensures n == NearbyMines(board, row, col)
    {
      var rows, cols := cells.Length0, cells.Length1;
      (if row > 0 then Bit(cells[row - 1, col].mine) else 0)
      + (if col < cols - 1 && row > 0 then Bit(cells[row - 1, col + 1].mine) else 0)
      + (if col < cols - 1 then Bit(cells[row, col + 1].mine) else 0)
      + (if col < cols - 1 && row < rows - 1 then Bit(cells[row + 1, col + 1].mine) else 0)
      + (if row < rows - 1 then Bit(cells[row + 1, col].mine) else 0)
      + (if col > 0 && row < rows - 1 then Bit(cells[row + 1, col - 1].mine) else 0)
      + (if col > 0 then Bit(cells[row, col - 1].mine) else 0)
      + (if col > 0 && row > 0 then Bit(cells[row - 1, col - 1].mine) else 0)
    }

    /** Writes one cell. */
    method Put(r: int, c: int, v: CellState)
      requires Linked() && 0 <= r < cells.Length0 && 0 <= c < cells.Length1
      modifies this`board, cells
      ensures Linked() && board == With(old(board), r, c, v)
    {
      cells[r, c] := v;
      board := With(board, r, c, v);
    }

    /** startGame: marks the game started and places the difficulty's
        mines. The first click is therefore never on a mine. */
    method StartGame(p: Point)
      requires Valid() && !started
      modifies this`started, this`board, cells
      ensures Valid() && started
      ensures SameButMines(old(board), board)
      ensures InBounds(board, p.y, p.x) ==> !board[p.y][p.x].mine
    {
      started := true;
      ghost var b0 := board;
      FreshBoardNotWon(difficulty.Rows(), difficulty.Columns());
      FreeCount(b0, p.y, p.x);
      assert NoneClicked(b0) && AllValid(b0) && |MinePositions(b0)| == 0;
      PlaceMines(p);
      assert |MinePositions(board)| == difficulty.Mines();
    }

    /** The loop of startGame: the difficulty's mines, one at a time, each
        on a cell that is not yet a mine and is not the clicked cell; the
        random draw is a choice among those cells. The source draws until
        it finds one, so it needs as many such cells as mines, or one that
        is revealed and so is never used up. */
    method PlaceMines(p: Point)
      requires Linked()
      requires |Free(board, p.y, p.x)| >= difficulty.Mines() || RevealedFree(board, p.y, p.x)
      modifies this`board, cells
      ensures Linked() && Placed(old(board), board, p.y, p.x, difficulty.Mines())
    {
      ghost var b0 := board;
      PlacedStart(b0, p.y, p.x);
      for i := 0 to difficulty.Mines()
        invariant Linked() && Placed(b0, board, p.y, p.x, i)
      {
        ghost var b := board;
        if !RevealedFree(board, p.y, p.x) {
          assert |Free(board, p.y, p.x)| > 0;
        }
        ghost var w :| w in Free(board, p.y, p.x);
        assert !cells[w.0, w.1].mine;
        var row, col :| 0 <= row < difficulty.Rows() && 0 <= col < difficulty.Columns()
          && !cells[row, col].mine && !(row == p.y && col == p.x);
        assert (row, col) in Free(board, p.y, p.x);
        PlacedStep(b0, b, row, col, p.y, p.x, i);
        Put(row, col, cells[row, col].SetMine(true));
      }
    }

    /** onCellClicked: the first click of either button starts the game.
        A main click on a cell that is not flagged clicks it (clickCell);
        a secondary click cycles flag, mark and nothing on the cell. */
    method OnCellClicked(p: Point, mainClick: bool)
      requires Valid() && InBounds(board, p.y, p.x)
      modifies this`started, this`board, this`finished, this`flags, cells
      ensures Valid() && started
      ensures old(started) ==> MinePositions(board) == MinePositions(old(board))
      ensures !old(started) ==> (p.y, p.x) !in MinePositions(board)
      ensures !old(board)[p.y][p.x].clicked && !old(finished) ==>
        flags + |FlagPositions(board)| == old(flags) + |FlagPositions(old(board))|
      ensures mainClick ==> GrowsButMines(old(board), board)
      ensures mainClick && old(started) ==> Grows(old(board), board)
      ensures var c := old(board)[p.y][p.x];
        mainClick ==>
          flags == old(flags)
          && (c.flagged || c.clicked ==> board == old(board) && finished == old(finished))
          && (!c.flagged && !c.clicked ==>
                board[p.y][p.x].clicked
                && (finished <==> old(finished) || IsVictory(board) || board[p.y][p.x].mine)
                && (!old(started) ==> NoMineRevealed(old(board), board))
                && (!board[p.y][p.x].mine ==> FloodClosed(old(board), board))
                && (!board[p.y][p.x].mine && NearbyMines(board, p.y, p.x) == 0 ==> Covered(board, p.y, p.x))
                && FloodFrom(old(board), board, p.y, p.x, true, false)
                && (board[p.y][p.x].mine || NearbyMines(board, p.y, p.x) != 0 ==> OnlyRevealed(old(board), board, p.y, p.x)))
      ensures var c := old(board)[p.y][p.x];
        !mainClick ==>
          SameButMines(With(old(board), p.y, p.x, SecondaryClick(c).0), board)
          && (old(started) ==> board == With(old(board), p.y, p.x, SecondaryClick(c).0))
          && finished == old(finished)
          && flags == old(flags) + (if old(finished) then 0 else SecondaryClick(c).1)
    {
      ghost var b0 := board;
      ghost var c := b0[p.y][p.x];
      if !started {
        StartGame(p);
        SameButMinesKeeps(b0, board);
      }
      ghost var b1 := board;
      assert SameButMines(b0, b1) && b1[p.y][p.x] == c;
      DispatchClick(p, mainClick);
      if mainClick {
        GrowsKeepsCounts(b1, board, p.y, p.x);
        if !old(started) && !c.flagged && !c.clicked {
          NoMineRevealedAfterPlacing(b0, b1, board);
        }
        FloodFromPlacing(b0, b1, board, p.y, p.x);
      } else {
        MinesAfterWith(b1, p.y, p.x, SecondaryClick(c).0);
        SameButMinesWith(b0, b1, p.y, p.x, SecondaryClick(c).0);
      }
    }

    /** The rest of onCellClicked, on a started game: a main click on a
        cell that is not flagged goes to clickCell, a secondary click to
        the flag and mark cycle. */
    method DispatchClick(p: Point, mainClick: bool)
      requires Playing() && InBounds(board, p.y, p.x)
      modifies this`board, this`finished, this`flags, cells
      ensures Playing() && MinePositions(board) == MinePositions(old(board))
      ensures !old(board)[p.y][p.x].clicked && !old(finished) ==>
        flags + |FlagPositions(board)| == old(flags) + |FlagPositions(old(board))|
      ensures var c := old(board)[p.y][p.x];
        mainClick ==>
          flags == old(flags) && Grows(old(board), board)
          && (c.flagged || c.clicked ==> board == old(board) && finished == old(finished))
          && (!c.flagged && !c.clicked ==>
                board[p.y][p.x].clicked
                && (finished <==> old(finished) || IsVictory(board) || c.mine)
                && (!c.mine ==> NoMineRevealed(old(board), board) && Explores(old(board), board))
                && (!c.mine && NearbyMines(old(board), p.y, p.x) == 0 ==> Covered(board, p.y, p.x))
                && FloodFrom(old(board), board, p.y, p.x, true, false)
                && (c.mine || NearbyMines(old(board), p.y, p.x) != 0 ==> OnlyRevealed(old(board), board, p.y, p.x)))
      ensures var c := old(board)[p.y][p.x];
        !mainClick ==>
          board == With(old(board), p.y, p.x, SecondaryClick(c).0)
          && finished == old(finished)
          && flags == old(flags) + (if old(finished) then 0 else SecondaryClick(c).1)
    {
      ghost var b0 := board;
      var cell := cells[p.y, p.x];
      if mainClick && !cell.flagged {
        ClickCell(p.y, p.x);
        GrowsKeeps(b0, board);
      } else if !mainClick {
        CycleMark(p.y, p.x);
        MinesAfterWith(b0, p.y, p.x, SecondaryClick(cell).0);
      } else {
        GrowsRefl(b0);
      }
    }

    /** The secondary-click branch of onCellClicked, on a started game:
        flag becomes mark, mark becomes nothing, anything else gets a
        flag; the counter moves only while the game is not finished. */
    method CycleMark(row: int, col: int)
      requires Linked() && AllValid(board) && started && InBounds(board, row, col)
      modifies this`board, this`flags, cells
      ensures Linked() && AllValid(board)
      ensures board == With(old(board), row, col, SecondaryClick(old(board)[row][col]).0)
      ensures flags == old(flags) + (if finished then 0 else SecondaryClick(old(board)[row][col]).1)
      ensures !old(board)[row][col].clicked && !finished ==>
        flags + |FlagPositions(board)| == old(flags) + |FlagPositions(old(board))|
    {
      ghost var b0 := board;
      var cell := cells[row, col];
      if cell.flagged {
        Put(row, col, cell.SetMarked(true));
        if started && !finished {
          flags := flags + 1;
        }
      } else if cell.marked {
        Put(row, col, cell.SetMarked(false));
      } else {
        Put(row, col, cell.SetFlagged(true));
        if started && !finished {
          flags := flags - 1;
        }
      }
      if !cell.clicked {
        SecondaryClickBalance(b0, row, col);
      }
    }

    /** clickCell: clicks the cell with its number of nearby mines. A
        revealed mine ends the game (endGame(false)); a revealed cell with
        no mine around floods from it; a won board then ends the game
        (endGame(true)). A revealed or flagged cell is left as it is. */
    method ClickCell(row: int, col: int)
      requires Playing() && InBounds(board, row, col)
      modifies this`board, this`finished, cells
      decreases Unclicked(board) - {(row, col)}, 4, 0
      ensures Playing() && Grows(old(board), board)
      ensures MinesOnlyAt(old(board), board, row, col)
      ensures Finishes(old(board), board, old(finished), finished)
      ensures !old(board)[row][col].mine ==> Explores(old(board), board)
      ensures FloodFrom(old(board), board, row, col, true, false)
      ensures old(board)[row][col].mine || NearbyMines(old(board), row, col) != 0 ==> OnlyRevealed(old(board), board, row, col)
      ensures var c := old(board)[row][col];
        (c.clicked || c.flagged ==> board == old(board) && finished == old(finished))
        && (!c.clicked && !c.flagged && c.mine ==>
              board == With(old(board), row, col, c.(clicked := true)) && finished)
        && (!c.clicked && !c.flagged && !c.mine ==>
              board[row][col].clicked && NoMineRevealed(old(board), board)
              && (NearbyMines(old(board), row, col) == 0 ==> Covered(board, row, col))
              && (NearbyMines(old(board), row, col) != 0 ==> board == With(old(board), row, col, c.(clicked := true)))
              && (finished <==> old(finished) || IsVictory(board)))
    {
      ghost var b0 := board;
      var nearbyMines := NearbyMinesNumber(row, col);
      var cell := cells[row, col];
      var (next, outcome) := cell.Click(nearbyMines);
      Put(row, col, next);
      ghost var b1 := board;
      if outcome == Returned(Nothing) {
        RevealStep(b0, row, col, nearbyMines);
        GrowsKeeps(b0, b1);
        GrowsKeepsCounts(b0, b1, row, col);
        if nearbyMines == 0 {
          ExploreGrid(row, col, true);
        } else {
          ExploresRefl(b1);
        }
        RevealThenExplore(b0, b1, board, row, col);
        MinesOnlyAtCompose(b0, b1, board, row, col);
        FloodAfterReveal(b0, b1, board, row, col);
        GrowsKeeps(b1, board);
        var win := CheckVictory();
        if win {
          finished := true;
        }
      } else if outcome == Returned(Mine) {
        RevealStep(b0, row, col, nearbyMines);
        GrowsKeeps(b0, b1);
        assert RevealedMine(b0, b1, row, col);
        finished := true;
      } else {
        WithSame(b0, row, col);
        ExploresRefl(b0);
      }
    }

    /** exploreGrid: clicks the cell through clickCell (unless
        ignoreClicked) and, when it has no mine around, explores its eight
        neighbours. Revealed or flagged cells stop the flood, except the
        starting cell when ignoreClicked is set. */
    method ExploreGrid(row: int, col: int, ignoreClicked: bool)
      requires Playing() && InBounds(board, row, col)
      modifies this`board, this`finished, cells
      decreases Unclicked(board), if ignoreClicked then 3 else 0, 0
      ensures Playing() && Explores(old(board), board)
      ensures MinesOnlyAt(old(board), board, row, col)
      ensures Finishes(old(board), board, old(finished), finished)
      ensures ignoreClicked ==> NoMineRevealed(old(board), board)
      ensures !ignoreClicked ==> Settled(board, row, col)
      ensures FloodFrom(old(board), board, row, col, !ignoreClicked, ignoreClicked && NearbyMines(old(board), row, col) == 0)
      ensures var cell := old(board)[row][col];
        (cell.flagged || (!ignoreClicked && cell.clicked) ==> board == old(board) && finished == old(finished))
        && (!cell.flagged && (ignoreClicked || !cell.clicked) && NearbyMines(old(board), row, col) == 0 ==>
              Covered(board, row, col))
    {
      ghost var b0, f0 := board, finished;
      var cell := cells[row, col];
      if (!ignoreClicked && cell.clicked) || cell.flagged {
        ExploresRefl(b0);
        return;
      }
      if !ignoreClicked {
        assert (row, col) in Unclicked(board);
        ClickCell(row, col);
      } else {
        GrowsRefl(b0);
      }
      ghost var b1, f1 := board, finished;
      GrowsKeeps(b0, b1);
      GrowsKeepsCounts(b0, b1, row, col);
      if NearbyMinesNumber(row, col) == 0 {
        assert (row, col) !in Unclicked(b1) || ignoreClicked;
        ExploreAround(row, col);
        SafeAroundZero(b1, board, row, col);
      } else {
        ExploresRefl(b1);
      }
      if ignoreClicked || !cell.mine {
        ExploresTrans(b0, b1, board);
      } else {
        RevealThenExplore(b0, b1, board, row, col);
      }
      MinesOnlyAtTrans(b0, b1, board, row, col);
      FinishesTrans(b0, b1, board, f0, f1, finished);
      if !ignoreClicked {
        FloodAfterReveal(b0, b1, board, row, col);
      }
    }

    /** The eight guarded calls exploreGrid(neighbour, false) of the
        flood. */
    method ExploreAround(row: int, col: int)
      requires Playing() && InBounds(board, row, col)
      modifies this`board, this`finished, cells
      decreases Unclicked(board), 2, 0
      ensures Playing() && Explores(old(board), board)
      ensures MinesOnlyAround(old(board), board, row, col)
      ensures FloodFrom(old(board), board, row, col, false, true)
      ensures Finishes(old(board), board, old(finished), finished)
      ensures Covered(board, row, col)
    {
      ghost var b0 := board;
      ProgressStart(b0, row, col);
      ExploreNeighbours(row, col, 0, b0, finished);
      ProgressCovers(b0, board, row, col);
    }

    /** Calls k to 7 of those eight, in the source's order N, NE, E, SE, S,
        SW, W, NW, each made when the neighbour is on the board, which is
        the source's guard on that call (NeighbourGuards). */
    method ExploreNeighbours(row: int, col: int, k: int, ghost b0: Board, ghost f0: bool)
      requires Playing() && 0 <= k <= 8 && Progress(b0, board, row, col, k)
      requires Finishes(b0, board, f0, finished)
      modifies this`board, this`finished, cells
      decreases Unclicked(b0), 1, 8 - k
      ensures Playing() && Progress(b0, board, row, col, 8)
      ensures Finishes(b0, board, f0, finished)
    {
      if k < 8 {
        var (r, c) := Neighbour(row, col, k);
        if 0 <= r < cells.Length0 && 0 <= c < cells.Length1 {
          ghost var b, f := board, finished;
          ExploreGrid(r, c, false);
          ProgressStep(b0, b, board, row, col, k);
          FinishesTrans(b0, b, board, f0, f, finished);
        } else {
          ProgressSkip(b0, board, row, col, k);
        }
        ExploreNeighbours(row, col, k + 1, b0, f0);
      }
    }

    /** checkVictory: false before the game starts; otherwise scans row by
        row and stops at the first cell that is neither revealed nor a
        mine. */
    method CheckVictory() returns (win: bool)
      requires Linked()
      ensures win == (started && IsVictory(board))
    {
      if !started {
        return false;
      }
      win := true;
      label scan:
      for row := 0 to difficulty.Rows()
        invariant win
        invariant forall r, c :: 0 <= r < row && 0 <= c < cells.Length1 ==> cells[r, c].clicked || cells[r, c].mine
      {
        for col := 0 to difficulty.Columns()
          invariant win
          invariant forall r, c :: 0 <= r < row && 0 <= c < cells.Length1 ==> cells[r, c].clicked || cells[r, c].mine
          invariant forall c :: 0 <= c < col ==> cells[row, c].clicked || cells[row, c].mine
        {
          if !cells[row, col].clicked && !cells[row, col].mine {
            win := false;
            assert !board[row][col].clicked && !board[row][col].mine;
            break scan;
          }
        }
      }
    }
  }
}
