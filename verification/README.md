# Minesweeper game state, in Dafny

This project models the game logic of the Darmo117 Minesweeper (Java/Swing). It covers both revisions the repository holds:

- **The newer engine** (`model/Grid.java`). It keeps a grid of cells and a remaining-flags counter. Mines are placed after the first click, never on the clicked cell. Its main click:
  - reveals a cell and floods outward from cells with no mine around them;
  - "chords" (explores all eight neighbours) when a cell has as many flags around it as mines.

  The secondary click cycles flag → mark → none.
- **The older engine** (`MainController.java`). It stores the cells itself and adds `started`/`finished` flags. It has no chord rule. It counts flags only while a game runs, and it lets the difficulty change only between games.
- **The shared pieces:**
  - the four-flag cell (`model/Cell.java`);
  - the preset table (`model/Difficulty.java`);
  - the texts the windows show: timer, remaining mines, and the durations in the score dialog;
  - the row-major layout of the cell labels and their lookup by coordinates;
  - the lock/clicked guard of a label.

How the model is built:

- **Cells.** A cell is the value `CellState`. Its transitions are pure functions. The class `Cells.Cell` updates its fields in place and is proved against those functions.
- **Grids.** Both engines keep the grid in an `array2<CellState>`. Each also keeps a ghost copy `board: seq<seq<CellState>>`, and `Grids.Mirrors` ties the two together. The rules of the game are stated on the copy in module `Boards`:
  - neighbour counts;
  - victory;
  - what a flood leaves behind, and how far it reaches: every cell it reveals is connected to where it started through newly revealed cells without nearby mines (`Boards.FloodFrom`);
  - where a mine can be revealed;
  - mine placement;
  - the flag cycle.
- **Exploration.** `exploreGrid` is recursive, and so is its model. Termination is measured by the set of unrevealed cells. The eight guarded calls become a recursion over the neighbour index k (`ExploreNeighbours`), in the source's order N, NE, E, SE, S, SW, W, NW. `Boards.NeighbourGuards` proves that the in-bounds test is exactly the source's guard for each k.
- **Coordinates.** They arrive as `Point(x = column, y = row)`, as in the source.

## Model

Paths are relative to `src/main/java/net/darmo_creations/minesweeper/`, written out in full below.

| member | source | states |
|---|---|---|
| Cells.ClickCode.Value | src/main/java/net/darmo_creations/minesweeper/model/Cell.java:78-81 | the codes are -2..1, and non-negative exactly for NOTHING and MINE |
| Cells.CellState.SetMine | src/main/java/net/darmo_creations/minesweeper/model/Cell.java:51-54 | only the mine flag can change, and only on an unclicked cell |
| Cells.CellState.SetFlagged | src/main/java/net/darmo_creations/minesweeper/model/Cell.java:60-65 | an unclicked cell takes the flag and loses its mark; a clicked cell is unchanged; validity (not flagged and marked, not clicked and flagged) is kept |
| Cells.CellState.SetMarked | src/main/java/net/darmo_creations/minesweeper/model/Cell.java:71-76 | an unclicked cell takes the mark and loses its flag; a clicked cell is unchanged; validity is kept |
| Cells.CellState.Click | src/main/java/net/darmo_creations/minesweeper/model/Cell.java:90-104 | IllegalArgument exactly when mines is outside [0, 9]; otherwise ALREADY_CLICKED, CANNOT_CLICK, MINE or NOTHING, checked in that order, each as an if-and-only-if; the cell becomes clicked only on MINE or NOTHING; mine, flag and mark are kept |
| Cells.FreshCell | src/main/java/net/darmo_creations/minesweeper/model/Cell.java:27-41 | a new cell has all four flags false and is valid |
| Cells.ClickedIsFrozen | src/main/java/net/darmo_creations/minesweeper/model/Cell.java:51-76 | on a clicked cell setMine, setFlagged, setMarked and click change nothing |
| Cells.ClickKeepsMark | src/main/java/net/darmo_creations/minesweeper/model/Cell.java:90-104 | clicking a marked cell reveals it and leaves it marked |
| Cells.Cell.constructor | src/main/java/net/darmo_creations/minesweeper/model/Cell.java:37-41 | the new cell's state is the fresh cell |
| Cells.Cell.SetMine | src/main/java/net/darmo_creations/minesweeper/model/Cell.java:51-54 | the new state is CellState.SetMine of the old one |
| Cells.Cell.SetFlagged | src/main/java/net/darmo_creations/minesweeper/model/Cell.java:60-65 | the new state is CellState.SetFlagged of the old one |
| Cells.Cell.SetMarked | src/main/java/net/darmo_creations/minesweeper/model/Cell.java:71-76 | the new state is CellState.SetMarked of the old one |
| Cells.Cell.Click | src/main/java/net/darmo_creations/minesweeper/model/Cell.java:90-104 | new state and outcome are CellState.Click of the old state |
| Difficulties.Difficulty.Columns | src/main/java/net/darmo_creations/minesweeper/model/Difficulty.java:29-48 | every preset has 9 to 32 columns |
| Difficulties.Difficulty.Rows | src/main/java/net/darmo_creations/minesweeper/model/Difficulty.java:29-55 | every preset has 9 to 32 rows |
| Difficulties.Difficulty.Mines | src/main/java/net/darmo_creations/minesweeper/model/Difficulty.java:29-62 | at least one mine and fewer mines than cells, at most a fifth of the cells |
| Difficulties.OnlyHardIsWide | src/main/java/net/darmo_creations/minesweeper/model/Difficulty.java:29-41 | HARD (columns before rows: 32 x 16) is the only preset that is not square |
| Difficulties.LevelsIncrease | src/main/java/net/darmo_creations/minesweeper/model/Difficulty.java:29-32 | mines and cell counts grow strictly from EASY to EXPERT |
| Boards.FreshBoard | src/main/java/net/darmo_creations/minesweeper/model/Grid.java:22-29 | a rows x cols rectangle of fresh cells |
| Boards.FreshBoardNotWon | src/main/java/net/darmo_creations/minesweeper/model/Grid.java:21-31 | a new grid has no mine, every cell unclicked, every cell valid, and is not won |
| Boards.Nearby | src/main/java/net/darmo_creations/minesweeper/model/Grid.java:221-250 | the guarded eight-term sum of mines (or flags) is in 0..8 |
| Boards.NearbyCountsNeighbours | src/main/java/net/darmo_creations/minesweeper/model/Grid.java:221-250 | the guarded sum equals the number of on-board Moore neighbours carrying the feature |
| Boards.NeighbourhoodSize | src/main/java/net/darmo_creations/minesweeper/model/Grid.java:221-250 | a cell has 3 neighbours at a corner, 5 on an edge, 8 inside |
| Boards.ZeroMinesMeansSafeNeighbours | src/main/java/net/darmo_creations/minesweeper/model/Grid.java:158-175 | when the count is 0, no adjacent cell is a mine |
| Boards.VictoryBySets | src/main/java/net/darmo_creations/minesweeper/model/Grid.java:198-211 | "every cell clicked or a mine" is the same as "the unclicked cells are among the mines" |
| Boards.VictoryLeavesAtMostMines | src/main/java/net/darmo_creations/minesweeper/model/Grid.java:198-211 | at victory there are no more unclicked cells than mines |
| Boards.GrowsKeeps | src/main/java/net/darmo_creations/minesweeper/model/Cell.java:94-103 | when cells only get clicked: the unclicked set shrinks; mines and flags stay; validity and victory are kept |
| Boards.GrowsTrans | src/main/java/net/darmo_creations/minesweeper/model/Grid.java:143-176 | revealing composes: no cell is ever un-clicked across several steps |
| Boards.GrowsKeepsCounts | src/main/java/net/darmo_creations/minesweeper/model/Grid.java:221-250 | revealing cells does not change neighbour mine or flag counts |
| Boards.RevealStep | src/main/java/net/darmo_creations/minesweeper/model/Grid.java:149-156 | clicking one unflagged unclicked cell reveals exactly that cell, removes it from the unclicked set, and is a flood of that cell alone |
| Boards.SettledGrows | src/main/java/net/darmo_creations/minesweeper/model/Grid.java:143-176 | a neighbourhood left revealed or flagged stays so |
| Boards.ExploresTrans | src/main/java/net/darmo_creations/minesweeper/model/Grid.java:158-175 | two floods in a row are a flood: every revealed zero cell has its neighbourhood revealed or flagged |
| Boards.RevealThenExplore | src/main/java/net/darmo_creations/minesweeper/model/Grid.java:96-97 | one reveal followed by a flood from it is a flood |
| Boards.SafeAroundZero | src/main/java/net/darmo_creations/minesweeper/model/Grid.java:158-175 | a flood around a zero cell reveals no mine |
| Boards.MinesOnlyAroundTrans | src/main/java/net/darmo_creations/minesweeper/model/Grid.java:67-83 | mines revealed only next to the centre, over several explorations |
| Boards.MinesOnlyAtCompose | src/main/java/net/darmo_creations/minesweeper/model/Grid.java:149-175 | a reveal of the centre followed by its flood reveals a mine at most at the centre |
| Boards.MinesOnlyAtTrans | src/main/java/net/darmo_creations/minesweeper/model/Grid.java:143-176 | "a mine only at (row, col)" composes |
| Boards.RevealedMinesGrow | src/main/java/net/darmo_creations/minesweeper/MainController.java:184-201 | once a mine is revealed it stays revealed |
| Boards.Neighbour | src/main/java/net/darmo_creations/minesweeper/model/Grid.java:159-174 | the k-th call's target (N, NE, E, SE, S, SW, W, NW) is adjacent to the centre |
| Boards.NeighbourGuards | src/main/java/net/darmo_creations/minesweeper/model/Grid.java:159-174 | for each k, the target is on the board exactly when the source's guard on the k-th call holds |
| Boards.ChainGrows | src/main/java/net/darmo_creations/minesweeper/model/Grid.java:158-175 | a path of revealed cells without nearby mines in either of two stretches of reveals is one over both |
| Boards.ChainLeftOfWall | src/main/java/net/darmo_creations/minesweeper/model/Grid.java:158-175 | a path of revealed cells that starts left of a column of unrevealed cells stays left of it |
| Boards.FloodStaysLeftOfWall | src/main/java/net/darmo_creations/minesweeper/model/Grid.java:143-176 | a flood never crosses a column of cells it leaves unrevealed: nothing beyond it is revealed |
| Boards.FloodAfterReveal | src/main/java/net/darmo_creations/minesweeper/model/Grid.java:149-175 | revealing a cell, then flooding around it when its count is 0: every revealed cell is connected to that cell through revealed cells without nearby mines |
| Boards.FloodAroundStep | src/main/java/net/darmo_creations/minesweeper/model/Grid.java:159-174 | the flood from one neighbour keeps every revealed cell connected to a neighbour of the centre |
| Boards.FloodFromPlacing | src/main/java/net/darmo_creations/minesweeper/MainController.java:147-156 | the reveals of the first click, counted from before the mines were placed: still connected to the cell, the flood still closed (every revealed cell without nearby mines has its neighbourhood revealed or flagged), and flags and marks kept |
| Boards.ProgressStep | src/main/java/net/darmo_creations/minesweeper/model/Grid.java:159-174 | after the k-th guarded call, neighbours 0..k are revealed or flagged and every revealed cell is still connected to a neighbour of the centre |
| Boards.ProgressSkip | src/main/java/net/darmo_creations/minesweeper/model/Grid.java:159-174 | a call whose guard fails keeps the progress |
| Boards.ProgressCovers | src/main/java/net/darmo_creations/minesweeper/model/Grid.java:158-175 | after the eight calls the whole neighbourhood is revealed or flagged |
| Boards.SameButMinesTrans | src/main/java/net/darmo_creations/minesweeper/model/Grid.java:45-56 | placing mines changes only mine flags, over several placements |
| Boards.SameButMinesKeeps | src/main/java/net/darmo_creations/minesweeper/model/Grid.java:45-56 | placing mines keeps the flags and the unclicked cells |
| Boards.SameButMinesWith | src/main/java/net/darmo_creations/minesweeper/MainController.java:147-175 | a secondary click after mine placement differs from one before it only in mines |
| Boards.NoMineRevealedAfterPlacing | src/main/java/net/darmo_creations/minesweeper/MainController.java:147-155 | a first click that reveals no mine after placement reveals none counted from the board before placement |
| Boards.PlacedStep | src/main/java/net/darmo_creations/minesweeper/model/Grid.java:49-54 | one more mine on a free cell: i+1 mines placed, the clicked cell still free, a revealed free cell still there, nothing else changed |
| Boards.PlaceMine | src/main/java/net/darmo_creations/minesweeper/model/Grid.java:49-54 | a mine on a free cell adds exactly that cell to the mines |
| Boards.FreeCount | src/main/java/net/darmo_creations/minesweeper/model/Grid.java:45-56 | on a mine-free grid, the cells a mine may go on number rows*cols, minus 1 when the clicked cell is on the board |
| Boards.SecondaryClick | src/main/java/net/darmo_creations/minesweeper/model/Grid.java:119-132 | flag becomes mark (+1), mark is cleared (0), anything else is flagged (-1); a clicked cell is unchanged, and on a clicked unmarked cell the counter still moves by -1 |
| Boards.SecondaryClickCycle | src/main/java/net/darmo_creations/minesweeper/model/Grid.java:119-132 | three secondary clicks on an unclicked cell restore the cell and the counter, through two different states |
| Boards.SecondaryClickBalance | src/main/java/net/darmo_creations/minesweeper/model/Grid.java:119-132 | on an unclicked cell the counter moves against the number of flags on the board |
| Boards.FlagsAfterWith | src/main/java/net/darmo_creations/minesweeper/model/Grid.java:119-132 | replacing one cell changes the flag set at that cell only |
| Boards.MinesAfterWith | src/main/java/net/darmo_creations/minesweeper/MainController.java:157-175 | a secondary click leaves the mines where they were |
| Grids.NewCells | src/main/java/net/darmo_creations/minesweeper/model/Grid.java:22-29 | the nested loops fill a fresh rows x cols array with fresh cells |
| Grids.Grid.constructor | src/main/java/net/darmo_creations/minesweeper/model/Grid.java:21-31 | a fresh rows x cols grid of the difficulty, minesNb and flags equal to its mine count |
| Grids.Grid.GetRemainingFlags | src/main/java/net/darmo_creations/minesweeper/model/Grid.java:33-35 | the counter |
| Grids.Grid.GetRows | src/main/java/net/darmo_creations/minesweeper/model/Grid.java:37-39 | the number of rows |
| Grids.Grid.GetColumns | src/main/java/net/darmo_creations/minesweeper/model/Grid.java:41-43 | the length of row 0 |
| Grids.Grid.NearbyNumber | src/main/java/net/darmo_creations/minesweeper/model/Grid.java:221-250 | getNearbyMinesNumber / getNearbyFlagsNumber read from the array equal the count on the board |
| Grids.Grid.GenerateMines | src/main/java/net/darmo_creations/minesweeper/model/Grid.java:45-56 | only mine flags change; old mines stay; the clicked cell gets no mine; given enough free cells or a revealed free cell (never used up), the loop always has a cell to draw; from a board with nothing clicked, exactly minesNb mines are added |
| Grids.Grid.PerformMainClick | src/main/java/net/darmo_creations/minesweeper/model/Grid.java:58-111 | result WIN, LOST or 0; flagged cell: 0 and nothing changes; chord: never LOST, WIN iff won, neighbourhood covered, mines revealed only next to the cell, every revealed cell connected to a neighbour of the cell through newly revealed cells without nearby mines; clicked cell without chord: 0 and nothing changes; mine: LOST and only that cell revealed; safe cell: revealed, no mine revealed, flood closed, WIN iff won, only that cell revealed when its count is not 0, otherwise every revealed cell connected to the cell through newly revealed cells without nearby mines |
| Grids.Grid.PerformSecondaryClick | src/main/java/net/darmo_creations/minesweeper/model/Grid.java:113-133 | the cell and the counter follow SecondaryClick; on an unclicked cell the counter plus the flags on the board is unchanged |
| Grids.Grid.ExploreGrid | src/main/java/net/darmo_creations/minesweeper/model/Grid.java:143-176 | terminates; never un-clicks; a flagged (or, unless ignoreCenter, clicked) cell stops it with no change; mines revealed only at the cell; around a zero cell every neighbour ends revealed or flagged; every revealed zero cell has its neighbourhood covered; every revealed cell is connected to the cell itself (unless ignoreCenter) or to a neighbour of an ignored zero centre through newly revealed cells without nearby mines |
| Grids.Grid.ExploreAround | src/main/java/net/darmo_creations/minesweeper/model/Grid.java:68-83 | the eight guarded explorations: neighbourhood covered, mines revealed only next to the cell, every revealed cell connected to a neighbour of the cell through newly revealed cells without nearby mines |
| Grids.Grid.ExploreNeighbours | src/main/java/net/darmo_creations/minesweeper/model/Grid.java:159-174 | the calls k..7 extend the progress to all eight; every cell they reveal is connected to a neighbour of the cell through newly revealed cells without nearby mines |
| Grids.Grid.CheckVictory | src/main/java/net/darmo_creations/minesweeper/model/Grid.java:198-211 | true iff every cell is clicked or a mine |
| Texts.Digits | src/main/java/net/darmo_creations/minesweeper/gui/MainFrame.java:193 | decimal digits of a natural number: 1 digit below 10, 2 digits for 10..99 |
| Texts.Decimal | src/main/java/net/darmo_creations/minesweeper/gui/MainFrame.java:193 | the text starts with '-' exactly for negative values |
| Texts.DecimalRoundTrip | src/main/java/net/darmo_creations/minesweeper/gui/MainFrame.java:192-194 | reading the decimal text of any int gives it back |
| Texts.Format02d | src/main/java/net/darmo_creations/minesweeper/gui/MainFrame.java:207-209 | "%02d": at least two characters, exactly two for v in [0, 100), a leading minus exactly for negatives (its read-back is Texts.Format02dShape) |
| Texts.LegacyAddLeadingZero | src/main/java/net/darmo_creations/minesweeper/MainFrame.java:195-197 | "0" + v for v in [0, 10), the plain decimal otherwise, negatives included |
| Texts.LeadingZeroFormatsAgree | src/main/java/net/darmo_creations/minesweeper/gui/MainFrame.java:207-209 | "%02d" (with ASCII digits) and the legacy helper give the same text for every int |
| Texts.Format02dShape | src/main/java/net/darmo_creations/minesweeper/gui/MainFrame.java:207-209 | at least two characters, exactly two for 0..99, all digits when non-negative, reads back to the value |
| Texts.TimerText | src/main/java/net/darmo_creations/minesweeper/gui/MainFrame.java:203-205 | at least 5 characters, at least 8 with an hours field; for minutes and seconds under 100 it is 5 long exactly when h == 0 |
| Texts.LegacyTimerText | src/main/java/net/darmo_creations/minesweeper/MainFrame.java:190-192 | the same lengths as the newer window's text (and the same text, Texts.TimerTextsAgree) |
| Texts.TimerTextsAgree | src/main/java/net/darmo_creations/minesweeper/MainFrame.java:190-192 | both windows show the same timer text (with ASCII digits) |
| Texts.TimerTextReadsBack | src/main/java/net/darmo_creations/minesweeper/gui/MainFrame.java:203-205 | for non-negative fields the timer text reads back to h*3600 + m*60 + s |
| Texts.TimerTextHours | src/main/java/net/darmo_creations/minesweeper/gui/MainFrame.java:204 | the hours field is left out exactly when h == 0 |
| Texts.ReadClockFields | src/main/java/net/darmo_creations/minesweeper/gui/ScoresDialog.java:86-89 | HH:MM:SS and MM:SS read back to the seconds their fields make |
| Texts.JavaDiv | src/main/java/net/darmo_creations/minesweeper/gui/ScoresDialog.java:81-83 | Java's truncating division agrees with floor division on non-negative operands |
| Texts.JavaRem | src/main/java/net/darmo_creations/minesweeper/gui/ScoresDialog.java:81-82 | quotient times divisor plus remainder is the dividend, and the remainder has the dividend's sign |
| Texts.Split | src/main/java/net/darmo_creations/minesweeper/gui/ScoresDialog.java:81-83 | minutes and seconds always in (-60, 60) as Java's %; all three fields are non-negative exactly when the duration is |
| Texts.SplitRecomposes | src/main/java/net/darmo_creations/minesweeper/gui/ScoresDialog.java:80-83 | for time >= 0: minutes and seconds in [0, 60) and hours*3600 + minutes*60 + seconds == time |
| Texts.SplitOfClock | src/main/java/net/darmo_creations/minesweeper/MainController.java:263 | splitting lastTime gives back the timer's h, m, s when m and s are in range |
| Texts.ScoreText | src/main/java/net/darmo_creations/minesweeper/gui/ScoresDialog.java:84-89 | at least 5 characters, at least 8 when there is a positive hours field |
| Texts.ScoreTextReadsBack | src/main/java/net/darmo_creations/minesweeper/gui/ScoresDialog.java:80-89 | the time column reads back to the duration; 5 characters under an hour, 8 from one hour to under 100 hours |
| Controllers.FinishesTrans | src/main/java/net/darmo_creations/minesweeper/MainController.java:211-238 | "finished only by a revealed mine or a victory, and set at every victory" composes over the flood |
| Controllers.MainController.constructor | src/main/java/net/darmo_creations/minesweeper/MainController.java:72-80 | EASY, not started, lastTime 0, a fresh grid and flags equal to EASY's mines |
| Controllers.MainController.ResetGame | src/main/java/net/darmo_creations/minesweeper/MainController.java:267-290 | started = finished = false, flags = the difficulty's mines, a fresh rows x cols grid; difficulty and lastTime kept |
| Controllers.MainController.SetGameDifficulty | src/main/java/net/darmo_creations/minesweeper/MainController.java:136-142 | when not started or finished, the difficulty is taken and the game reset; otherwise nothing changes |
| Controllers.MainController.OnTimerEvent | src/main/java/net/darmo_creations/minesweeper/MainController.java:262-265 | lastTime = h*3600 + m*60 + s, which splits back to (h, m, s) in range and is what the timer text reads as |
| Controllers.MainController.NearbyMinesNumber | src/main/java/net/darmo_creations/minesweeper/MainController.java:368-377 | the guarded sum read from the array equals the neighbour mine count of the board |
| Controllers.MainController.StartGame | src/main/java/net/darmo_creations/minesweeper/MainController.java:297-315 | started; exactly getMines() mines; the clicked cell is not one of them; nothing but mines changes |
| Controllers.MainController.PlaceMines | src/main/java/net/darmo_creations/minesweeper/MainController.java:302-312 | the sampling loop places getMines() mines on free cells, never the clicked one |
| Controllers.MainController.OnCellClicked | src/main/java/net/darmo_creations/minesweeper/MainController.java:145-177 | first click starts the game with a safe clicked cell and reveals no mine; main click: only cells get revealed (flags and marks kept, and the mines too once started); a flagged or clicked cell changes nothing, otherwise the cell is revealed, finished iff a mine or a victory, only that cell revealed when it is a mine or its count is not 0, otherwise every revealed cell connected to the cell through newly revealed cells without nearby mines, and for a safe cell the flood closed: every newly revealed cell without nearby mines has its whole neighbourhood revealed or flagged; secondary click: the flag cycle, counter moved only while the game runs |
| Controllers.MainController.DispatchClick | src/main/java/net/darmo_creations/minesweeper/MainController.java:151-176 | on a started game: main click as clickCell (flagged or clicked cell unchanged; every revealed cell connected to the cell through newly revealed cells without nearby mines; for a safe cell the flood closed, every newly revealed cell without nearby mines having its whole neighbourhood revealed or flagged), secondary click as the flag cycle; mines never move |
| Controllers.MainController.CycleMark | src/main/java/net/darmo_creations/minesweeper/MainController.java:157-175 | the cell follows the cycle; the counter moves by SecondaryClick's delta only when not finished, never clamped; counter plus flags kept on an unclicked cell |
| Controllers.MainController.ClickCell | src/main/java/net/darmo_creations/minesweeper/MainController.java:179-202 | clicked or flagged: no change; mine: only that cell revealed and finished; safe: revealed, no mine revealed, only that cell revealed when its count is not 0, otherwise a closed flood whose every revealed cell is connected to the cell through newly revealed cells without nearby mines; finished iff already finished or won |
| Controllers.MainController.ExploreGrid | src/main/java/net/darmo_creations/minesweeper/MainController.java:211-238 | terminates; stops at flagged or (unless ignoreClicked) clicked cells; revealed zero cells have their neighbourhood covered; every revealed cell is connected to the cell itself (unless ignoreClicked) or to a neighbour of an ignored zero centre through newly revealed cells without nearby mines; mines only at the cell; finished tracks mines and victory |
| Controllers.MainController.ExploreAround | src/main/java/net/darmo_creations/minesweeper/MainController.java:220-237 | the eight guarded explorations: neighbourhood covered, mines only next to the cell, every revealed cell connected to a neighbour of the cell through newly revealed cells without nearby mines |
| Controllers.MainController.ExploreNeighbours | src/main/java/net/darmo_creations/minesweeper/MainController.java:221-236 | the calls k..7 extend the progress, every cell they reveal connected to a neighbour of the cell through newly revealed cells without nearby mines, and keep the finished bookkeeping |
| Controllers.MainController.CheckVictory | src/main/java/net/darmo_creations/minesweeper/MainController.java:243-259 | false before the game starts, then true iff every cell is clicked or a mine |
| Layouts.Layout | src/main/java/net/darmo_creations/minesweeper/gui/MainFrame.java:168-173 | rows x cols coordinates in all, the order resetGrid adds the labels in (positions: Layouts.LayoutPositions) |
| Layouts.RowLayout | src/main/java/net/darmo_creations/minesweeper/gui/MainFrame.java:169-172 | the labels of row r carry Point(c, r), c left to right |
| Layouts.LayoutPositions | src/main/java/net/darmo_creations/minesweeper/gui/MainFrame.java:168-173 | rows*cols labels, the i-th at Point(i % cols, i / cols) |
| Layouts.IndexOf | src/main/java/net/darmo_creations/minesweeper/gui/MainFrame.java:177-185 | the first index with the coordinates, or -1 when none has them |
| Layouts.FoundFirst | src/main/java/net/darmo_creations/minesweeper/gui/MainFrame.java:178-182 | where the linear search stops is the first match |
| Layouts.LayoutLookup | src/main/java/net/darmo_creations/minesweeper/gui/MainFrame.java:163-185 | after resetGrid, looking up Point(col, row) finds index row*cols + col on the grid and nothing off it |
| MainFrames.CellLabel.constructor | src/main/java/net/darmo_creations/minesweeper/gui/MainFrame.java:249-258 | coordinates kept, unlocked, side buttonsSize + PADDING |
| MainFrames.CellLabel.MousePressed | src/main/java/net/darmo_creations/minesweeper/gui/MainFrame.java:262-267 | an event iff unlocked and left or right button; main click iff left |
| MainFrames.CellLabel.Lock | src/main/java/net/darmo_creations/minesweeper/gui/MainFrame.java:274-276 | locked, and no press dispatches |
| MainFrames.CellLabel.Click | src/main/java/net/darmo_creations/minesweeper/gui/MainFrame.java:278-280 | a revealed label dispatches what it did before |
| MainFrames.MainFrame.constructor | src/main/java/net/darmo_creations/minesweeper/gui/MainFrame.java:94-95 | the remaining label shows the prefix, the timer is empty, no grid |
| MainFrames.MainFrame.ResetGrid | src/main/java/net/darmo_creations/minesweeper/gui/MainFrame.java:160-175 | the frame has a grid of rows x cols fresh unlocked labels in row-major order with Point(col, row) |
| MainFrames.MainFrame.NewRow | src/main/java/net/darmo_creations/minesweeper/gui/MainFrame.java:169-172 | one row of fresh unlocked labels, left to right |
| MainFrames.MainFrame.GetCell | src/main/java/net/darmo_creations/minesweeper/gui/MainFrame.java:177-185 | on a frame that has a grid: the first label with equal coordinates, or null |
| MainFrames.MainFrame.SetRemainingMines | src/main/java/net/darmo_creations/minesweeper/gui/MainFrame.java:192-194 | prefix, space, then the counter as given, which reads back, negatives included |
| MainFrames.MainFrame.SetTimer | src/main/java/net/darmo_creations/minesweeper/gui/MainFrame.java:203-205 | hours shown iff h != 0; the text reads back to h*3600 + m*60 + s |
| LegacyFrames.CellLabel.constructor | src/main/java/net/darmo_creations/minesweeper/MainFrame.java:217-229 | coordinates kept, not clicked, side 24 in tablet mode and 19 otherwise |
| LegacyFrames.CellLabel.MousePressed | src/main/java/net/darmo_creations/minesweeper/MainFrame.java:233-238 | an event iff not clicked and left or right button; main click iff left |
| LegacyFrames.CellLabel.Lock | src/main/java/net/darmo_creations/minesweeper/MainFrame.java:245-247 | clicked, and no press dispatches |
| LegacyFrames.CellLabel.Click | src/main/java/net/darmo_creations/minesweeper/MainFrame.java:249-252 | clicked, and no press dispatches |
| LegacyFrames.MainFrame.constructor | src/main/java/net/darmo_creations/minesweeper/MainFrame.java:85-86 | the remaining label shows the prefix, the timer is empty, no grid |
| LegacyFrames.MainFrame.ResetGrid | src/main/java/net/darmo_creations/minesweeper/MainFrame.java:147-162 | the frame has a grid of rows x cols fresh unclicked labels in row-major order with Point(col, row), sized by the mode |
| LegacyFrames.MainFrame.NewRow | src/main/java/net/darmo_creations/minesweeper/MainFrame.java:156-159 | one row of fresh unclicked labels, left to right |
| LegacyFrames.MainFrame.GetCell | src/main/java/net/darmo_creations/minesweeper/MainFrame.java:164-172 | on a frame that has a grid: the first label with equal coordinates, or null |
| LegacyFrames.MainFrame.SetRemainingMines | src/main/java/net/darmo_creations/minesweeper/MainFrame.java:179-181 | prefix, space, then the counter, which reads back |
| LegacyFrames.MainFrame.SetTimer | src/main/java/net/darmo_creations/minesweeper/MainFrame.java:190-192 | built with addLeadingZero, equal to the newer window's text; hours iff h != 0; reads back |
| ScoresDialogs.ScoreRow | src/main/java/net/darmo_creations/minesweeper/gui/ScoresDialog.java:79-91 | the name column is the username; for a non-negative duration the time column reads back to it, 5 or 8 characters |
| ScoresDialogs.Rows | src/main/java/net/darmo_creations/minesweeper/gui/ScoresDialog.java:79-92 | one row per score, in list order |
| ScoresDialogs.TableModel.Clear | src/main/java/net/darmo_creations/minesweeper/gui/ScoresDialog.java:78 | no rows |
| ScoresDialogs.TableModel.AddRow | src/main/java/net/darmo_creations/minesweeper/gui/ScoresDialog.java:91 | the row appended at the bottom |
| ScoresDialogs.TableModel.Fill | src/main/java/net/darmo_creations/minesweeper/gui/ScoresDialog.java:76-92 | the table holds exactly Rows(scores) |
| ScoresDialogs.ScoresDialog.constructor | src/main/java/net/darmo_creations/minesweeper/gui/ScoresDialog.java:56-65 | one empty table per difficulty, none shared |
| ScoresDialogs.ScoresDialog.SetScores | src/main/java/net/darmo_creations/minesweeper/gui/ScoresDialog.java:74-94 | each named difficulty's table is replaced by one row per score in order; other tables keep their rows |
| ScoresDialogs.ScoresDialog.FillTable | src/main/java/net/darmo_creations/minesweeper/gui/ScoresDialog.java:76-92 | the table of one difficulty holds exactly Rows(scores); every other table keeps its rows |
| ScoresDialogs.OrdinalOf | src/main/java/net/darmo_creations/minesweeper/gui/ScoresDialog.java:58 | exactly one difficulty has each position |
| ScoresDialogs.Ordinal | src/main/java/net/darmo_creations/minesweeper/gui/ScoresDialog.java:58 | every difficulty has a position in the enum order, and that position holds it |

## Left out

- Swing presentation is not modelled: icons, backgrounds, borders, fonts, menus, dialogs, `pack`/`repaint`, window centring, titles. This includes `Grid.endGame` and the label updates in `MainController.endGame`. A label's `click()` border is modelled only as "changes nothing the model sees".
- `MainController.endGame` sets `finished := true`, which is modelled. The rest is not: the timer stop, the score record, the victory/game-over dialogs, and the play-again question that may call `resetGame` in the middle of a flood.
- The `java.util.Random` rejection loop is modelled as one choice among the acceptable cells per mine. The retry loop itself, which only terminates with probability one, is not modelled.
- Grids.Grid.GenerateMines: requires that the retry loop can always draw a cell: either at least minesNb acceptable cells (unmined, not the clicked cell), or one acceptable cell that is revealed. setMine ignores a revealed cell (Cell.java:51-54), so such a cell is never used up; without one, each round uses up an unrevealed acceptable cell and the source's loop never ends once they run out. The random draw is a nondeterministic choice, so the model does not capture how long the retries take. Every preset has room (`Difficulties.Difficulty.Mines`).
- Controllers.MainController.PlaceMines: same precondition as GenerateMines, for the same loop. `StartGame` discharges it from the difficulty.
- The eight guarded `exploreGrid` calls are modelled as a recursion over the neighbour index k. `Boards.NeighbourGuards` proves that each guard matches.
- `MainController.clickCell` looks up the label through `frame.getCell`. The engine model addresses the cell by its coordinates instead. The lookup itself is `Layouts.LayoutLookup`.
- Controllers.MainController.ClickCell: a victory reached inside a flood triggers `endGame` in the inner call and again in the outer one. The model records only the resulting `finished` flag.
- The chord of the newer engine may reveal a mine without returning LOST. It can also fire on an unclicked cell. Both are modelled as written.
- A secondary click on a revealed, unmarked cell leaves the cell as it is but still lowers the counter. This is modelled as written.
- Timer threads (`model/Timer.java`, `net/darmo/gui/Timer.java`) are not modelled. Their (h, m, s) values arrive as parameters of `OnTimerEvent` and `SetTimer`.
- Controllers.MainController.OnTimerEvent: `lastTime` is an unbounded integer. The source's 32-bit overflow is not modelled; it would take over 596 hours.
- `REM_TEXT` is a localised string. It is a constructor parameter (`remText`).
- Java `long` and `int` overflow in `setScores` and the counters is not modelled; all integers are unbounded.
- The score list's order (`sortScores`), `Score.java` and the `Duration` type are not part of this model. A score is reduced to a username and a number of seconds.
- ScoresDialogs.ScoresDialog.SetScores: the map of scores is modelled as a Dafny `map` and visited in enum order. That is the order of the `TreeMap` the controller passes (src/main/java/net/darmo_creations/minesweeper/MainController.java:75). The result does not depend on the order, since each difficulty has its own table.
- Not modelled:
  - persistence (`ScoresDao.java`);
  - events;
  - settings and config plumbing;
  - `gui/Cell.java`;
  - `gui/CellClickListener.java`;
  - the legacy preset copy `net/darmo/gui/Difficulty.java`, which is the same table as `Difficulties`.
- Texts.Format02d: assumes a locale whose digits are ASCII. `String.format("%02d", v)` uses the default locale's digits, while the legacy `"0" + v` is always ASCII; `Texts.LeadingZeroFormatsAgree` and `Texts.TimerTextsAgree` hold under that assumption.
- MainFrames.MainFrame.GetCell and LegacyFrames.MainFrame.GetCell: require a grid (`gridShown`). On a frame without one the source's `getComponent(0)` throws, which the model does not represent. The engines only look labels up after `resetGrid`.
- Label sizes are kept as numbers only. The icon scaling in `setIcon` is not modelled.
