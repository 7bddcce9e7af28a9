/** The grid as a value: the rules shared by both engines (model/Grid.java
    and MainController.java) stated on a rectangular `seq<seq<CellState>>`
    indexed [row][column], like the source's Cell[][]. */
module Boards {
  import opened Cells

  type Board = seq<seq<CellState>>

  /** A (row, column) pair. */
  type Pos = (int, int)

  /** A non-empty rectangle: the source reads the column count from row 0. */
  predicate IsGrid(b: Board) {
    |b| > 0 && |b[0]| > 0 && forall r :: 0 <= r < |b| ==> |b[r]| == |b[0]|
  }

  predicate InBounds(b: Board, r: int, c: int) {
    0 <= r < |b| && 0 <= c < |b[r]|
  }

  ghost predicate AllValid(b: Board) {
    forall r, c :: InBounds(b, r, c) ==> b[r][c].Valid()
  }

  /** The board with the cell at (r, c) replaced. */
  function With(b: Board, r: int, c: int, v: CellState): (b': Board)
    requires InBounds(b, r, c)
    ensures |b'| == |b| && forall i :: 0 <= i < |b| ==> |b'[i]| == |b[i]|
    ensures b'[r][c] == v
    ensures forall i, j :: InBounds(b, i, j) && (i, j) != (r, c) ==> b'[i][j] == b[i][j]
  {
    b[r := b[r][c := v]]
  }

  lemma WithSame(b: Board, r: int, c: int)
    requires InBounds(b, r, c)
    ensures With(b, r, c, b[r][c]) == b
  {
    assert b[r][c := b[r][c]] == b[r];
  }

  /** A rows x cols board of fresh cells. */
  function FreshBoard(rows: int, cols: int): (b: Board)
    requires rows > 0 && cols > 0
    ensures IsGrid(b) && |b| == rows && |b[0]| == cols
    ensures forall r, c :: InBounds(b, r, c) ==> b[r][c] == Fresh
  {
    seq(rows, _ => seq(cols, _ => Fresh))
  }

  // ---------------------------------------------------------------------
  // Neighbourhood counts (getNearbyMinesNumber, getNearbyFlagsNumber)

  /** What a neighbour count looks at. `AnyCell` counts the clipped
      neighbourhood itself. */
  datatype Feature = Mines | Flags | AnyCell

  predicate Has(c: CellState, f: Feature) {
    match f
    case Mines => c.mine
    case Flags => c.flagged
    case AnyCell => true
  }

  /** booleanToInt */
  function Bit(x: bool): int {
    if x then 1 else 0
  }

  /** The eight edge-clipped terms of the source, in its order
      N, NE, E, SE, S, SW, W, NW. */
  function Nearby(b: Board, row: int, col: int, f: Feature): (n: int)
    requires IsGrid(b) && InBounds(b, row, col)
    ensures 0 <= n <= 8
  {
    var rows, cols := |b|, |b[0]|;
    (if row > 0 then Bit(Has(b[row - 1][col], f)) else 0)
    + (if col < cols - 1 && row > 0 then Bit(Has(b[row - 1][col + 1], f)) else 0)
    + (if col < cols - 1 then Bit(Has(b[row][col + 1], f)) else 0)
    + (if col < cols - 1 && row < rows - 1 then Bit(Has(b[row + 1][col + 1], f)) else 0)
    + (if row < rows - 1 then Bit(Has(b[row + 1][col], f)) else 0)
    + (if col > 0 && row < rows - 1 then Bit(Has(b[row + 1][col - 1], f)) else 0)
    + (if col > 0 then Bit(Has(b[row][col - 1], f)) else 0)
    + (if col > 0 && row > 0 then Bit(Has(b[row - 1][col - 1], f)) else 0)
  }

  function NearbyMines(b: Board, row: int, col: int): int
    requires IsGrid(b) && InBounds(b, row, col)
  {
    Nearby(b, row, col, Mines)
  }

  function NearbyFlags(b: Board, row: int, col: int): int
    requires IsGrid(b) && InBounds(b, row, col)
  {
    Nearby(b, row, col, Flags)
  }

  /** The Moore neighbourhood: one step in any direction, not the cell. */
  predicate Adjacent(row: int, col: int, r: int, c: int) {
    -1 <= r - row <= 1 && -1 <= c - col <= 1 && (r != row || c != col)
  }

  /** Reference definition: the in-bounds neighbours having the feature. */
  function NeighboursWith(b: Board, row: int, col: int, f: Feature): set<Pos>
    requires IsGrid(b)
  {
    set r, c | 0 <= r < |b| && 0 <= c < |b[0]| && Adjacent(row, col, r, c) && At(b, r, c, f) :: (r, c)
  }

  /** (r, c) is on the board and its cell has the feature. */
  predicate At(b: Board, r: int, c: int, f: Feature) {
    InBounds(b, r, c) && Has(b[r][c], f)
  }

  lemma DisjointUnionCard(s: set<Pos>, t: set<Pos>)
    requires s !! t
    ensures |s + t| == |s| + |t|
  {
  }

  /** The position p alone when `present`; nothing otherwise. */
  function Spot(present: bool, p: Pos): set<Pos> {
    if present then {p} else {}
  }

  /** The spot of (r, c) for feature f. */
  function SpotAt(b: Board, r: int, c: int, f: Feature): set<Pos> {
    Spot(At(b, r, c, f), (r, c))
  }

  /** The neighbourhood as the union of two halves of four spots each:
      N, NE, E, SE and S, SW, W, NW. */
  function EastHalf(b: Board, row: int, col: int, f: Feature): set<Pos> {
    SpotAt(b, row - 1, col, f) + SpotAt(b, row - 1, col + 1, f) + SpotAt(b, row, col + 1, f) + SpotAt(b, row + 1, col + 1, f)
  }

  function WestHalf(b: Board, row: int, col: int, f: Feature): set<Pos> {
    SpotAt(b, row + 1, col, f) + SpotAt(b, row + 1, col - 1, f) + SpotAt(b, row, col - 1, f) + SpotAt(b, row - 1, col - 1, f)
  }

  lemma NeighboursAsHalves(b: Board, row: int, col: int, f: Feature)
    requires IsGrid(b)
    ensures NeighboursWith(b, row, col, f) == EastHalf(b, row, col, f) + WestHalf(b, row, col, f)
  {
    var e, w := EastHalf(b, row, col, f), WestHalf(b, row, col, f);
    forall r, c | 0 <= r < |b| && 0 <= c < |b[0]| && Adjacent(row, col, r, c) && At(b, r, c, f)
      ensures (r, c) in e + w
    {
      assert (r, c) in SpotAt(b, r, c, f);
    }
    forall p | p in e + w
      ensures p in NeighboursWith(b, row, col, f)
    {
      assert At(b, p.0, p.1, f) && Adjacent(row, col, p.0, p.1);
    }
  }

  lemma AddSpot(s: set<Pos>, present: bool, p: Pos)
    requires p !in s
    ensures |s + Spot(present, p)| == |s| + |Spot(present, p)|
  {
  }

  /** Four spots at distinct positions: the union has the summed size. */
  lemma FourSpots(a: bool, b: bool, c: bool, d: bool, pa: Pos, pb: Pos, pc: Pos, pd: Pos)
    requires pa != pb && pa != pc && pa != pd && pb != pc && pb != pd && pc != pd
    ensures |Spot(a, pa) + Spot(b, pb) + Spot(c, pc) + Spot(d, pd)|
      == |Spot(a, pa)| + |Spot(b, pb)| + |Spot(c, pc)| + |Spot(d, pd)|
  {
    AddSpot(Spot(a, pa), b, pb);
    AddSpot(Spot(a, pa) + Spot(b, pb), c, pc);
    AddSpot(Spot(a, pa) + Spot(b, pb) + Spot(c, pc), d, pd);
  }

  /** The source's first four guarded terms are the sizes of the east spots. */
  lemma EastTerms(b: Board, row: int, col: int, f: Feature)
    requires IsGrid(b) && InBounds(b, row, col)
    ensures var rows, cols := |b|, |b[0]|;
      (if row > 0 then Bit(Has(b[row - 1][col], f)) else 0)
      + (if col < cols - 1 && row > 0 then Bit(Has(b[row - 1][col + 1], f)) else 0)
      + (if col < cols - 1 then Bit(Has(b[row][col + 1], f)) else 0)
      + (if col < cols - 1 && row < rows - 1 then Bit(Has(b[row + 1][col + 1], f)) else 0)
      == |SpotAt(b, row - 1, col, f)| + |SpotAt(b, row - 1, col + 1, f)| + |SpotAt(b, row, col + 1, f)| + |SpotAt(b, row + 1, col + 1, f)|
  {
  }

  /** The source's last four guarded terms are the sizes of the west spots. */
  lemma WestTerms(b: Board, row: int, col: int, f: Feature)
    requires IsGrid(b) && InBounds(b, row, col)
    ensures var rows := |b|;
      (if row < rows - 1 then Bit(Has(b[row + 1][col], f)) else 0)
      + (if col > 0 && row < rows - 1 then Bit(Has(b[row + 1][col - 1], f)) else 0)
      + (if col > 0 then Bit(Has(b[row][col - 1], f)) else 0)
      + (if col > 0 && row > 0 then Bit(Has(b[row - 1][col - 1], f)) else 0)
      == |SpotAt(b, row + 1, col, f)| + |SpotAt(b, row + 1, col - 1, f)| + |SpotAt(b, row, col - 1, f)| + |SpotAt(b, row - 1, col - 1, f)|
  {
  }

  lemma HalfSizes(b: Board, row: int, col: int, f: Feature)
    ensures |EastHalf(b, row, col, f)| ==
      |SpotAt(b, row - 1, col, f)| + |SpotAt(b, row - 1, col + 1, f)| + |SpotAt(b, row, col + 1, f)| + |SpotAt(b, row + 1, col + 1, f)|
    ensures |WestHalf(b, row, col, f)| ==
      |SpotAt(b, row + 1, col, f)| + |SpotAt(b, row + 1, col - 1, f)| + |SpotAt(b, row, col - 1, f)| + |SpotAt(b, row - 1, col - 1, f)|
  {
    FourSpots(At(b, row - 1, col, f), At(b, row - 1, col + 1, f), At(b, row, col + 1, f), At(b, row + 1, col + 1, f),
              (row - 1, col), (row - 1, col + 1), (row, col + 1), (row + 1, col + 1));
    FourSpots(At(b, row + 1, col, f), At(b, row + 1, col - 1, f), At(b, row, col - 1, f), At(b, row - 1, col - 1, f),
              (row + 1, col), (row + 1, col - 1), (row, col - 1), (row - 1, col - 1));
  }

  lemma HalvesDisjoint(b: Board, row: int, col: int, f: Feature)
    ensures EastHalf(b, row, col, f) !! WestHalf(b, row, col, f)
  {
    SpotsWithin(At(b, row - 1, col, f), At(b, row - 1, col + 1, f), At(b, row, col + 1, f), At(b, row + 1, col + 1, f),
                (row - 1, col), (row - 1, col + 1), (row, col + 1), (row + 1, col + 1));
    SpotsWithin(At(b, row + 1, col, f), At(b, row + 1, col - 1, f), At(b, row, col - 1, f), At(b, row - 1, col - 1, f),
                (row + 1, col), (row + 1, col - 1), (row, col - 1), (row - 1, col - 1));
    forall p | p in EastHalf(b, row, col, f)
      ensures p !in WestHalf(b, row, col, f)
    {
      assert p.1 > col || p == (row - 1, col);
    }
  }

  /** Four spots lie among their four positions. */
  lemma SpotsWithin(a: bool, b: bool, c: bool, d: bool, pa: Pos, pb: Pos, pc: Pos, pd: Pos)
    ensures Spot(a, pa) + Spot(b, pb) + Spot(c, pc) + Spot(d, pd) <= {pa, pb, pc, pd}
  {
  }

  /** The eight guarded terms count exactly the in-bounds neighbours that
      have the feature. */
  lemma NearbyCountsNeighbours(b: Board, row: int, col: int, f: Feature)
    requires IsGrid(b) && InBounds(b, row, col)
    ensures Nearby(b, row, col, f) == |NeighboursWith(b, row, col, f)|
  {
    NeighboursAsHalves(b, row, col, f);
    EastTerms(b, row, col, f);
    WestTerms(b, row, col, f);
    HalfSizes(b, row, col, f);
    HalvesDisjoint(b, row, col, f);
    DisjointUnionCard(EastHalf(b, row, col, f), WestHalf(b, row, col, f));
  }

  /** A corner has three neighbours, an edge cell five and an inner cell
      eight, on any grid of at least 2 x 2. */
  lemma NeighbourhoodSize(b: Board, row: int, col: int)
    requires IsGrid(b) && InBounds(b, row, col) && |b| >= 2 && |b[0]| >= 2
    ensures var onRowEdge := row == 0 || row == |b| - 1;
            var onColEdge := col == 0 || col == |b[0]| - 1;
            |NeighboursWith(b, row, col, AnyCell)| ==
              if onRowEdge && onColEdge then 3 else if onRowEdge || onColEdge then 5 else 8
  {
    NearbyCountsNeighbours(b, row, col, AnyCell);
  }

  /** A zero mine count means that no neighbour is a mine. */
  lemma ZeroMinesMeansSafeNeighbours(b: Board, row: int, col: int, r: int, c: int)
    requires IsGrid(b) && InBounds(b, row, col) && InBounds(b, r, c) && Adjacent(row, col, r, c)
    requires NearbyMines(b, row, col) == 0
    ensures !b[r][c].mine
  {
    NearbyCountsNeighbours(b, row, col, Mines);
    assert (r, c) !in NeighboursWith(b, row, col, Mines);
  }

  // ---------------------------------------------------------------------
  // Position sets

  function AllPositions(rows: int, cols: int): set<Pos> {
    set r, c | 0 <= r < rows && 0 <= c < cols :: (r, c)
  }

  function Unclicked(b: Board): set<Pos>
    requires IsGrid(b)
  {
    set r, c | 0 <= r < |b| && 0 <= c < |b[0]| && !b[r][c].clicked :: (r, c)
  }

  function MinePositions(b: Board): set<Pos>
    requires IsGrid(b)
  {
    set r, c | 0 <= r < |b| && 0 <= c < |b[0]| && b[r][c].mine :: (r, c)
  }

  function FlagPositions(b: Board): set<Pos>
    requires IsGrid(b)
  {
    set r, c | 0 <= r < |b| && 0 <= c < |b[0]| && b[r][c].flagged :: (r, c)
  }

  function RowPositions(r: int, cols: int): set<Pos> {
    set c | 0 <= c < cols :: (r, c)
  }

  lemma {:induction false} RowPositionsCard(r: int, cols: nat)
    ensures |RowPositions(r, cols)| == cols
  {
    if cols > 0 {
      RowPositionsCard(r, cols - 1);
      assert RowPositions(r, cols) == RowPositions(r, cols - 1) + {(r, cols - 1)};
    } else {
      assert RowPositions(r, cols) == {};
    }
  }

  /** A rows x cols grid has rows * cols positions. */
  lemma {:induction false} AllPositionsCard(rows: nat, cols: nat)
    ensures |AllPositions(rows, cols)| == rows * cols
  {
    if rows > 0 {
      AllPositionsCard(rows - 1, cols);
      RowPositionsCard(rows - 1, cols);
      var prev, last := AllPositions(rows - 1, cols), RowPositions(rows - 1, cols);
      assert AllPositions(rows, cols) == prev + last;
      DisjointUnionCard(prev, last);
      assert rows * cols == (rows - 1) * cols + cols;
    } else {
      assert AllPositions(rows, cols) == {};
    }
  }

  // ---------------------------------------------------------------------
  // Victory (checkVictory)

  /** The game is won when every cell is revealed or holds a mine. */
  ghost predicate IsVictory(b: Board) {
    forall r, c :: InBounds(b, r, c) ==> b[r][c].clicked || b[r][c].mine
  }

  /** Victory is exactly "every unrevealed cell is a mine". */
  lemma VictoryBySets(b: Board)
    requires IsGrid(b)
    ensures IsVictory(b) <==> Unclicked(b) <= MinePositions(b)
  {
    if !IsVictory(b) {
      var r, c :| InBounds(b, r, c) && !b[r][c].clicked && !b[r][c].mine;
      assert (r, c) in Unclicked(b) && (r, c) !in MinePositions(b);
    }
  }

  /** A won board has no more unrevealed cells than mines. */
  lemma VictoryLeavesAtMostMines(b: Board)
    requires IsGrid(b) && IsVictory(b)
    ensures |Unclicked(b)| <= |MinePositions(b)|
  {
    VictoryBySets(b);
    SubsetCard(Unclicked(b), MinePositions(b));
  }

  lemma {:induction false} SubsetCard(s: set<Pos>, t: set<Pos>)
    requires s <= t
    ensures |s| <= |t|
  {
    if s != {} {
      var x :| x in s;
      SubsetCard(s - {x}, t - {x});
    }
  }

  /** A fresh board is never won: some cell is neither revealed nor mined. */
  lemma FreshBoardNotWon(rows: int, cols: int)
    requires rows > 0 && cols > 0
    ensures !IsVictory(FreshBoard(rows, cols))
    ensures MinePositions(FreshBoard(rows, cols)) == {}
    ensures Unclicked(FreshBoard(rows, cols)) == AllPositions(rows, cols)
    ensures AllValid(FreshBoard(rows, cols))
  {
    var b := FreshBoard(rows, cols);
    assert InBounds(b, 0, 0) && !b[0][0].clicked && !b[0][0].mine;
  }

  // ---------------------------------------------------------------------
  // Revealing cells: what a click or a flood may change

  /** Only `clicked` may change, only from false to true, and never on a
      flagged cell. */
  predicate CellGrows(c0: CellState, c1: CellState) {
    c1.mine == c0.mine && c1.flagged == c0.flagged && c1.marked == c0.marked
    && (c0.clicked ==> c1.clicked) && (c0.flagged ==> c1.clicked == c0.clicked)
  }

  /** b1 is b0 with possibly more cells revealed and nothing else changed. */
  ghost predicate Grows(b0: Board, b1: Board) {
    IsGrid(b0) && |b1| == |b0| && (forall r :: 0 <= r < |b0| ==> |b1[r]| == |b0[r]|)
    && forall r, c :: InBounds(b0, r, c) ==> CellGrows(b0[r][c], b1[r][c])
  }

  lemma GrowsRefl(b: Board)
    requires IsGrid(b)
    ensures Grows(b, b)
  {
  }

  lemma GrowsTrans(b0: Board, b1: Board, b2: Board)
    requires Grows(b0, b1) && Grows(b1, b2)
    ensures Grows(b0, b2)
  {
  }

  /** Revealing cells only shrinks the unrevealed set, leaves the mines where
      they are and keeps a won board won. */
  lemma GrowsKeeps(b0: Board, b1: Board)
    requires Grows(b0, b1)
    ensures IsGrid(b1) && |b1[0]| == |b0[0]|
    ensures Unclicked(b1) <= Unclicked(b0)
    ensures MinePositions(b1) == MinePositions(b0)
    ensures FlagPositions(b1) == FlagPositions(b0)
    ensures AllValid(b0) ==> AllValid(b1)
    ensures IsVictory(b0) ==> IsVictory(b1)
  {
  }

  /** Neighbour counts of mines and flags do not move while cells are
      revealed. */
  lemma GrowsKeepsCounts(b0: Board, b1: Board, row: int, col: int)
    requires Grows(b0, b1) && InBounds(b0, row, col)
    ensures IsGrid(b1) && InBounds(b1, row, col)
    ensures NearbyMines(b1, row, col) == NearbyMines(b0, row, col)
    ensures NearbyFlags(b1, row, col) == NearbyFlags(b0, row, col)
  {
  }

  /** Revealing an unflagged, unrevealed cell. */
  lemma RevealStep(b: Board, r: int, c: int, n: int)
    requires IsGrid(b) && InBounds(b, r, c) && !b[r][c].clicked && !b[r][c].flagged && 0 <= n <= 9
    ensures var b' := With(b, r, c, b[r][c].Click(n).0);
      Grows(b, b') && b'[r][c].clicked && Unclicked(b') == Unclicked(b) - {(r, c)}
      && (forall i, j :: Revealed(b, b', i, j) ==> i == r && j == c)
      && FloodFrom(b, b', r, c, true, false)
  {
    var b' := With(b, r, c, b[r][c].Click(n).0);
    assert (r, c) in Unclicked(b);
    assert Unclicked(b') == Unclicked(b) - {(r, c)};
    assert Leads(b, b', r, c, true, false, [(r, c)], r, c);
  }

  /** The cell at (r, c), when on the board, is revealed or flagged. */
  predicate Settled(b: Board, r: int, c: int) {
    InBounds(b, r, c) ==> b[r][c].clicked || b[r][c].flagged
  }

  /** Every neighbour of (row, col) is revealed or flagged: what the flood
      leaves around a cell without nearby mines. */
  ghost predicate Covered(b: Board, row: int, col: int) {
    forall r, c :: Adjacent(row, col, r, c) ==> Settled(b, r, c)
  }

  /** Newly revealed at (r, c) between b0 and b1. */
  ghost predicate Revealed(b0: Board, b1: Board, r: int, c: int) {
    InBounds(b0, r, c) && InBounds(b1, r, c) && !b0[r][c].clicked && b1[r][c].clicked
  }

  /** Every cell revealed between b0 and b1 that has no mine around it has
      its whole neighbourhood revealed or flagged in b1. */
  ghost predicate FloodClosed(b0: Board, b1: Board) {
    IsGrid(b1) && forall r, c :: Revealed(b0, b1, r, c) && NearbyMines(b1, r, c) == 0 ==> Covered(b1, r, c)
  }

  /** The effect of exploreGrid: cells revealed, the flood closed. */
  ghost predicate Explores(b0: Board, b1: Board) {
    Grows(b0, b1) && FloodClosed(b0, b1)
  }

  lemma ExploresRefl(b: Board)
    requires IsGrid(b)
    ensures Explores(b, b)
  {
  }

  lemma {:induction false} SettledGrows(b0: Board, b1: Board, row: int, col: int)
    requires Grows(b0, b1) && Covered(b0, row, col)
    ensures Covered(b1, row, col)
  {
    forall r, c | Adjacent(row, col, r, c)
      ensures Settled(b1, r, c)
    {
      assert Settled(b0, r, c);
    }
  }

  lemma ExploresTrans(b0: Board, b1: Board, b2: Board)
    requires Explores(b0, b1) && Explores(b1, b2)
    ensures Explores(b0, b2)
  {
    GrowsTrans(b0, b1, b2);
    forall r, c | Revealed(b0, b2, r, c) && NearbyMines(b2, r, c) == 0
      ensures Covered(b2, r, c)
    {
      if b1[r][c].clicked {
        GrowsKeepsCounts(b1, b2, r, c);
        assert Revealed(b0, b1, r, c);
        SettledGrows(b1, b2, r, c);
      } else {
        assert Revealed(b1, b2, r, c);
      }
    }
  }

  /** Revealing (row, col) and then exploring from there closes the flood,
      provided the exploration covers the cell when it has no mine around. */
  lemma RevealThenExplore(b0: Board, b1: Board, b2: Board, row: int, col: int)
    requires Grows(b0, b1) && Explores(b1, b2) && InBounds(b0, row, col)
    requires forall r, c :: Revealed(b0, b1, r, c) ==> (r, c) == (row, col)
    requires NearbyMines(b1, row, col) == 0 ==> Covered(b2, row, col)
    ensures Explores(b0, b2)
  {
    GrowsTrans(b0, b1, b2);
    forall r, c | Revealed(b0, b2, r, c) && NearbyMines(b2, r, c) == 0
      ensures Covered(b2, r, c)
    {
      GrowsKeepsCounts(b1, b2, r, c);
      if (r, c) != (row, col) {
        assert Revealed(b1, b2, r, c);
      }
    }
  }

  // ---------------------------------------------------------------------
  // How far a flood may reach

  /** A path of the flood between b0 and b1: cells revealed between b0 and
      b1, each next to the one before it, every one but the last without a
      mine around it in b1 (the flood only goes on from such cells). */
  ghost predicate Chain(b0: Board, b1: Board, path: seq<Pos>) {
    |path| > 0 && IsGrid(b1)
    && (forall i :: 0 <= i < |path| ==>
          InBounds(b0, path[i].0, path[i].1) && InBounds(b1, path[i].0, path[i].1)
          && !b0[path[i].0][path[i].1].clicked && b1[path[i].0][path[i].1].clicked)
    && (forall i :: 0 <= i < |path| - 1 ==>
          Adjacent(path[i].0, path[i].1, path[i + 1].0, path[i + 1].1) && NearbyMines(b1, path[i].0, path[i].1) == 0)
  }

  /** A Chain from (row, col) itself when `self`, or from a neighbour of
      (row, col) when `around`, to (r, c). */
  ghost predicate Leads(b0: Board, b1: Board, row: int, col: int, self: bool, around: bool, path: seq<Pos>, r: int, c: int) {
    Chain(b0, b1, path) && path[|path| - 1] == (r, c)
    && ((self && path[0] == (row, col)) || (around && Adjacent(row, col, path[0].0, path[0].1)))
  }

  /** Every cell revealed between b0 and b1 is connected to (row, col)
      through a Leads path. */
  ghost predicate FloodFrom(b0: Board, b1: Board, row: int, col: int, self: bool, around: bool) {
    forall r, c :: Revealed(b0, b1, r, c) ==> exists path :: Leads(b0, b1, row, col, self, around, path, r, c)
  }

  /** Nothing but (row, col) is revealed between b0 and b1. */
  ghost predicate OnlyRevealed(b0: Board, b1: Board, row: int, col: int) {
    forall r, c :: Revealed(b0, b1, r, c) ==> r == row && c == col
  }

  /** A path of either of two stretches of reveals is a path over both: its
      cells stay revealed and their counts do not move. */
  lemma ChainGrows(b0: Board, b1: Board, b2: Board, path: seq<Pos>)
    requires Grows(b0, b1) && Grows(b1, b2)
    requires Chain(b0, b1, path) || Chain(b1, b2, path)
    ensures Chain(b0, b2, path)
  {
    GrowsKeeps(b0, b1);
    GrowsKeeps(b1, b2);
    forall i | 0 <= i < |path|
      ensures Revealed(b0, b2, path[i].0, path[i].1)
      ensures NearbyMines(b2, path[i].0, path[i].1) == NearbyMines(b1, path[i].0, path[i].1)
    {
      GrowsKeepsCounts(b1, b2, path[i].0, path[i].1);
    }
  }

  /** A path extended backwards by a revealed cell without nearby mines
      next to its start. */
  lemma ChainCons(b0: Board, b1: Board, p: Pos, path: seq<Pos>)
    requires Chain(b0, b1, path) && Revealed(b0, b1, p.0, p.1)
    requires Adjacent(p.0, p.1, path[0].0, path[0].1) && NearbyMines(b1, p.0, p.1) == 0
    ensures Chain(b0, b1, [p] + path)
  {
    var q := [p] + path;
    forall i | 0 <= i < |q| - 1
      ensures Adjacent(q[i].0, q[i].1, q[i + 1].0, q[i + 1].1) && NearbyMines(b1, q[i].0, q[i].1) == 0
    {
      if i > 0 {
        assert q[i] == path[i - 1] && q[i + 1] == path[i];
      }
    }
  }

  /** A cell reached in the first of two stretches of reveals is reached
      over both. */
  lemma ReachedBefore(b0: Board, b1: Board, b2: Board, row: int, col: int, self: bool, around: bool, r: int, c: int)
    requires Grows(b0, b1) && Grows(b1, b2)
    requires exists path :: Leads(b0, b1, row, col, self, around, path, r, c)
    ensures exists path :: Leads(b0, b2, row, col, self, around, path, r, c)
  {
    var path :| Leads(b0, b1, row, col, self, around, path, r, c);
    ChainGrows(b0, b1, b2, path);
    assert Leads(b0, b2, row, col, self, around, path, r, c);
  }

  /** Revealing (row, col) with what may come of it, then flooding around
      it when it has no mine around: every revealed cell is connected to
      (row, col). */
  lemma FloodAfterReveal(b0: Board, b1: Board, b2: Board, row: int, col: int)
    requires Grows(b0, b1) && Grows(b1, b2) && Revealed(b0, b1, row, col)
    requires FloodFrom(b0, b1, row, col, true, false)
    requires FloodFrom(b1, b2, row, col, false, NearbyMines(b1, row, col) == 0)
    ensures FloodFrom(b0, b2, row, col, true, false)
  {
    forall r, c | Revealed(b0, b2, r, c)
      ensures exists path :: Leads(b0, b2, row, col, true, false, path, r, c)
    {
      if b1[r][c].clicked {
        assert Revealed(b0, b1, r, c);
        ReachedBefore(b0, b1, b2, row, col, true, false, r, c);
      } else {
        assert Revealed(b1, b2, r, c);
        ReachedAfterCentre(b0, b1, b2, row, col, NearbyMines(b1, row, col) == 0, r, c);
      }
    }
  }

  /** A cell the flood around a revealed (row, col) without nearby mines
      reaches is reached from (row, col) over both stretches. */
  lemma ReachedAfterCentre(b0: Board, b1: Board, b2: Board, row: int, col: int, around: bool, r: int, c: int)
    requires Grows(b0, b1) && Grows(b1, b2) && Revealed(b0, b1, row, col)
    requires around ==> NearbyMines(b1, row, col) == 0
    requires exists path :: Leads(b1, b2, row, col, false, around, path, r, c)
    ensures exists path :: Leads(b0, b2, row, col, true, false, path, r, c)
  {
    var path :| Leads(b1, b2, row, col, false, around, path, r, c);
    ChainGrows(b0, b1, b2, path);
    GrowsKeepsCounts(b1, b2, row, col);
    assert Revealed(b0, b2, row, col);
    ChainCons(b0, b2, (row, col), path);
    assert Leads(b0, b2, row, col, true, false, [(row, col)] + path, r, c);
  }

  /** The flood from one neighbour of (row, col) adds to the flood around
      (row, col). */
  lemma FloodAroundStep(b0: Board, b1: Board, b2: Board, row: int, col: int, i: int, j: int)
    requires Adjacent(row, col, i, j) && Grows(b0, b1) && Grows(b1, b2)
    requires FloodFrom(b0, b1, row, col, false, true)
    requires FloodFrom(b1, b2, i, j, true, false)
    ensures FloodFrom(b0, b2, row, col, false, true)
  {
    forall r, c | Revealed(b0, b2, r, c)
      ensures exists path :: Leads(b0, b2, row, col, false, true, path, r, c)
    {
      if Revealed(b0, b1, r, c) {
        ReachedBefore(b0, b1, b2, row, col, false, true, r, c);
      } else {
        ReachedFromNeighbour(b0, b1, b2, row, col, i, j, r, c);
      }
    }
  }

  /** A cell reached from a neighbour (i, j) of (row, col) is reached from
      around (row, col). */
  lemma ReachedFromNeighbour(b0: Board, b1: Board, b2: Board, row: int, col: int, i: int, j: int, r: int, c: int)
    requires Adjacent(row, col, i, j) && Grows(b0, b1) && Grows(b1, b2)
    requires Revealed(b0, b2, r, c) && !Revealed(b0, b1, r, c) && FloodFrom(b1, b2, i, j, true, false)
    ensures exists path :: Leads(b0, b2, row, col, false, true, path, r, c)
  {
    assert Revealed(b1, b2, r, c);
    var path :| Leads(b1, b2, i, j, true, false, path, r, c);
    ChainGrows(b0, b1, b2, path);
    assert Leads(b0, b2, row, col, false, true, path, r, c);
  }

  /** The same reveals measured from before the mines were placed. */
  lemma FloodFromPlacing(b0: Board, b1: Board, b2: Board, row: int, col: int)
    requires SameButMines(b0, b1) && Grows(b1, b2)
    ensures FloodFrom(b1, b2, row, col, true, false) ==> FloodFrom(b0, b2, row, col, true, false)
    ensures OnlyRevealed(b1, b2, row, col) ==> OnlyRevealed(b0, b2, row, col)
    ensures FloodClosed(b1, b2) ==> FloodClosed(b0, b2)
    ensures GrowsButMines(b0, b2)
  {
    forall r, c | Revealed(b0, b2, r, c)
      ensures Revealed(b1, b2, r, c)
    {
    }
    if FloodFrom(b1, b2, row, col, true, false) {
      forall r, c | Revealed(b0, b2, r, c)
        ensures exists path :: Leads(b0, b2, row, col, true, false, path, r, c)
      {
        assert Revealed(b1, b2, r, c);
        var path: seq<Pos> :| Leads(b1, b2, row, col, true, false, path, r, c);
        forall i | 0 <= i < |path|
          ensures Revealed(b0, b2, path[i].0, path[i].1)
        {
        }
        assert Leads(b0, b2, row, col, true, false, path, r, c);
      }
    }
  }

  /** The flood does not jump: when a whole column w right of (row, col)
      and its neighbours stays unrevealed, nothing beyond it is revealed. */
  lemma FloodStaysLeftOfWall(b0: Board, b1: Board, row: int, col: int, self: bool, around: bool, w: int)
    requires FloodFrom(b0, b1, row, col, self, around) && col + 1 < w
    requires forall r :: InBounds(b1, r, w) ==> !b1[r][w].clicked
    ensures forall r, c :: Revealed(b0, b1, r, c) ==> c < w
  {
    forall r, c | Revealed(b0, b1, r, c)
      ensures c < w
    {
      var path: seq<Pos> :| Leads(b0, b1, row, col, self, around, path, r, c);
      ChainLeftOfWall(b0, b1, path, w);
    }
  }

  /** A path that starts left of an unrevealed column w stays left of it. */
  lemma {:induction false} ChainLeftOfWall(b0: Board, b1: Board, path: seq<Pos>, w: int)
    requires Chain(b0, b1, path) && path[0].1 < w
    requires forall r :: InBounds(b1, r, w) ==> !b1[r][w].clicked
    ensures path[|path| - 1].1 < w
  {
    var i := 1;
    while i < |path|
      invariant 1 <= i <= |path| && path[i - 1].1 < w
    {
      assert InBounds(b1, path[i].0, path[i].1) && b1[path[i].0][path[i].1].clicked;
      assert Adjacent(path[i - 1].0, path[i - 1].1, path[i].0, path[i].1);
      i := i + 1;
    }
  }

  /** Like Grows, but the mines may differ: what the first click, which
      places the mines, does to the other fields. */
  ghost predicate GrowsButMines(b0: Board, b1: Board) {
    IsGrid(b0) && |b1| == |b0| && (forall r :: 0 <= r < |b0| ==> |b1[r]| == |b0[r]|)
    && forall r, c :: InBounds(b0, r, c) ==>
         b1[r][c].flagged == b0[r][c].flagged && b1[r][c].marked == b0[r][c].marked
         && (b0[r][c].clicked ==> b1[r][c].clicked) && (b0[r][c].flagged ==> b1[r][c].clicked == b0[r][c].clicked)
  }

  // ---------------------------------------------------------------------
  // Where a reveal may hit a mine

  ghost predicate RevealedMine(b0: Board, b1: Board, r: int, c: int) {
    Revealed(b0, b1, r, c) && b1[r][c].mine
  }

  /** No mine revealed at all. */
  ghost predicate NoMineRevealed(b0: Board, b1: Board) {
    forall r, c :: !RevealedMine(b0, b1, r, c)
  }

  /** A mine is revealed, if at all, only at (row, col). */
  ghost predicate MinesOnlyAt(b0: Board, b1: Board, row: int, col: int) {
    forall r, c :: RevealedMine(b0, b1, r, c) ==> r == row && c == col
  }

  /** A mine is revealed, if at all, only next to (row, col). */
  ghost predicate MinesOnlyAround(b0: Board, b1: Board, row: int, col: int) {
    forall r, c :: RevealedMine(b0, b1, r, c) ==> Adjacent(row, col, r, c)
  }

  lemma MinesOnlyAroundTrans(b0: Board, b1: Board, b2: Board, row: int, col: int)
    requires Grows(b0, b1) && Grows(b1, b2)
    requires MinesOnlyAround(b0, b1, row, col) && MinesOnlyAround(b1, b2, row, col)
    ensures MinesOnlyAround(b0, b2, row, col)
  {
    forall r, c | RevealedMine(b0, b2, r, c)
      ensures Adjacent(row, col, r, c)
    {
      if b1[r][c].clicked {
        assert RevealedMine(b0, b1, r, c);
      } else {
        assert RevealedMine(b1, b2, r, c);
      }
    }
  }

  /** The k-th neighbour in the order of the source's eight calls:
      N, NE, E, SE, S, SW, W, NW. */
  function Neighbour(row: int, col: int, k: int): (p: Pos)
    ensures 0 <= k < 8 ==> Adjacent(row, col, p.0, p.1)
  {
    if k == 0 then (row - 1, col)
    else if k == 1 then (row - 1, col + 1)
    else if k == 2 then (row, col + 1)
    else if k == 3 then (row + 1, col + 1)
    else if k == 4 then (row + 1, col)
    else if k == 5 then (row + 1, col - 1)
    else if k == 6 then (row, col - 1)
    else (row - 1, col - 1)
  }

  /** For a cell on the board, the source's guard on each of its eight
      calls holds exactly when that neighbour is on the board. */
  lemma NeighbourGuards(b: Board, row: int, col: int)
    requires IsGrid(b) && InBounds(b, row, col)
    ensures var rows, cols := |b|, |b[0]|;
      var on := k => InBounds(b, Neighbour(row, col, k).0, Neighbour(row, col, k).1);
      (on(0) <==> row > 0)
      && (on(1) <==> row > 0 && col < cols - 1)
      && (on(2) <==> col < cols - 1)
      && (on(3) <==> row < rows - 1 && col < cols - 1)
      && (on(4) <==> row < rows - 1)
      && (on(5) <==> row < rows - 1 && col > 0)
      && (on(6) <==> col > 0)
      && (on(7) <==> row > 0 && col > 0)
  {
  }

  /** The flood around (row, col) after its first k calls: b0 explored to
      b, mines revealed only next to (row, col), the first k neighbours
      revealed, flagged or off the board. */
  ghost predicate Progress(b0: Board, b: Board, row: int, col: int, k: int) {
    Explores(b0, b) && MinesOnlyAround(b0, b, row, col) && Unclicked(b) <= Unclicked(b0)
    && FloodFrom(b0, b, row, col, false, true)
    && forall i :: 0 <= i < k ==> Settled(b, Neighbour(row, col, i).0, Neighbour(row, col, i).1)
  }

  lemma ProgressStart(b: Board, row: int, col: int)
    requires IsGrid(b)
    ensures Progress(b, b, row, col, 0)
  {
  }

  /** The k-th call, exploreGrid(neighbour, false), extends the progress. */
  lemma {:induction false} ProgressStep(b0: Board, b1: Board, b2: Board, row: int, col: int, k: int)
    requires 0 <= k < 8 && Progress(b0, b1, row, col, k)
    requires Explores(b1, b2) && MinesOnlyAt(b1, b2, Neighbour(row, col, k).0, Neighbour(row, col, k).1)
    requires FloodFrom(b1, b2, Neighbour(row, col, k).0, Neighbour(row, col, k).1, true, false)
    requires Settled(b2, Neighbour(row, col, k).0, Neighbour(row, col, k).1)
    ensures Progress(b0, b2, row, col, k + 1)
  {
    ExploresTrans(b0, b1, b2);
    FloodAroundStep(b0, b1, b2, row, col, Neighbour(row, col, k).0, Neighbour(row, col, k).1);
    GrowsKeeps(b0, b2);
    GrowsKeeps(b1, b2);
    forall r, c | RevealedMine(b1, b2, r, c)
      ensures Adjacent(row, col, r, c)
    {
    }
    MinesOnlyAroundTrans(b0, b1, b2, row, col);
    forall i | 0 <= i < k + 1
      ensures Settled(b2, Neighbour(row, col, i).0, Neighbour(row, col, i).1)
    {
      if i < k {
        var (r, c) := Neighbour(row, col, i);
        assert Settled(b1, r, c);
      }
    }
  }

  /** A call the source skips because the neighbour is off the board. */
  lemma ProgressSkip(b0: Board, b: Board, row: int, col: int, k: int)
    requires 0 <= k < 8 && Progress(b0, b, row, col, k)
    requires !InBounds(b, Neighbour(row, col, k).0, Neighbour(row, col, k).1)
    ensures Progress(b0, b, row, col, k + 1)
  {
  }

  /** After the eight calls the neighbourhood is covered. */
  lemma ProgressCovers(b0: Board, b: Board, row: int, col: int)
    requires Progress(b0, b, row, col, 8)
    ensures Covered(b, row, col)
  {
    forall r, c | Adjacent(row, col, r, c)
      ensures Settled(b, r, c)
    {
      var k :=
        if (r, c) == (row - 1, col) then 0
        else if (r, c) == (row - 1, col + 1) then 1
        else if (r, c) == (row, col + 1) then 2
        else if (r, c) == (row + 1, col + 1) then 3
        else if (r, c) == (row + 1, col) then 4
        else if (r, c) == (row + 1, col - 1) then 5
        else if (r, c) == (row, col - 1) then 6
        else 7;
      assert Neighbour(row, col, k) == (r, c);
    }
  }

  /** Revealing (row, col) alone, then revealing mines only there. */
  lemma MinesOnlyAtCompose(b0: Board, b1: Board, b2: Board, row: int, col: int)
    requires Grows(b0, b1) && Grows(b1, b2)
    requires forall r, c :: Revealed(b0, b1, r, c) ==> r == row && c == col
    requires MinesOnlyAt(b1, b2, row, col)
    ensures MinesOnlyAt(b0, b2, row, col)
  {
    forall r, c | RevealedMine(b0, b2, r, c)
      ensures r == row && c == col
    {
      if b1[r][c].clicked {
        assert Revealed(b0, b1, r, c);
      } else {
        assert RevealedMine(b1, b2, r, c);
      }
    }
  }

  /** Two stretches that each reveal a mine only at (row, col). */
  lemma MinesOnlyAtTrans(b0: Board, b1: Board, b2: Board, row: int, col: int)
    requires Grows(b0, b1) && Grows(b1, b2)
    requires MinesOnlyAt(b0, b1, row, col) && MinesOnlyAt(b1, b2, row, col)
    ensures MinesOnlyAt(b0, b2, row, col)
  {
    forall r, c | RevealedMine(b0, b2, r, c)
      ensures r == row && c == col
    {
      if b1[r][c].clicked {
        assert RevealedMine(b0, b1, r, c);
      } else {
        assert RevealedMine(b1, b2, r, c);
      }
    }
  }

  /** A mine revealed in either of two stretches is revealed over both. */
  lemma RevealedMinesGrow(b0: Board, b1: Board, b2: Board)
    requires Grows(b0, b1) && Grows(b1, b2)
    ensures !NoMineRevealed(b0, b1) ==> !NoMineRevealed(b0, b2)
    ensures !NoMineRevealed(b1, b2) ==> !NoMineRevealed(b0, b2)
  {
    if !NoMineRevealed(b0, b1) {
      var r, c :| RevealedMine(b0, b1, r, c);
      assert RevealedMine(b0, b2, r, c);
    }
    if !NoMineRevealed(b1, b2) {
      var r, c :| RevealedMine(b1, b2, r, c);
      assert RevealedMine(b0, b2, r, c);
    }
  }

  /** Exploring around a cell with no mine around reveals no mine. */
  lemma SafeAroundZero(b0: Board, b1: Board, row: int, col: int)
    requires Grows(b0, b1) && InBounds(b0, row, col) && NearbyMines(b0, row, col) == 0
    requires MinesOnlyAround(b0, b1, row, col)
    ensures NoMineRevealed(b0, b1)
  {
    forall r, c | RevealedMine(b0, b1, r, c)
      ensures false
    {
      ZeroMinesMeansSafeNeighbours(b0, row, col, r, c);
    }
  }

  // ---------------------------------------------------------------------
  // Mine placement (generateMines)

  /** The cells a new mine may still go to: on the board, without a mine,
      and not the cell of the first click. */
  function Free(b: Board, clickedRow: int, clickedCol: int): set<Pos>
    requires IsGrid(b)
  {
    set r, c | 0 <= r < |b| && 0 <= c < |b[0]| && !b[r][c].mine && (r, c) != (clickedRow, clickedCol) :: (r, c)
  }

  /** Everything but the mines is the same. */
  ghost predicate SameButMines(b0: Board, b1: Board) {
    IsGrid(b0) && |b1| == |b0| && (forall r :: 0 <= r < |b0| ==> |b1[r]| == |b0[r]|)
    && forall r, c :: InBounds(b0, r, c) ==>
         b1[r][c].clicked == b0[r][c].clicked && b1[r][c].flagged == b0[r][c].flagged && b1[r][c].marked == b0[r][c].marked
  }

  ghost predicate NoneClicked(b: Board) {
    forall r, c :: InBounds(b, r, c) ==> !b[r][c].clicked
  }

  lemma SameButMinesTrans(b0: Board, b1: Board, b2: Board)
    requires SameButMines(b0, b1) && SameButMines(b1, b2)
    ensures SameButMines(b0, b2)
    ensures NoneClicked(b0) ==> NoneClicked(b2)
    ensures AllValid(b0) ==> AllValid(b2)
  {
  }

  /** Placing mines moves no flag and reveals nothing. */
  lemma SameButMinesKeeps(b0: Board, b1: Board)
    requires SameButMines(b0, b1)
    ensures IsGrid(b1)
    ensures FlagPositions(b1) == FlagPositions(b0) && Unclicked(b1) == Unclicked(b0)
  {
  }

  /** The same cell written into two boards that differ only in mines. */
  lemma SameButMinesWith(b0: Board, b1: Board, r: int, c: int, v: CellState)
    requires SameButMines(b0, b1) && InBounds(b0, r, c)
    ensures SameButMines(With(b0, r, c, v), With(b1, r, c, v))
  {
  }

  /** A reveal after the mines were placed that shows none of them shows no
      mine measured from before the placement either. */
  lemma NoMineRevealedAfterPlacing(b0: Board, b1: Board, b2: Board)
    requires SameButMines(b0, b1) && Grows(b1, b2) && NoMineRevealed(b1, b2)
    ensures NoMineRevealed(b0, b2)
  {
    forall r, c | RevealedMine(b0, b2, r, c)
      ensures false
    {
      assert RevealedMine(b1, b2, r, c);
    }
  }

  /** Some cell the draw may pick is already revealed: setMine ignores it,
      so it stays free and the draw never runs out of cells. */
  ghost predicate RevealedFree(b: Board, clickedRow: int, clickedCol: int)
    requires IsGrid(b)
  {
    exists p :: p in Free(b, clickedRow, clickedCol) && b[p.0][p.1].clicked
  }

  /** What i rounds of mine placement leave: only mines added, none on the
      clicked cell, at most i fewer free cells, a revealed free cell still
      there and, on a board without revealed cells, exactly i more mines. */
  ghost predicate Placed(b0: Board, b: Board, clickedRow: int, clickedCol: int, i: int) {
    SameButMines(b0, b) && IsGrid(b)
    && |Free(b, clickedRow, clickedCol)| >= |Free(b0, clickedRow, clickedCol)| - i
    && (RevealedFree(b0, clickedRow, clickedCol) ==> RevealedFree(b, clickedRow, clickedCol))
    && MinePositions(b0) <= MinePositions(b)
    && (InBounds(b0, clickedRow, clickedCol) ==> b[clickedRow][clickedCol].mine == b0[clickedRow][clickedCol].mine)
    && (NoneClicked(b0) ==> NoneClicked(b) && |MinePositions(b)| == |MinePositions(b0)| + i)
    && (AllValid(b0) ==> AllValid(b))
  }

  lemma PlacedStart(b: Board, clickedRow: int, clickedCol: int)
    requires IsGrid(b)
    ensures Placed(b, b, clickedRow, clickedCol, 0)
  {
  }

  /** One round of generateMines: a mine set on a free cell. */
  lemma PlacedStep(b0: Board, b: Board, r: int, c: int, clickedRow: int, clickedCol: int, i: int)
    requires Placed(b0, b, clickedRow, clickedCol, i) && (r, c) in Free(b, clickedRow, clickedCol)
    ensures InBounds(b, r, c)
    ensures Placed(b0, With(b, r, c, b[r][c].SetMine(true)), clickedRow, clickedCol, i + 1)
  {
    PlaceMine(b, r, c, clickedRow, clickedCol);
    var b' := With(b, r, c, b[r][c].SetMine(true));
    SameButMinesTrans(b0, b, b');
    if RevealedFree(b0, clickedRow, clickedCol) {
      var q :| q in Free(b, clickedRow, clickedCol) && b[q.0][q.1].clicked;
      if q != (r, c) {
        assert b'[q.0][q.1] == b[q.0][q.1];
      }
      assert q in Free(b', clickedRow, clickedCol);
    }
    if !b[r][c].clicked {
      assert |Free(b', clickedRow, clickedCol)| == |Free(b, clickedRow, clickedCol)| - 1;
      assert (r, c) !in MinePositions(b);
    }
  }

  /** Setting a mine on a free cell: one more mine, one less free cell; on a
      revealed cell nothing happens. */
  lemma PlaceMine(b: Board, r: int, c: int, clickedRow: int, clickedCol: int)
    requires IsGrid(b) && (r, c) in Free(b, clickedRow, clickedCol)
    ensures InBounds(b, r, c)
    ensures var b' := With(b, r, c, b[r][c].SetMine(true));
      IsGrid(b') && SameButMines(b, b')
      && (b[r][c].clicked ==> b' == b)
      && (!b[r][c].clicked ==>
            MinePositions(b') == MinePositions(b) + {(r, c)}
            && Free(b', clickedRow, clickedCol) == Free(b, clickedRow, clickedCol) - {(r, c)})
  {
    var b' := With(b, r, c, b[r][c].SetMine(true));
    if !b[r][c].clicked {
      assert MinePositions(b') == MinePositions(b) + {(r, c)};
      assert Free(b', clickedRow, clickedCol) == Free(b, clickedRow, clickedCol) - {(r, c)};
    } else {
      assert b[r][c].SetMine(true) == b[r][c];
      assert b[r][c := b[r][c]] == b[r];
    }
  }

  /** There is room for every mine exactly when the free cells are at least
      as many as the mines; the first clicked cell is never free. */
  lemma FreeCount(b: Board, clickedRow: int, clickedCol: int)
    requires IsGrid(b) && MinePositions(b) == {}
    ensures |Free(b, clickedRow, clickedCol)| ==
      |b| * |b[0]| - (if InBounds(b, clickedRow, clickedCol) then 1 else 0)
  {
    var all := AllPositions(|b|, |b[0]|);
    AllPositionsCard(|b|, |b[0]|);
    if InBounds(b, clickedRow, clickedCol) {
      assert (clickedRow, clickedCol) !in MinePositions(b);
      assert Free(b, clickedRow, clickedCol) == all - {(clickedRow, clickedCol)};
    } else {
      forall p | p in all
        ensures p in Free(b, clickedRow, clickedCol)
      {
        assert |b[p.0]| == |b[0]| && p != (clickedRow, clickedCol);
        assert p !in MinePositions(b);
      }
      assert Free(b, clickedRow, clickedCol) == all;
    }
  }

  // ---------------------------------------------------------------------
  // Flags and marks (performSecondaryClick)

  /** One secondary click: a flag becomes a mark and gives its flag back, a
      mark is cleared, anything else gets a flag. The second component is
      the change of the remaining-flags counter. */
  function SecondaryClick(c: CellState): (r: (CellState, int))
    ensures r.1 == (if c.flagged then 1 else if c.marked then 0 else -1)
    ensures c.clicked ==> r.0 == c
    ensures !c.clicked && c.Valid() ==>
      r.0.Valid() && (r.0.flagged <==> !c.flagged && !c.marked) && (r.0.marked <==> c.flagged)
    ensures r.0.clicked == c.clicked && r.0.mine == c.mine
  {
    if c.flagged then (c.SetMarked(true), 1)
    else if c.marked then (c.SetMarked(false), 0)
    else (c.SetFlagged(true), -1)
  }

  /** Three secondary clicks on an unrevealed cell bring it back, and the
      counter with it. */
  lemma SecondaryClickCycle(c: CellState)
    requires !c.clicked && c.Valid()
    ensures var (c1, d1) := SecondaryClick(c);
            var (c2, d2) := SecondaryClick(c1);
            var (c3, d3) := SecondaryClick(c2);
            c3 == c && d1 + d2 + d3 == 0 && c1 != c && c2 != c
  {
  }

  /** On an unrevealed cell the counter moves against the number of flags
      on the board, so counter plus flags stays the same. */
  lemma SecondaryClickBalance(b: Board, r: int, c: int)
    requires IsGrid(b) && InBounds(b, r, c) && !b[r][c].clicked && b[r][c].Valid()
    ensures var (v, d) := SecondaryClick(b[r][c]);
            |FlagPositions(With(b, r, c, v))| == |FlagPositions(b)| - d
  {
    var (v, d) := SecondaryClick(b[r][c]);
    FlagsAfterWith(b, r, c, v);
    assert (r, c) in FlagPositions(b) <==> b[r][c].flagged;
  }

  /** Replacing one cell changes the flag set at that cell only. */
  lemma FlagsAfterWith(b: Board, r: int, c: int, v: CellState)
    requires IsGrid(b) && InBounds(b, r, c)
    ensures IsGrid(With(b, r, c, v))
    ensures FlagPositions(With(b, r, c, v)) ==
      (FlagPositions(b) - {(r, c)}) + (if v.flagged then {(r, c)} else {})
  {
    var b' := With(b, r, c, v);
    var rhs := (FlagPositions(b) - {(r, c)}) + (if v.flagged then {(r, c)} else {});
    forall p | p in FlagPositions(b')
      ensures p in rhs
    {
    }
    forall p | p in rhs
      ensures p in FlagPositions(b')
    {
      assert InBounds(b, p.0, p.1);
    }
  }

  /** Replacing one cell by one with the same mine status moves no mine. */
  lemma MinesAfterWith(b: Board, r: int, c: int, v: CellState)
    requires IsGrid(b) && InBounds(b, r, c) && v.mine == b[r][c].mine
    ensures IsGrid(With(b, r, c, v))
    ensures MinePositions(With(b, r, c, v)) == MinePositions(b)
  {
    var b' := With(b, r, c, v);
    forall p | p in MinePositions(b)
      ensures p in MinePositions(b')
    {
      assert InBounds(b, p.0, p.1);
    }
  }
}
