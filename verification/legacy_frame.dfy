/** The window of the first version of the game (MainFrame.java in the
    root package): the same labels and texts, with a normal and a tablet
    label size, and labels that stop sending presses once clicked. */
module LegacyFrames {
  import opened Grids
  import opened Texts
  import opened Layouts

  const PADDING := 4
  const NORMAL_SIZE := 15
  const BIG_SIZE := 20

  class CellLabel {
    const coordinates: Point
    /** The side of the square label, in pixels. */
    const side: int
    /** Set by click and by lock alike. */
    var clicked: bool

    constructor (coordinates: Point, tabletMode: bool)
      ensures this.coordinates == coordinates && !clicked
      ensures side == if tabletMode then 24 else 19
    {
      this.coordinates := coordinates;
      side := (if tabletMode then BIG_SIZE else NORMAL_SIZE) + PADDING;
      clicked := false;
    }

    /** A press of the left or right button on a label not yet clicked
        sends a cell-clicked event, whose main flag says it was the left
        one. */
    function MousePressed(button: MouseButton): (e: Dispatch)
      reads this
      ensures e.CellClicked? <==> !clicked && !button.Middle?
      ensures e.CellClicked? ==> (e.mainClick <==> button.Left?)
    {
      if !clicked && (button.Left? || button.Right?) then CellClicked(button.Left?) else NoEvent
    }

    method Lock()
      modifies this
      ensures clicked
      ensures forall b :: MousePressed(b) == NoEvent
    {
      clicked := true;
    }

    /** Unlike the newer window, a revealed label is silenced too. */
    method Click()
      modifies this
      ensures clicked
      ensures forall b :: MousePressed(b) == NoEvent
    {
      clicked := true;
    }
  }

  /** The coordinates of a sequence of labels. */
  function Coords(labels: seq<CellLabel>): (ps: seq<Point>)
    ensures |ps| == |labels|
    ensures forall i :: 0 <= i < |labels| ==> ps[i] == labels[i].coordinates
  {
    seq(|labels|, i requires 0 <= i < |labels| => labels[i].coordinates)
  }

  class MainFrame {
    /** The localised prefix of the remaining-mines label. */
    const remText: string
    var remainingText: string
    var timeText: string
    /** The labels of the grid panel, in the order they were added. */
    var labels: seq<CellLabel>
    /** Whether the grid panel holds a grid, which only resetGrid adds. */
    var gridShown: bool

    constructor (remText: string)
      ensures this.remText == remText && remainingText == remText
      ensures timeText == "" && labels == [] && !gridShown
    {
      this.remText := remText;
      remainingText := remText;
      timeText := "";
      labels := [];
      gridShown := false;
    }

    /** A new grid of rows x cols labels not yet clicked, added row by
        row, the label of row r and column c at Point(c, r), all of the
        size the mode asks for. */
    method ResetGrid(cols: int, rows: int, tabletMode: bool)
      modifies this`labels, this`gridShown
      ensures gridShown && Coords(labels) == Layout(rows, cols)
      ensures forall i :: 0 <= i < |labels| ==>
        fresh(labels[i]) && !labels[i].clicked && labels[i].side == if tabletMode then 24 else 19
    {
      var grid: seq<CellLabel> := [];
      var row := 0;
      while row < rows
        invariant 0 <= row && (row <= rows || row == 0)
        invariant Coords(grid) == Layout(row, cols)
        invariant forall i :: 0 <= i < |grid| ==>
          fresh(grid[i]) && !grid[i].clicked && grid[i].side == if tabletMode then 24 else 19
      {
        var ls := NewRow(row, cols, tabletMode);
        assert Coords(grid + ls) == Coords(grid) + Coords(ls);
        grid := grid + ls;
        row := row + 1;
      }
      assert Layout(row, cols) == Layout(rows, cols);
      labels := grid;
      gridShown := true;
    }

    /** The labels of one row, left to right: the inner loop of
        resetGrid. */
    method NewRow(row: int, cols: int, tabletMode: bool) returns (ls: seq<CellLabel>)
      ensures Coords(ls) == RowLayout(row, cols)
      ensures forall i :: 0 <= i < |ls| ==>
        fresh(ls[i]) && !ls[i].clicked && ls[i].side == if tabletMode then 24 else 19
    {
      ls := [];
      var col := 0;
      while col < cols
        invariant 0 <= col && (col <= cols || col == 0)
        invariant Coords(ls) == RowLayout(row, col)
        invariant forall i :: 0 <= i < |ls| ==>
          fresh(ls[i]) && !ls[i].clicked && ls[i].side == if tabletMode then 24 else 19
      {
        var b := new CellLabel(Point(col, row), tabletMode);
        assert Coords(ls + [b]) == Coords(ls) + [Point(col, row)];
        ls := ls + [b];
        col := col + 1;
      }
      assert RowLayout(row, col) == RowLayout(row, cols);
    }

    /** The first label whose coordinates equal p, or null when there is
        none; after ResetGrid, LayoutLookup says which one that is. The
        source reads the grid out of the panel, so a frame that never had
        a grid has none to search. */
    method GetCell(p: Point) returns (l: CellLabel?)
      requires gridShown
      ensures var k := IndexOf(Coords(labels), p); l == if k < 0 then null else labels[k]
    {
      var i := 0;
      while i < |labels|
        invariant 0 <= i <= |labels|
        invariant forall j :: 0 <= j < i ==> labels[j].coordinates != p
      {
        if labels[i].coordinates == p {
          FoundFirst(Coords(labels), p, i);
          return labels[i];
        }
        i := i + 1;
      }
      return null;
    }

    /** The remaining-mines label: the prefix, a space, then the counter. */
    method SetRemainingMines(mines: int)
      modifies this`remainingText
      ensures remainingText == remText + " " + Decimal(mines)
      ensures ReadInt(remainingText[|remText| + 1..]) == mines
    {
      remainingText := remText + " " + Decimal(mines);
      assert remainingText[|remText| + 1..] == Decimal(mines);
      DecimalRoundTrip(mines);
    }

    /** The timer label, built with addLeadingZero: the same text the
        newer window shows with "%02d". */
    method SetTimer(h: int, m: int, s: int)
      modifies this`timeText
      ensures timeText == TimerText(h, m, s)
      ensures h == 0 <==> |timeText| == |Format02d(m)| + 1 + |Format02d(s)|
      ensures h >= 0 && m >= 0 && s >= 0 ==> ReadClock(timeText) == h * 3600 + m * 60 + s
    {
      timeText := LegacyTimerText(h, m, s);
      TimerTextsAgree(h, m, s);
      TimerTextHours(h, m, s);
      if h >= 0 && m >= 0 && s >= 0 {
        TimerTextReadsBack(h, m, s);
      }
    }
  }
}
