/** The window of the game (gui/MainFrame.java): the remaining-mines and
    timer labels and the grid of cell labels, each label a clickable
    square that can be locked. */
module MainFrames {
  import opened Grids
  import opened Texts
  import opened Layouts

  /** Room around the icon of a label, in pixels. */
  const PADDING := 4

  class CellLabel {
    const coordinates: Point
    /** The side of the square label, in pixels. */
    const side: int
    var locked: bool

    constructor (coordinates: Point, buttonsSize: int)
      ensures this.coordinates == coordinates && side == buttonsSize + PADDING
      ensures !locked
    {
      this.coordinates := coordinates;
      side := buttonsSize + PADDING;
      locked := false;
    }

    /** A press of the left or right button on an unlocked label sends a
        cell-clicked event, whose main flag says it was the left one. */
    function MousePressed(button: MouseButton): (e: Dispatch)
      reads this
      ensures e.CellClicked? <==> !locked && !button.Middle?
      ensures e.CellClicked? ==> (e.mainClick <==> button.Left?)
    {
      if !locked && (button.Left? || button.Right?) then CellClicked(button.Left?) else NoEvent
    }

    /** After lock, no press sends anything. */
    method Lock()
      modifies this
      ensures locked
      ensures forall b :: MousePressed(b) == NoEvent
    {
      locked := true;
    }

    /** click only changes the border: a revealed label still sends the
        presses it sent before. */
    method Click()
      ensures forall b :: MousePressed(b) == old(MousePressed(b))
    {
    }
  }

  /** The coordinates of a sequence of labels. */
  function Coords(labels: seq<CellLabel>): (ps: seq<Point>)
    ensures |ps| == |labels|
    ensures forall i :: 0 <= i < |labels| ==> ps[i] == labels[i].coordinates
  {
    seq(|labels|, i requires 0 <= i < |labels| => labels[i].coordinates)
  }

  class MainFrame {
    /** The localised prefix of the remaining-mines label. */
    const remText: string
    var remainingText: string
    var timeText: string
    /** The labels of the grid panel, in the order they were added. */
    var labels: seq<CellLabel>
    /** Whether the grid panel holds a grid, which only resetGrid adds. */
    var gridShown: bool

    constructor (remText: string)
      ensures this.remText == remText && remainingText == remText
      ensures timeText == "" && labels == [] && !gridShown
    {
      this.remText := remText;
      remainingText := remText;
      timeText := "";
      labels := [];
      gridShown := false;
    }

    /** A new grid of rows x cols unlocked labels, added row by row, the
        label of row r and column c at Point(c, r). */
    method ResetGrid(cols: int, rows: int, buttonsSize: int)
      modifies this`labels, this`gridShown
      ensures gridShown && Coords(labels) == Layout(rows, cols)
      ensures forall i :: 0 <= i < |labels| ==> fresh(labels[i]) && !labels[i].locked && labels[i].side == buttonsSize + PADDING
    {
      var grid: seq<CellLabel> := [];
      var row := 0;
      while row < rows
        invariant 0 <= row && (row <= rows || row == 0)
        invariant Coords(grid) == Layout(row, cols)
        invariant forall i :: 0 <= i < |grid| ==>
          fresh(grid[i]) && !grid[i].locked && grid[i].side == buttonsSize + PADDING
      {
        var ls := NewRow(row, cols, buttonsSize);
        assert Coords(grid + ls) == Coords(grid) + Coords(ls);
        grid := grid + ls;
        row := row + 1;
      }
      assert Layout(row, cols) == Layout(rows, cols);
      labels := grid;
      gridShown := true;
    }

    /** The labels of one row, left to right: the inner loop of
        resetGrid. */
    method NewRow(row: int, cols: int, buttonsSize: int) returns (ls: seq<CellLabel>)
      ensures Coords(ls) == RowLayout(row, cols)
      ensures forall i :: 0 <= i < |ls| ==>
        fresh(ls[i]) && !ls[i].locked && ls[i].side == buttonsSize + PADDING
    {
      ls := [];
      var col := 0;
      while col < cols
        invariant 0 <= col && (col <= cols || col == 0)
        invariant Coords(ls) == RowLayout(row, col)
        invariant forall i :: 0 <= i < |ls| ==>
          fresh(ls[i]) && !ls[i].locked && ls[i].side == buttonsSize + PADDING
      {
        var b := new CellLabel(Point(col, row), buttonsSize);
        assert Coords(ls + [b]) == Coords(ls) + [Point(col, row)];
        ls := ls + [b];
        col := col + 1;
      }
      assert RowLayout(row, col) == RowLayout(row, cols);
    }

    /** The first label whose coordinates equal p, or null when there is
        none; after ResetGrid, LayoutLookup says which one that is. The
        source reads the grid out of the panel, so a frame that never had
        a grid has none to search. */
    method GetCell(p: Point) returns (l: CellLabel?)
      requires gridShown
      ensures var k := IndexOf(Coords(labels), p); l == if k < 0 then null else labels[k]
    {
      var i := 0;
      while i < |labels|
        invariant 0 <= i <= |labels|
        invariant forall j :: 0 <= j < i ==> labels[j].coordinates != p
      {
        if labels[i].coordinates == p {
          FoundFirst(Coords(labels), p, i);
          return labels[i];
        }
        i := i + 1;
      }
      return null;
    }

    /** The remaining-mines label: the prefix, a space, then the counter
        as given, a negative counter with its minus sign. */
    method SetRemainingMines(mines: int)
      modifies this`remainingText
      ensures remainingText == remText + " " + Decimal(mines)
      ensures ReadInt(remainingText[|remText| + 1..]) == mines
    {
      remainingText := remText + " " + Decimal(mines);
      assert remainingText[|remText| + 1..] == Decimal(mines);
      DecimalRoundTrip(mines);
    }

    /** The timer label: hours only when h != 0; for a non-negative time
        it reads back to the seconds it shows. */
    method SetTimer(h: int, m: int, s: int)
      modifies this`timeText
      ensures timeText == TimerText(h, m, s)
      ensures h == 0 <==> |timeText| == |Format02d(m)| + 1 + |Format02d(s)|
      ensures h >= 0 && m >= 0 && s >= 0 ==> ReadClock(timeText) == h * 3600 + m * 60 + s
    {
      timeText := TimerText(h, m, s);
      TimerTextHours(h, m, s);
      if h >= 0 && m >= 0 && s >= 0 {
        TimerTextReadsBack(h, m, s);
      }
    }
  }
}
