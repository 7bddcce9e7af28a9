/** Where resetGrid puts the cell labels, in both windows: row by row, the
    label of row r and column c carrying the coordinates Point(c, r); and
    how getCell finds a label again by a linear search for the first
    label with the given coordinates. */
module Layouts {
  import opened Grids

  /** The mouse buttons a label can be pressed with. */
  datatype MouseButton = Left | Middle | Right

  /** What a press on a label sends to the controller: nothing, or a
      cell-clicked event saying whether it was the main (left) button. */
  datatype Dispatch = NoEvent | CellClicked(mainClick: bool)

  /** The coordinates of the labels of row r, left to right. */
  function RowLayout(r: int, cols: int): (ps: seq<Point>)
    ensures |ps| == if cols < 0 then 0 else cols
    ensures forall c :: 0 <= c < |ps| ==> ps[c] == Point(c, r)
  {
    if cols <= 0 then [] else RowLayout(r, cols - 1) + [Point(cols - 1, r)]
  }

  /** The coordinates of all labels in the order resetGrid adds them. */
  function Layout(rows: int, cols: int): (ps: seq<Point>)
    ensures cols >= 0 ==> |ps| == (if rows < 0 then 0 else rows * cols)
  {
    if rows <= 0 then [] else Layout(rows - 1, cols) + RowLayout(rows - 1, cols)
  }

  /** rows x cols labels; the i-th is at column i % cols of row i / cols. */
  lemma {:induction false} LayoutPositions(rows: nat, cols: nat)
    ensures |Layout(rows, cols)| == rows * cols
    ensures forall i :: 0 <= i < |Layout(rows, cols)| ==> Layout(rows, cols)[i] == Point(i % cols, i / cols)
  {
    if rows > 0 {
      LayoutPositions(rows - 1, cols);
      var before := Layout(rows - 1, cols);
      var last := RowLayout(rows - 1, cols);
      assert |before| == (rows - 1) * cols;
      assert rows * cols == (rows - 1) * cols + cols;
      forall i | 0 <= i < |before + last|
        ensures (before + last)[i] == Point(i % cols, i / cols)
      {
        if i >= |before| {
          var c := i - |before|;
          assert i == (rows - 1) * cols + c;
          assert i / cols == rows - 1 && i % cols == c by {
            DivModOfRowMajor(rows - 1, cols, c);
          }
        }
      }
    }
  }

  lemma DivModOfRowMajor(r: nat, cols: nat, c: nat)
    requires c < cols
    ensures (r * cols + c) / cols == r && (r * cols + c) % cols == c
  {
    var n := r * cols + c;
    var q, m := n / cols, n % cols;
    assert n == q * cols + m && 0 <= m < cols;
    assert (r + 1) * cols == r * cols + cols;
    assert (q + 1) * cols == q * cols + cols;
    MulMono(r + 1, q, cols);
    MulMono(q + 1, r, cols);
  }

  /** The index of the first occurrence of p, or -1 when there is none. */
  function IndexOf(ps: seq<Point>, p: Point): (k: int)
    ensures -1 <= k < |ps|
    ensures k >= 0 ==> ps[k] == p
    ensures forall j :: 0 <= j < |ps| && (k < 0 || j < k) ==> ps[j] != p
  {
    if ps == [] then -1
    else if ps[0] == p then 0
    else
      var k := IndexOf(ps[1..], p);
      if k < 0 then -1 else k + 1
  }

  /** Looking up the coordinates of a cell after resetGrid finds the label
      at index row * cols + col; coordinates off the grid find nothing. */
  lemma LayoutLookup(rows: nat, cols: nat, p: Point)
    ensures IndexOf(Layout(rows, cols), p) ==
      if 0 <= p.y < rows && 0 <= p.x < cols then p.y * cols + p.x else -1
  {
    LayoutPositions(rows, cols);
    if 0 <= p.y < rows && 0 <= p.x < cols {
      LookupOnGrid(rows, cols, p);
    } else {
      LookupOffGrid(rows, cols, p);
    }
  }

  lemma LookupOnGrid(rows: nat, cols: nat, p: Point)
    requires 0 <= p.y < rows && 0 <= p.x < cols
    requires |Layout(rows, cols)| == rows * cols
    requires forall i :: 0 <= i < |Layout(rows, cols)| ==> Layout(rows, cols)[i] == Point(i % cols, i / cols)
    ensures IndexOf(Layout(rows, cols), p) == p.y * cols + p.x
  {
    var ps := Layout(rows, cols);
    var i := p.y * cols + p.x;
    RowMajorBound(p.y, rows, cols, p.x);
    DivModOfRowMajor(p.y, cols, p.x);
    assert ps[i] == p;
    FoundNoLater(ps, p, i);
    var k := IndexOf(ps, p);
    RowMajorIndex(k, cols, ps[k]);
  }

  /** The first match is the one a linear search stops at. */
  lemma FoundFirst(ps: seq<Point>, p: Point, i: int)
    requires 0 <= i < |ps| && ps[i] == p
    requires forall j :: 0 <= j < i ==> ps[j] != p
    ensures IndexOf(ps, p) == i
  {
    FoundNoLater(ps, p, i);
  }

  lemma FoundNoLater(ps: seq<Point>, p: Point, i: int)
    requires 0 <= i < |ps| && ps[i] == p
    ensures 0 <= IndexOf(ps, p) <= i
  {
  }

  /** Only one index has the coordinates p in row-major order. */
  lemma RowMajorIndex(k: nat, cols: nat, p: Point)
    requires cols > 0 && p == Point(k % cols, k / cols)
    ensures k == p.y * cols + p.x
  {
  }

  lemma LookupOffGrid(rows: nat, cols: nat, p: Point)
    requires !(0 <= p.y < rows && 0 <= p.x < cols)
    requires |Layout(rows, cols)| == rows * cols
    requires forall i :: 0 <= i < |Layout(rows, cols)| ==> Layout(rows, cols)[i] == Point(i % cols, i / cols)
    ensures IndexOf(Layout(rows, cols), p) == -1
  {
    var ps := Layout(rows, cols);
    forall i | 0 <= i < |ps|
      ensures 0 <= ps[i].y < rows && 0 <= ps[i].x < cols
    {
      RowOfIndex(i, rows, cols);
    }
  }

  /** The row-major index of a cell on the grid is an index of the layout. */
  lemma RowMajorBound(r: nat, rows: nat, cols: nat, c: nat)
    requires r < rows && c < cols
    ensures 0 <= r * cols + c < rows * cols
  {
    MulMono(r + 1, rows, cols);
    assert (r + 1) * cols == r * cols + cols;
  }

  /** An index of the layout lies on the grid. */
  lemma RowOfIndex(i: nat, rows: nat, cols: nat)
    requires i < rows * cols
    ensures 0 <= i / cols < rows && 0 <= i % cols < cols
  {
    var q := i / cols;
    assert q * cols <= i;
    MulMono(rows, q, cols);
  }

  /** a <= b scales to a * c <= b * c. */
  lemma MulMono(a: nat, b: nat, c: nat)
    ensures a <= b ==> a * c <= b * c
  {
    if a <= b {
      assert b * c == a * c + (b - a) * c;
    }
  }
}
