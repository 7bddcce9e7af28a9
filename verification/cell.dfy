/** One grid cell with its four flags: clicked, mine, flagged and marked
    (model/Cell.java). The transitions are pure functions on the value
    `CellState`; the class `Cell` updates its fields in place and is proved
    against them. */
module Cells {

  /** The result codes of `Cell.click`. */
  datatype ClickCode = AlreadyClicked | CannotClick | Nothing | Mine {
    function Value(): (v: int)
      ensures -2 <= v <= 1
      ensures v >= 0 <==> this in {Nothing, Mine}
    {
      match this
      case AlreadyClicked => -2
      case CannotClick => -1
      case Nothing => 0
      case Mine => 1
    }
  }

  /** What a call to `click` does: it throws IllegalArgumentException or it
      returns one of the codes. */
  datatype ClickOutcome = IllegalArgument | Returned(code: ClickCode)

  datatype CellState = CellState(clicked: bool, mine: bool, flagged: bool, marked: bool) {

    /** Flagged and marked exclude each other, and a revealed cell carries
        no flag. */
    predicate Valid() {
      !(flagged && marked) && !(clicked && flagged)
    }

    /** `setMine`: ignored once the cell is clicked. */
    function SetMine(m: bool): (c: CellState)
      ensures c.clicked == clicked && c.flagged == flagged && c.marked == marked
      ensures c.mine == if clicked then mine else m
    {
      if !clicked then this.(mine := m) else this
    }

    /** `setFlagged`: clears the mark and sets the flag, unless clicked. */
    function SetFlagged(f: bool): (c: CellState)
      ensures Valid() ==> c.Valid()
      ensures c.clicked == clicked && c.mine == mine
      ensures !clicked ==> c.flagged == f && !c.marked
      ensures clicked ==> c == this
    {
      if !clicked then this.(marked := false, flagged := f) else this
    }

    /** `setMarked`: clears the flag and sets the mark, unless clicked. */
    function SetMarked(m: bool): (c: CellState)
      ensures Valid() ==> c.Valid()
      ensures c.clicked == clicked && c.mine == mine
      ensures !clicked ==> c.marked == m && !c.flagged
      ensures clicked ==> c == this
    {
      if !clicked then this.(flagged := false, marked := m) else this
    }

    /** `click(mines)`: the new cell and the outcome. The argument must lie
        in [0, 9] (the code's bound, although its message says [0, 8]);
        then an already clicked cell answers AlreadyClicked, a flagged one
        CannotClick, and any other cell becomes clicked and answers Mine
        exactly when it holds a mine. The mark is left as it was. */
    function Click(mines: int): (r: (CellState, ClickOutcome))
      ensures r.1 == IllegalArgument <==> mines < 0 || mines > 9
      ensures r.1 == Returned(AlreadyClicked) <==> 0 <= mines <= 9 && clicked
      ensures r.1 == Returned(CannotClick) <==> 0 <= mines <= 9 && !clicked && flagged
      ensures r.1 == Returned(Mine) <==> 0 <= mines <= 9 && !clicked && !flagged && mine
      ensures r.1 == Returned(Nothing) <==> 0 <= mines <= 9 && !clicked && !flagged && !mine
      ensures r.0.mine == mine && r.0.flagged == flagged && r.0.marked == marked
      ensures r.0.clicked <==> clicked || r.1 in {Returned(Mine), Returned(Nothing)}
      ensures Valid() ==> r.0.Valid()
    {
      if mines < 0 || mines > 9 then (this, IllegalArgument)
      else if clicked then (this, Returned(AlreadyClicked))
      else if flagged then (this, Returned(CannotClick))
      else (this.(clicked := true), Returned(if mine then Mine else Nothing))
    }
  }

  /** A cell as the constructor leaves it. */
  const Fresh := CellState(false, false, false, false)

  lemma FreshCell()
    ensures !Fresh.clicked && !Fresh.mine && !Fresh.flagged && !Fresh.marked && Fresh.Valid()
  {
  }

  /** Once a cell is clicked, none of the setters and no click changes it. */
  lemma ClickedIsFrozen(c: CellState, b: bool, n: int)
    requires c.clicked
    ensures c.SetMine(b) == c && c.SetFlagged(b) == c && c.SetMarked(b) == c
    ensures c.Click(n).0 == c
  {
  }

  /** A marked cell that is clicked is revealed and stays marked. */
  lemma ClickKeepsMark(c: CellState, n: int)
    requires !c.clicked && c.marked && c.Valid() && 0 <= n <= 9
    ensures c.Click(n).0.clicked && c.Click(n).0.marked
  {
  }

  /** The mutable cell of model/Cell.java. */
  class Cell {
    var clicked: bool
    var mine: bool
    var flagged: bool
    var marked: bool

    function State(): CellState
      reads this
    {
      CellState(clicked, mine, flagged, marked)
    }

    /** The coordinates are accepted and ignored, as in the source. */
    constructor (row: int, column: int)
      ensures State() == Fresh
    {
      clicked, mine, flagged, marked := false, false, false, false;
    }

    method SetMine(m: bool)
      modifies this
      ensures State() == old(State()).SetMine(m)
    {
      if !clicked {
        mine := m;
      }
    }

    method SetFlagged(f: bool)
      modifies this
      ensures State() == old(State()).SetFlagged(f)
    {
      if !clicked {
        marked := false;
        flagged := f;
      }
    }

    method SetMarked(m: bool)
      modifies this
      ensures State() == old(State()).SetMarked(m)
    {
      if !clicked {
        flagged := false;
        marked := m;
      }
    }

    method Click(mines: int) returns (outcome: ClickOutcome)
      modifies this
      ensures (State(), outcome) == old(State()).Click(mines)
    {
      if mines < 0 || mines > 9 {
        return IllegalArgument;
      }
      if clicked {
        return Returned(AlreadyClicked);
      }
      if flagged {
        return Returned(CannotClick);
      }
      clicked := true;
      if mine {
        return Returned(Mine);
      }
      return Returned(Nothing);
    }
  }
}
