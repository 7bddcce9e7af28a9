/** The four preset games (model/Difficulty.java): grid size and number of
    mines. The localised display name is not modelled. */
module Difficulties {

  datatype Difficulty = EASY | NORMAL | HARD | EXPERT {

    /** getColumns */
    function Columns(): (n: int)
      ensures 9 <= n <= 32
    {
      match this
      case EASY => 9
      case NORMAL => 16
      case HARD => 32
      case EXPERT => 32
    }

    /** getRows */
    function Rows(): (n: int)
      ensures 9 <= n <= 32
    {
      match this
      case EASY => 9
      case NORMAL => 16
      case HARD => 16
      case EXPERT => 32
    }

    /** getMines: always at least one mine and fewer mines than cells, so
        mine placement leaves the first clicked cell free. */
    function Mines(): (n: int)
      ensures 0 < n < Rows() * Columns()
      ensures n * 100 <= 20 * Rows() * Columns()
    {
      match this
      case EASY => 10
      case NORMAL => 40
      case HARD => 100
      case EXPERT => 200
    }
  }

  /** HARD is the only preset wider than tall; the others are square. */
  lemma OnlyHardIsWide(d: Difficulty)
    ensures d.Columns() >= d.Rows()
    ensures d.Columns() != d.Rows() <==> d == HARD
  {
  }

  /** The levels grow strictly in mines and never shrink the grid. */
  lemma LevelsIncrease()
    ensures EASY.Mines() < NORMAL.Mines() < HARD.Mines() < EXPERT.Mines()
    ensures EASY.Rows() * EASY.Columns() < NORMAL.Rows() * NORMAL.Columns()
    ensures NORMAL.Rows() * NORMAL.Columns() < HARD.Rows() * HARD.Columns()
    ensures HARD.Rows() * HARD.Columns() < EXPERT.Rows() * EXPERT.Columns()
  {
  }
}
