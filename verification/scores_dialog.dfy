/** The high-score dialog: one table per difficulty, each row a player's
    name and the duration of the game as HH:MM:SS or MM:SS. */
module ScoresDialogs {
  import opened Difficulties
  import opened Texts

  /** A recorded score: who played and how many seconds the game took. */
  datatype Score = Score(username: string, seconds: int)

  /** A row of a score table: the name column and the time column. */
  datatype Row = Row(username: string, time: string)

  /** The row setScores adds for a score. */
  function ScoreRow(s: Score): (r: Row)
    ensures r.username == s.username
    ensures s.seconds >= 0 ==> ReadClock(r.time) == s.seconds
    ensures 0 <= s.seconds < 3600 ==> |r.time| == 5
    ensures 3600 <= s.seconds < 360000 ==> |r.time| == 8
  {
    if s.seconds >= 0 then ScoreTextReadsBack(s.seconds); Row(s.username, ScoreText(s.seconds))
    else Row(s.username, ScoreText(s.seconds))
  }

  /** The rows of a table filled from a list of scores: one per score, in
      the order of the list. */
  function Rows(scores: seq<Score>): (rows: seq<Row>)
    ensures |rows| == |scores|
    ensures forall i :: 0 <= i < |scores| ==> rows[i] == ScoreRow(scores[i])
  {
    if scores == [] then [] else Rows(scores[..|scores| - 1]) + [ScoreRow(scores[|scores| - 1])]
  }

  /** The model of one table: its rows, top to bottom. */
  class TableModel {
    var rows: seq<Row>

    constructor ()
      ensures rows == []
    {
      rows := [];
    }

    /** setRowCount(0): the table is emptied. */
    method Clear()
      modifies this
      ensures rows == []
    {
      rows := [];
    }

    method AddRow(r: Row)
      modifies this
      ensures rows == old(rows) + [r]
    {
      rows := rows + [r];
    }

    /** The body of setScores for one difficulty: the table is cleared,
        then one row is added per score, in list order. */
    method Fill(scores: seq<Score>)
      modifies this
      ensures rows == Rows(scores)
    {
      Clear();
      for i := 0 to |scores|
        invariant rows == Rows(scores[..i])
      {
        assert scores[..i + 1][..i] == scores[..i];
        AddRow(ScoreRow(scores[i]));
      }
      assert scores[..|scores|] == scores;
    }
  }

  /** Difficulty.values(), in declaration order. */
  const AllDifficulties: seq<Difficulty> := [EASY, NORMAL, HARD, EXPERT]

  /** The position of a difficulty in the enum. */
  function Ordinal(d: Difficulty): (n: nat)
    ensures n < |AllDifficulties| && AllDifficulties[n] == d
  {
    match d
    case EASY => 0
    case NORMAL => 1
    case HARD => 2
    case EXPERT => 3
  }

  /** Only the difficulty at position i has ordinal i. */
  lemma OrdinalOf(i: int)
    requires 0 <= i < |AllDifficulties|
    ensures forall d :: Ordinal(d) == i <==> d == AllDifficulties[i]
  {
  }

  class ScoresDialog {
    const tabs: map<Difficulty, TableModel>

    /** One table per difficulty, no two difficulties sharing a table. */
    ghost predicate Valid() {
      (forall d: Difficulty :: d in tabs)
      && forall d, e :: d in tabs && e in tabs && d != e ==> tabs[d] != tabs[e]
    }

    /** The set of all tables, what setScores may change. */
    ghost function Tables(): set<TableModel> {
      set d | d in tabs :: tabs[d]
    }

    constructor ()
      ensures Valid()
      ensures forall d :: fresh(tabs[d]) && tabs[d].rows == []
    {
      var m: map<Difficulty, TableModel> := map[];
      for i := 0 to |AllDifficulties|
        invariant m.Keys == set j | 0 <= j < i :: AllDifficulties[j]
        invariant forall d :: d in m ==> fresh(m[d]) && m[d].rows == []
        invariant forall d, e :: d in m && e in m && d != e ==> m[d] != m[e]
      {
        var t := new TableModel();
        m := m[AllDifficulties[i] := t];
      }
      assert forall d: Difficulty :: d in m by {
        forall d: Difficulty ensures d in m {
          assert d == AllDifficulties[0] || d == AllDifficulties[1] || d == AllDifficulties[2] || d == AllDifficulties[3];
        }
      }
      tabs := m;
    }

    /** Fills the table of every difficulty the scores name: it is
        cleared, then gets one row per score in list order. The tables of
        the other difficulties keep their rows. The scores come in a
        TreeMap, so the entries are visited in the order of the enum. */
    method SetScores(scores: map<Difficulty, seq<Score>>)
      requires Valid()
      modifies Tables()
      ensures forall d :: d in scores ==> tabs[d].rows == Rows(scores[d])
      ensures forall d :: d !in scores ==> tabs[d].rows == old(tabs[d].rows)
    {
      for i := 0 to |AllDifficulties|
        invariant forall d :: d in scores && Ordinal(d) < i ==> tabs[d].rows == Rows(scores[d])
        invariant forall d :: !(d in scores && Ordinal(d) < i) ==> tabs[d].rows == old(tabs[d].rows)
      {
        var d := AllDifficulties[i];
        OrdinalOf(i);
        if d in scores {
          FillTable(d, scores[d]);
        }
      }
    }

    /** One entry of the scores: the table of d is filled, the others are
        left alone. */
    method FillTable(d: Difficulty, scores: seq<Score>)
      requires Valid()
      modifies tabs[d]
      ensures tabs[d].rows == Rows(scores)
      ensures forall e :: e != d ==> tabs[e].rows == old(tabs[e].rows)
    {
      tabs[d].Fill(scores);
    }
  }
}
