/** Selection of the home and away player tables of a match page
    (`afl_match.process_player_data`). */
module PlayerTables {
  import opened Wrappers
  import opened Text

  type Row = seq<String>

  /** A table of the match page as `pd.read_html` returns it: `heading` is
      the top-level header of its first column (the text
      `process_player_data` searches), `columns` the per-column stat names below it. */
  datatype Table = Table(heading: String, columns: seq<String>, rows: seq<Row>)

  /** A table with the top header level dropped. */
  datatype Frame = Frame(columns: seq<String>, rows: seq<Row>)

  /** Either two empty lists (no usable tables) or the home and away
      frames. */
  datatype TeamTables = NoTables | Teams(home: Frame, away: Frame)

  /** The assertion on the requested title failed. */
  datatype LabelError = UnknownLabel(title: String)

  const MatchStatistics: String := "Match Statistics"
  const PlayerDetails: String := "Player Details"

  /** A team fields at most this many players. */
  const RosterSize: nat := 22

  predicate IsLabelled(t: Table, title: String) {
    Contains(t.heading, title)
  }

  /** The indices, from `from` on, of the tables whose heading contains
      `title`, in ascending order. */
  function MatchingIndices(tables: seq<Table>, title: String, from: nat): (r: seq<nat>)
    requires from <= |tables|
    ensures forall i, j :: 0 <= i < j < |r| ==> r[i] < r[j]
    ensures forall i :: 0 <= i < |r| ==> from <= r[i] < |tables|
    ensures forall k :: from <= k < |tables| ==> (k in r <==> IsLabelled(tables[k], title))
    decreases |tables| - from
  {
    if from == |tables| then []
    else
      var rest := MatchingIndices(tables, title, from + 1);
      if IsLabelled(tables[from], title) then [from] + rest else rest
  }

  /** `table[0:22]` with its top header level dropped. */
  function Truncate(t: Table): (f: Frame)
    ensures f.columns == t.columns
    ensures |f.rows| == if |t.rows| < RosterSize then |t.rows| else RosterSize
    ensures f.rows == t.rows[..|f.rows|]
  {
    Frame(t.columns, if |t.rows| < RosterSize then t.rows else t.rows[..RosterSize])
  }

  /** `process_player_data(title, tables)`. */
  function ProcessPlayerData(title: String, tables: seq<Table>): (r: Result<TeamTables, LabelError>)
    ensures r.Failure? <==> title != MatchStatistics && title != PlayerDetails
    ensures r.Success? ==> (r.value.NoTables? <==> |MatchingIndices(tables, title, 0)| != 2)
    ensures r.Success? && r.value.Teams? ==>
      var idx := MatchingIndices(tables, title, 0);
      r.value.home == Truncate(tables[idx[0]]) && r.value.away == Truncate(tables[idx[1]])
  {
    if title != MatchStatistics && title != PlayerDetails then Failure(UnknownLabel(title))
    else
      var idx := MatchingIndices(tables, title, 0);
      if |idx| != 2 then Success(NoTables)
      else Success(Teams(Truncate(tables[idx[0]]), Truncate(tables[idx[1]])))
  }

  /** Exactly the tables `i < j` carry the title. */
  ghost predicate ExactlyTwo(tables: seq<Table>, title: String, i: int, j: int) {
    && 0 <= i < j < |tables|
    && IsLabelled(tables[i], title) && IsLabelled(tables[j], title)
    && forall k :: 0 <= k < |tables| && k != i && k != j ==> !IsLabelled(tables[k], title)
  }

  /** The matching indices are exactly two when exactly two tables match. */
  lemma TwoIndices(tables: seq<Table>, title: String, i: int, j: int)
    requires ExactlyTwo(tables, title, i, j)
    ensures MatchingIndices(tables, title, 0) == [i, j]
  {
    var idx := MatchingIndices(tables, title, 0);
    forall c | 0 <= c < |idx|
      ensures idx[c] == i || idx[c] == j
    {
      assert idx[c] in idx;
    }
    assert i in idx && j in idx;
    var a :| 0 <= a < |idx| && idx[a] == i;
    var b :| 0 <= b < |idx| && idx[b] == j;
    // the ends are the two labelled tables, and the second element is
    // already the last
    assert idx[0] <= idx[a];
    assert idx[0] == i;
    assert idx[b] <= idx[|idx| - 1];
    assert idx[|idx| - 1] == j;
    assert |idx| >= 2;
    assert idx[0] < idx[1];
    assert idx[1] == j;
    assert |idx| == 2;
  }

  /** Two matching indices mean exactly those two tables match. */
  lemma IndicesExactlyTwo(tables: seq<Table>, title: String)
    requires |MatchingIndices(tables, title, 0)| == 2
    ensures ExactlyTwo(tables, title, MatchingIndices(tables, title, 0)[0],
                       MatchingIndices(tables, title, 0)[1])
  {
    var idx := MatchingIndices(tables, title, 0);
    assert forall k :: 0 <= k < |tables| && IsLabelled(tables[k], title) ==> k == idx[0] || k == idx[1];
  }

  /** With exactly two labelled tables the first is home and the second
      away, each cut to a roster. */
  lemma {:induction false} SelectsTheTwoTables(title: String, tables: seq<Table>, i: int, j: int)
    requires title == MatchStatistics || title == PlayerDetails
    requires ExactlyTwo(tables, title, i, j)
    ensures ProcessPlayerData(title, tables) == Success(Teams(Truncate(tables[i]), Truncate(tables[j])))
  {
    TwoIndices(tables, title, i, j);
  }

  /** The two empty results come back exactly when the number of labelled
      tables is not two. */
  lemma {:induction false} NoTablesUnlessTwo(title: String, tables: seq<Table>)
    requires title == MatchStatistics || title == PlayerDetails
    ensures ProcessPlayerData(title, tables) == Success(NoTables)
      <==> forall i, j :: !ExactlyTwo(tables, title, i, j)
  {
    var idx := MatchingIndices(tables, title, 0);
    if |idx| == 2 {
      IndicesExactlyTwo(tables, title);
    }
    forall i, j | ExactlyTwo(tables, title, i, j)
      ensures |idx| == 2
    {
      TwoIndices(tables, title, i, j);
    }
  }
}
