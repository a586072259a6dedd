/** `combine_all_seasons` and `combine_2023_2024`: the same column-union
    concatenation and sort as the per-player combine, but the career and
    injury-window features are grouped `expanding`/`rolling` results. Such a
    result is labelled by (player id, row label) pairs; assigning it to a
    column of the frame, whose labels are the row numbers, cannot align the
    two and raises `TypeError` as soon as the frame has a row. The shifted
    values below are those of the intermediate Series, which no row
    receives. */
module GroupedCombine {
  import opened Wrappers
  import opened Order
  import opened Tables
  import opened Weeks
  import opened SimpleCombine

  /** Why a grouped combine stops: no season file loaded (the early
      `return`), or the `TypeError` of assigning a grouped Series to the
      named column. */
  datatype CombineError = NoSeasons | ColumnNotFound(column: string) | IncompatibleIndex(column: string)

  /** Inclusive expanding sum of `Att` at row `j` within its player's group;
      a row without a player id is in no group. */
  function InclusiveCareer(rows: seq<WeekRow>, j: nat): int
    requires j < |rows|
  {
    if rows[j].playerId.None? then 0 else SumAtt(Before(rows, j) + [rows[j]])
  }

  /** Inclusive `rolling(3, min_periods=1).sum()` of `injured` at row `j`. */
  function InclusiveWindow(rows: seq<WeekRow>, j: nat): nat
    requires j < |rows|
  {
    if rows[j].playerId.None? then 0 else CountInjured(LastThree(Before(rows, j) + [rows[j]]))
  }

  /** Position `i` of the intermediate Series
      `groupby('player_id')['Att'].expanding().sum().shift(1).fillna(0)`: the
      shift is positional over the whole grouped result, so it takes the
      inclusive total of the row above, whichever player that is. */
  function CareerSeries(rows: seq<WeekRow>, i: nat): int
    requires i < |rows|
  {
    if i == 0 || rows[i].playerId.None? then 0 else InclusiveCareer(rows, i - 1)
  }

  /** Position `i` of the intermediate Series
      `groupby('player_id')['injured'].rolling(3, min_periods=1).sum().shift(1).fillna(0)`. */
  function WindowSeries(rows: seq<WeekRow>, i: nat): nat
    requires i < |rows|
  {
    if i == 0 || rows[i].playerId.None? then 0 else InclusiveWindow(rows, i - 1)
  }

  /** The shifted Series never reads the current row or a later one: two
      tables that agree before row `i` (and on row `i`'s player) give
      position `i` the same values. */
  lemma SeriesIgnoresFuture(rows: seq<WeekRow>, other: seq<WeekRow>, i: nat)
    requires i < |rows| && i < |other|
    requires rows[..i] == other[..i] && rows[i].playerId == other[i].playerId
    ensures CareerSeries(rows, i) == CareerSeries(other, i)
    ensures WindowSeries(rows, i) == WindowSeries(other, i)
  {
    if i > 0 && rows[i].playerId.Some? {
      assert rows[i - 1] == rows[..i][i - 1];
      assert rows[..i - 1] == rows[..i][..i - 1] == other[..i - 1];
    }
  }

  lemma BeforeStep(rows: seq<WeekRow>, i: nat, p: string)
    requires 0 < i < |rows| && rows[i].playerId == Some(p) && rows[i - 1].playerId == Some(p)
    ensures Before(rows, i) == Before(rows, i - 1) + [rows[i - 1]]
  {
    assert rows[..i][..i - 1] == rows[..i - 1];
  }

  /** When the row above belongs to the same player the shifted Series
      agrees with the per-player reference. */
  lemma SeriesWithinPlayer(rows: seq<WeekRow>, i: nat, p: string)
    requires 0 < i < |rows| && rows[i].playerId == Some(p) && rows[i - 1].playerId == Some(p)
    ensures CareerSeries(rows, i) == PerPlayer(rows, i).careerTouchesPrior
    ensures WindowSeries(rows, i) == PerPlayer(rows, i).priorMultiweekPrev
  {
    BeforeStep(rows, i, p);
  }

  /** The cross-player shift: at the first position of player "b" the
      shifted Series holds player "a"'s career total, where the per-player
      reference is 0. */
  lemma CareerSeriesCrossesPlayers()
    ensures var rows := [WeekRow(Some("a"), Some(2023), Some(1), Some(12), None, None, None, Some(false)),
                         WeekRow(Some("b"), Some(2023), Some(1), Some(7), None, None, None, Some(true))];
            CareerSeries(rows, 1) == 12 && PerPlayer(rows, 1).careerTouchesPrior == 0
  {
    var rows := [WeekRow(Some("a"), Some(2023), Some(1), Some(12), None, None, None, Some(false)),
                 WeekRow(Some("b"), Some(2023), Some(1), Some(7), None, None, None, Some(true))];
    assert rows[..0] == [];
    assert Before(rows, 0) == [];
    assert rows[..1] == [rows[0]];
    assert rows[..1][..0] == [];
    assert Before(rows, 1) == [];
  }

  /** `combine_all_seasons` without file I/O: no season loaded stops early;
      otherwise the seasons are padded to the sorted column union and
      stacked. The sort raises on a missing key column and the lag columns on
      a missing `Att`; then the assignment of the grouped career total fails
      on any row, and on a table without rows the grouped `injured` lookup
      raises when that column is missing. Only a table without rows comes
      through, with its columns. */
  method CombineAllSeasons(frames: seq<Frame>) returns (r: Result<Combined, CombineError>)
    ensures r == Err(NoSeasons) <==> |frames| == 0
    ensures var cols := UnionColumns(frames);
      |frames| > 0 && MissingKey(cols).Some? ==> r == Err(ColumnNotFound(MissingKey(cols).value))
    ensures var cols := UnionColumns(frames);
      r == Err(ColumnNotFound("Att")) <==> |frames| > 0 && MissingKey(cols).None? && "Att" !in cols
    ensures var cols := UnionColumns(frames);
      r == Err(IncompatibleIndex("career_touches_prior")) <==>
        |frames| > 0 && MissingKey(cols).None? && "Att" in cols && TotalRows(frames) > 0
    ensures var cols := UnionColumns(frames);
      r == Err(ColumnNotFound("injured")) <==>
        |frames| > 0 && MissingKey(cols).None? && "Att" in cols && TotalRows(frames) == 0 && "injured" !in cols
    ensures r.Ok? ==> r.value.frame.columns == UnionColumns(frames)
    ensures r.Ok? ==> r.value.frame.rows == [] && r.value.features == [] && r.value.ages == []
  {
    if |frames| == 0 {
      return Err(NoSeasons);
    }
    var combined := CombineSafely(frames);
    var missing := MissingKey(combined.columns);
    if missing.Some? {
      return Err(ColumnNotFound(missing.value));
    }
    var sorted := SortFrame(combined.rows);
    SortFrameSorted(combined.rows);
    if "Att" !in combined.columns {
      return Err(ColumnNotFound("Att"));
    }
    if |sorted| > 0 {
      return Err(IncompatibleIndex("career_touches_prior"));
    }
    if "injured" !in combined.columns {
      return Err(ColumnNotFound("injured"));
    }
    r := Ok(Combined(Frame(combined.columns, sorted), [], []));
  }

  /** `combine_2023_2024` without file I/O: the same lookups and the same
      failure at its own career-total assignment whenever either season has
      a row. */
  method Combine2023And2024(df2023: Frame, df2024: Frame) returns (r: Result<Combined, CombineError>)
    ensures var cols := UnionColumns([df2023, df2024]);
      MissingKey(cols).Some? ==> r == Err(ColumnNotFound(MissingKey(cols).value))
    ensures var cols := UnionColumns([df2023, df2024]);
      r == Err(ColumnNotFound("Att")) <==> MissingKey(cols).None? && "Att" !in cols
    ensures var cols := UnionColumns([df2023, df2024]);
      r == Err(IncompatibleIndex("career_touches_prior")) <==>
        MissingKey(cols).None? && "Att" in cols && |df2023.rows| + |df2024.rows| > 0
    ensures var cols := UnionColumns([df2023, df2024]);
      r == Err(ColumnNotFound("injured")) <==>
        MissingKey(cols).None? && "Att" in cols && |df2023.rows| + |df2024.rows| == 0 && "injured" !in cols
    ensures r.Err? ==> !r.error.NoSeasons?
    ensures r.Ok? ==> r.value.frame.columns == UnionColumns([df2023, df2024])
    ensures r.Ok? ==> r.value.frame.rows == [] && r.value.features == [] && r.value.ages == []
  {
    var combined := CombineSafely([df2023, df2024]);
    TotalRowsOfTwo(df2023, df2024);
    var missing := MissingKey(combined.columns);
    if missing.Some? {
      return Err(ColumnNotFound(missing.value));
    }
    var sorted := SortFrame(combined.rows);
    SortFrameSorted(combined.rows);
    if "Att" !in combined.columns {
      return Err(ColumnNotFound("Att"));
    }
    if |sorted| > 0 {
      return Err(IncompatibleIndex("career_touches_prior"));
    }
    if "injured" !in combined.columns {
      return Err(ColumnNotFound("injured"));
    }
    r := Ok(Combined(Frame(combined.columns, sorted), [], []));
  }
}
