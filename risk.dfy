/** `load_and_prepare_data` of the injury-risk model: the derived columns
    computed from the cleaned weekly table before any model is fitted. The
    first grouped `rolling` result, `recent_touches_avg`, is labelled by
    (player id, row label) pairs and cannot be assigned to the frame, so the
    function raises `TypeError` on any table with a row. The column
    functions below state what each expression computes; `PrepareWithinPlayer`
    is the derivation with every shift kept inside its player, which the
    grouped columns evidently intend. */
module Risk {
  import opened Wrappers
  import opened Weeks
  import GroupedCombine

  /** `touches_per_game = Att + Rec`; NaN when either is NaN. */
  function Touches(r: WeekRow): (t: Option<int>)
    ensures t.Some? <==> r.att.Some? && r.rec.Some?
    ensures t.Some? ==> t.value - r.rec.value == r.att.value
  {
    if r.att.Some? && r.rec.Some? then Some(r.att.value + r.rec.value) else None
  }

  /** `numerator / (touches_per_game + 1)`; NaN when either side is NaN, and
      no finite value when the denominator is 0. */
  function PerTouchPlusOne(numerator: Option<int>, r: WeekRow): (q: Option<real>)
    ensures q.Some? ==> (numerator.Some? && Touches(r).Some? && Touches(r).value + 1 != 0
      && q.value * (Touches(r).value + 1) as real == numerator.value as real)
  {
    var t := Touches(r);
    if numerator.Some? && t.Some? && t.value + 1 != 0
    then Some(numerator.value as real / (t.value + 1) as real)
    else None
  }

  function YardsPerTouch(r: WeekRow): Option<real> {
    PerTouchPlusOne(r.yds, r)
  }

  function TouchdownRate(r: WeekRow): Option<real> {
    PerTouchPlusOne(r.td, r)
  }

  /** With non-negative counts the `+ 1` keeps the denominator at least 1, so
      both ratios are defined whenever their inputs are. */
  lemma RatiosDefined(r: WeekRow)
    requires r.att.Some? && r.rec.Some? && r.att.value >= 0 && r.rec.value >= 0
    ensures Touches(r).value + 1 >= 1
    ensures r.yds.Some? ==> YardsPerTouch(r).Some?
    ensures r.td.Some? ==> TouchdownRate(r).Some?
  {
  }

  /** `(Week > 12).astype(int)`: a NaN week compares false. */
  function LateSeason(r: WeekRow): (late: int)
    ensures late == 0 || late == 1
    ensures late == 1 <==> r.week.Some? && r.week.value > 12
  {
    if r.week.Some? && r.week.value > 12 then 1 else 0
  }

  /** `groupby('player_id').cumcount() + 1`: NaN for a row without a player id. */
  function GamesPlayed(rows: seq<WeekRow>, i: nat): (g: Option<nat>)
    requires i < |rows|
    ensures g.Some? <==> rows[i].playerId.Some?
    ensures g.Some? ==> g.value >= 1
  {
    if rows[i].playerId.None? then None else Some(|Before(rows, i)| + 1)
  }

  /** `games_played` starts at 1 on a player's first row and goes up by at
      least one on every later row of the same player. */
  lemma GamesPlayedCounts(rows: seq<WeekRow>, i: nat, j: nat)
    requires i < j < |rows| && rows[i].playerId.Some? && rows[i].playerId == rows[j].playerId
    ensures GamesPlayed(rows, j).value >= GamesPlayed(rows, i).value + 1
  {
    var p := rows[i].playerId.value;
    PlayerRowsPosition(rows[..j], i, p);
    assert rows[..j][..i] == rows[..i];
  }

  lemma GamesPlayedFirst(rows: seq<WeekRow>, i: nat)
    requires i < |rows| && rows[i].playerId.Some?
    requires forall j :: 0 <= j < i ==> rows[j].playerId != rows[i].playerId
    ensures GamesPlayed(rows, i) == Some(1)
  {
    var p := rows[i].playerId.value;
    forall x | x in rows[..i] ensures x.playerId != Some(p) {
    }
    PlayerRowsNone(rows[..i], p);
  }

  /** The distinct seasons of player `p` strictly below `s`, over the whole table. */
  function SeasonsBelow(rows: seq<WeekRow>, p: string, s: int): set<int> {
    set j | 0 <= j < |rows| && rows[j].playerId == Some(p) && rows[j].season.Some? && rows[j].season.value < s
      :: rows[j].season.value
  }

  /** `groupby('player_id')['season'].rank(method='dense')`: one more than the
      number of distinct earlier seasons of the same player. */
  function SeasonExperience(rows: seq<WeekRow>, i: nat): (rank: Option<nat>)
    requires i < |rows|
    ensures rank.Some? <==> rows[i].playerId.Some? && rows[i].season.Some?
    ensures rank.Some? ==> rank.value >= 1
  {
    if rows[i].playerId.None? || rows[i].season.None? then None
    else Some(|SeasonsBelow(rows, rows[i].playerId.value, rows[i].season.value)| + 1)
  }

  /** Dense rank orders a player's rows exactly as their seasons: equal
      seasons share a rank and a later season has a higher one. */
  lemma SeasonExperienceOrder(rows: seq<WeekRow>, i: nat, j: nat, p: string)
    requires i < |rows| && j < |rows|
    requires rows[i].playerId == Some(p) && rows[j].playerId == Some(p)
    requires rows[i].season.Some? && rows[j].season.Some?
    ensures rows[i].season.value < rows[j].season.value ==>
      SeasonExperience(rows, i).value < SeasonExperience(rows, j).value
    ensures rows[i].season == rows[j].season ==>
      SeasonExperience(rows, i) == SeasonExperience(rows, j)
  {
    var si, sj := rows[i].season.value, rows[j].season.value;
    if si < sj {
      var below := SeasonsBelow(rows, p, si);
      var above := SeasonsBelow(rows, p, sj);
      assert below <= above;
      assert si in above && si !in below;
      var extra := above - below;
      assert si in extra;
      assert above == below + extra && below * extra == {};
      assert |above| == |below| + |extra|;
    }
  }

  /** A season is ranked 1 exactly when no row of the player has an earlier season. */
  lemma SeasonExperienceFirst(rows: seq<WeekRow>, i: nat, p: string)
    requires i < |rows| && rows[i].playerId == Some(p) && rows[i].season.Some?
    ensures SeasonExperience(rows, i) == Some(1) <==>
      forall j :: 0 <= j < |rows| && rows[j].playerId == Some(p) && rows[j].season.Some? ==>
        rows[j].season.value >= rows[i].season.value
  {
    var below := SeasonsBelow(rows, p, rows[i].season.value);
    if exists j :: 0 <= j < |rows| && rows[j].playerId == Some(p) && rows[j].season.Some?
                   && rows[j].season.value < rows[i].season.value {
      var j :| 0 <= j < |rows| && rows[j].playerId == Some(p) && rows[j].season.Some?
               && rows[j].season.value < rows[i].season.value;
      assert rows[j].season.value in below;
    }
  }

  /** `(x == 1).cumsum().shift(1).fillna(0)` within each player: the number
      of the player's injured rows strictly before row `i` (not a number of
      days, whatever the column name says). */
  function DaysSinceLastInjury(rows: seq<WeekRow>, i: nat): (n: Option<nat>)
    requires i < |rows|
    ensures n.Some? <==> rows[i].playerId.Some?
    ensures n.Some? ==> n.value <= |Before(rows, i)|
  {
    if rows[i].playerId.None? then None else Some(CountInjured(Before(rows, i)))
  }

  lemma {:induction false} CountInjuredAppend(a: seq<WeekRow>, b: seq<WeekRow>)
    ensures CountInjured(a + b) == CountInjured(a) + CountInjured(b)
    decreases |b|
  {
    if |b| > 0 {
      assert (a + b)[..|a + b| - 1] == a + b[..|b| - 1];
      CountInjuredAppend(a, b[..|b| - 1]);
    } else {
      assert a + b == a;
    }
  }

  /** The count is 0 on a player's first row and never decreases along the
      player's rows; it goes up exactly after injured rows. */
  lemma DaysSinceLastInjuryGrows(rows: seq<WeekRow>, i: nat, j: nat)
    requires i < j < |rows| && rows[i].playerId.Some? && rows[i].playerId == rows[j].playerId
    ensures DaysSinceLastInjury(rows, j).value >= DaysSinceLastInjury(rows, i).value + InjuredOf(rows[i])
  {
    var p := rows[i].playerId.value;
    var hj := PlayerRows(rows[..j], p);
    PlayerRowsPosition(rows[..j], i, p);
    assert rows[..j][..i] == rows[..i];
    var m := |PlayerRows(rows[..i], p)|;
    assert hj == hj[..m + 1] + hj[m + 1..];
    assert hj[..m + 1] == PlayerRows(rows[..i], p) + [rows[i]];
    CountInjuredAppend(hj[..m + 1], hj[m + 1..]);
    CountInjuredAppend(PlayerRows(rows[..i], p), [rows[i]]);
  }

  lemma DaysSinceLastInjuryFirst(rows: seq<WeekRow>, i: nat)
    requires i < |rows| && rows[i].playerId.Some?
    requires forall j :: 0 <= j < i ==> rows[j].playerId != rows[i].playerId
    ensures DaysSinceLastInjury(rows, i) == Some(0)
  {
    var p := rows[i].playerId.value;
    forall x | x in rows[..i] ensures x.playerId != Some(p) {
    }
    PlayerRowsNone(rows[..i], p);
  }

  /** A numeric column of the weekly row (NaN as `None`). */
  function SumSome(h: seq<WeekRow>, v: WeekRow -> Option<int>): int {
    if |h| == 0 then 0
    else SumSome(h[..|h| - 1], v) + (if v(h[|h| - 1]).Some? then v(h[|h| - 1]).value else 0)
  }

  function CountSome(h: seq<WeekRow>, v: WeekRow -> Option<int>): nat {
    if |h| == 0 then 0 else CountSome(h[..|h| - 1], v) + (if v(h[|h| - 1]).Some? then 1 else 0)
  }

  /** pandas `mean`: NaN values are skipped; a window with no value is NaN,
      which the later `fillna(0)` turns into 0. */
  function MeanOf(h: seq<WeekRow>, v: WeekRow -> Option<int>): real {
    var n := CountSome(h, v);
    if n == 0 then 0.0 else SumSome(h, v) as real / n as real
  }

  /** `injured` as the 0/1 value the mean sees. */
  function InjuredValue(r: WeekRow): Option<int> {
    if r.injured.Some? then Some(if r.injured.value then 1 else 0) else None
  }

  lemma {:induction false} InjuredSumBounded(h: seq<WeekRow>)
    ensures 0 <= SumSome(h, InjuredValue) <= CountSome(h, InjuredValue)
  {
    if |h| > 0 {
      InjuredSumBounded(h[..|h| - 1]);
    }
  }

  /** A grouped statistic of the rows up to and including `j` of `j`'s player. */
  function Inclusive(rows: seq<WeekRow>, j: nat, stat: seq<WeekRow> -> real): real
    requires j < |rows|
  {
    if rows[j].playerId.None? then 0.0 else stat(Before(rows, j) + [rows[j]])
  }

  /** Position `i` of the intermediate Series
      `groupby('player_id')[c].<window>.<stat>().shift(1).fillna(0)`: the
      shift is positional over the whole grouped result, so it takes the
      statistic ending at the row above, whichever player that is. */
  function ShiftedSeries(rows: seq<WeekRow>, i: nat, stat: seq<WeekRow> -> real): real
    requires i < |rows|
  {
    if i == 0 || rows[i].playerId.None? then 0.0 else Inclusive(rows, i - 1, stat)
  }

  /** `rolling(3, min_periods=1).mean()` of `touches_per_game`. */
  function RecentTouches(h: seq<WeekRow>): real {
    MeanOf(LastThree(h), Touches)
  }

  /** `rolling(3, min_periods=1).mean()` of `Yds`. */
  function RecentYards(h: seq<WeekRow>): real {
    MeanOf(LastThree(h), (r: WeekRow) => r.yds)
  }

  /** A count over a larger count lies in the unit interval. */
  lemma UnitQuotient(s: int, n: int)
    requires 0 <= s <= n && 0 < n
    ensures 0.0 <= s as real / n as real <= 1.0
  {
    var q := s as real / n as real;
    assert q * n as real == s as real;
  }

  /** `expanding().mean()` of `injured`. */
  function InjuryRate(h: seq<WeekRow>): (rate: real)
    ensures 0.0 <= rate <= 1.0
  {
    InjuredSumBounded(h);
    if CountSome(h, InjuredValue) > 0 then
      UnitQuotient(SumSome(h, InjuredValue), CountSome(h, InjuredValue));
      MeanOf(h, InjuredValue)
    else
      MeanOf(h, InjuredValue)
  }

  /** The shifted Series never reads position `i` or a later row. */
  lemma ShiftedSeriesIgnoresFuture(rows: seq<WeekRow>, other: seq<WeekRow>, i: nat, stat: seq<WeekRow> -> real)
    requires i < |rows| && i < |other|
    requires rows[..i] == other[..i] && rows[i].playerId == other[i].playerId
    ensures ShiftedSeries(rows, i, stat) == ShiftedSeries(other, i, stat)
  {
    if i > 0 && rows[i].playerId.Some? {
      assert rows[i - 1] == rows[..i][i - 1];
      assert rows[..i - 1] == rows[..i][..i - 1] == other[..i - 1];
    }
  }

  /** When the row above belongs to the same player, the shifted Series
      holds the statistic of exactly the player's earlier rows. */
  lemma ShiftedSeriesWithinPlayer(rows: seq<WeekRow>, i: nat, p: string, stat: seq<WeekRow> -> real)
    requires 0 < i < |rows| && rows[i].playerId == Some(p) && rows[i - 1].playerId == Some(p)
    ensures ShiftedSeries(rows, i, stat) == stat(Before(rows, i))
  {
    GroupedCombine.BeforeStep(rows, i, p);
  }

  /** The cross-player shift: at the first position of player "b" the shifted
      Series holds player "a"'s injury rate 1.0, although "b" has no earlier
      row. */
  lemma InjuryRateSeriesCrossesPlayers()
    ensures var rows := [WeekRow(Some("a"), Some(2023), Some(1), Some(12), Some(1), None, None, Some(true)),
                         WeekRow(Some("b"), Some(2023), Some(1), Some(7), Some(2), None, None, Some(false))];
            ShiftedSeries(rows, 1, InjuryRate) == 1.0 && InjuryRate(Before(rows, 1)) == 0.0
  {
    var rows := [WeekRow(Some("a"), Some(2023), Some(1), Some(12), Some(1), None, None, Some(true)),
                 WeekRow(Some("b"), Some(2023), Some(1), Some(7), Some(2), None, None, Some(false))];
    assert rows[..0] == [];
    assert Before(rows, 0) == [];
    assert rows[..1] == [rows[0]];
    assert rows[..1][..0] == [];
    assert Before(rows, 1) == [];
    assert [rows[0]][..0] == [];
  }

  /** The derived columns of one row. */
  datatype Derived = Derived(
    touchesPerGame: Option<int>,
    yardsPerTouch: Option<real>,
    touchdownRate: Option<real>,
    recentTouchesAvg: real,
    recentYardsAvg: real,
    weekInSeason: Option<int>,
    lateSeason: int,
    gamesPlayed: Option<nat>,
    seasonExperience: Option<nat>,
    injuryRatePrior: real,
    daysSinceLastInjury: Option<nat>)

  /** Why `load_and_prepare_data` stops: the `TypeError` of assigning a
      grouped Series to the named column. */
  datatype PrepareError = IncompatibleIndex(column: string)

  /** `load_and_prepare_data` without the file read: a table with a row fails
      at the `recent_touches_avg` assignment; a table without rows has no
      derived record. */
  function LoadAndPrepare(rows: seq<WeekRow>): (r: Result<seq<Derived>, PrepareError>)
    ensures r.Err? <==> |rows| > 0
    ensures r.Err? ==> r.error == IncompatibleIndex("recent_touches_avg")
    ensures r.Ok? ==> r.value == []
  {
    if |rows| > 0 then Err(IncompatibleIndex("recent_touches_avg")) else Ok([])
  }

  /** The derived columns with every grouped window shifted inside its own
      player: a row without a player id, or a player's first row, gets 0. */
  function PrepareWithinPlayer(rows: seq<WeekRow>): (d: seq<Derived>)
    ensures |d| == |rows|
    ensures forall i :: 0 <= i < |rows| ==>
      d[i].weekInSeason == rows[i].week
      && (d[i].gamesPlayed.Some? <==> rows[i].playerId.Some?)
      && 0.0 <= d[i].injuryRatePrior <= 1.0
      && (|Before(rows, i)| == 0 ==> d[i].recentTouchesAvg == 0.0 && d[i].injuryRatePrior == 0.0)
  {
    seq(|rows|, i requires 0 <= i < |rows| =>
      var h := Before(rows, i);
      Derived(Touches(rows[i]), YardsPerTouch(rows[i]), TouchdownRate(rows[i]),
              RecentTouches(h), RecentYards(h), rows[i].week, LateSeason(rows[i]),
              GamesPlayed(rows, i), SeasonExperience(rows, i), InjuryRate(h),
              DaysSinceLastInjury(rows, i)))
  }

  /** No shifted column of the per-player derivation reads row `i` or a later
      row: two tables that agree before row `i` and on row `i` give it the
      same shifted values and the same count of earlier games. */
  lemma PrepareWithinPlayerIgnoresFuture(rows: seq<WeekRow>, other: seq<WeekRow>, i: nat)
    requires i < |rows| && i < |other|
    requires rows[..i] == other[..i] && rows[i] == other[i]
    ensures var d, e := PrepareWithinPlayer(rows)[i], PrepareWithinPlayer(other)[i];
      d.recentTouchesAvg == e.recentTouchesAvg && d.recentYardsAvg == e.recentYardsAvg
      && d.injuryRatePrior == e.injuryRatePrior && d.gamesPlayed == e.gamesPlayed
      && d.daysSinceLastInjury == e.daysSinceLastInjury
  {
    assert Before(rows, i) == Before(other, i);
  }

  /** Where the row above is the same player's, the shifted Series agrees with
      the per-player derivation; only a player's first row can differ. */
  lemma SeriesAgreesWithinPlayer(rows: seq<WeekRow>, i: nat, p: string)
    requires 0 < i < |rows| && rows[i].playerId == Some(p) && rows[i - 1].playerId == Some(p)
    ensures ShiftedSeries(rows, i, RecentTouches) == PrepareWithinPlayer(rows)[i].recentTouchesAvg
    ensures ShiftedSeries(rows, i, RecentYards) == PrepareWithinPlayer(rows)[i].recentYardsAvg
    ensures ShiftedSeries(rows, i, InjuryRate) == PrepareWithinPlayer(rows)[i].injuryRatePrior
  {
    GroupedCombine.BeforeStep(rows, i, p);
  }
}
