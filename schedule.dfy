/** `merge_player_schedule`: a player's weekly log is left-joined onto the
    weeks of the team's schedule, so that every scheduled week has a row;
    `played` marks the weeks the log covers and the count columns are
    zero-filled. */
module Schedule {
  import opened Wrappers
  import Text

  /** One row of the schedule table (`Week`, `team`, `year`). */
  datatype ScheduleRow = ScheduleRow(week: Option<int>, team: Option<string>, year: Option<int>)

  /** One row of the weekly log; a column the log does not have reads as NaN. */
  datatype LogRow = LogRow(
    week: Option<int>,
    team: Option<string>,
    year: Option<int>,
    player: Option<string>,
    playerId: Option<string>,
    targets: Option<int>,
    receptions: Option<int>,
    rushAtt: Option<int>,
    reason: Option<string>)

  /** The weekly log with the presence of the columns whose absence changes
      the outcome (absent `team`, counts, `reason` and `player_id` behave
      like all-NaN columns). */
  datatype WeeklyLog = WeeklyLog(hasWeek: bool, hasYear: bool, hasPlayer: bool, rows: seq<LogRow>)

  /** Where the source raises instead of returning a table. */
  datatype JoinError =
    | EmptySchedule     // `s["team"].iloc[0]` or `s["year"].iloc[0]` on an empty schedule
    | EmptyLog          // `w["year"].iloc[0]` on an empty log
    | YearNotANumber    // `int()` of a NaN year
    | NoWeekColumn      // the merge key is missing from the log
    | NoPlayerColumn    // `merged["player"]` does not exist

  /** The first non-null `team` of the log, if any. */
  function FirstTeam(rows: seq<LogRow>): (t: Option<string>)
    ensures t.Some? <==> exists i :: 0 <= i < |rows| && rows[i].team.Some?
    ensures t.Some? ==> exists i :: (0 <= i < |rows| && rows[i].team == t
      && forall j :: 0 <= j < i ==> rows[j].team.None?)
  {
    if |rows| == 0 then None
    else if rows[0].team.Some? then rows[0].team
    else
      var t := FirstTeam(rows[1..]);
      assert forall i :: 1 <= i < |rows| ==> rows[1..][i - 1] == rows[i];
      if t.Some? then
        var k :| 0 <= k < |rows[1..]| && rows[1..][k].team == t && forall j :: 0 <= j < k ==> rows[1..][j].team.None?;
        assert rows[k + 1].team == t;
        t
      else t
  }

  /** The team: the first non-null weekly team upper-cased, otherwise the
      schedule's first team (possibly NaN). */
  function ChooseTeam(log: WeeklyLog, schedule: seq<ScheduleRow>): (r: Result<Option<string>, JoinError>)
    ensures r.Err? <==> FirstTeam(log.rows).None? && |schedule| == 0
    ensures r.Ok? && FirstTeam(log.rows).Some? ==> r.value == Some(Text.Upper(FirstTeam(log.rows).value))
    ensures r.Ok? && FirstTeam(log.rows).None? ==> r.value == schedule[0].team
  {
    var first := FirstTeam(log.rows);
    if first.Some? then Ok(Some(Text.Upper(first.value)))
    else if |schedule| == 0 then Err(EmptySchedule)
    else Ok(schedule[0].team)
  }

  /** The year: the log's first-row year when the log has the column,
      otherwise the schedule's first-row year; either must be a number. */
  function ChooseYear(log: WeeklyLog, schedule: seq<ScheduleRow>): (r: Result<int, JoinError>)
    ensures log.hasYear ==> (r.Ok? <==> |log.rows| > 0 && log.rows[0].year.Some?)
    ensures log.hasYear && r.Ok? ==> r.value == log.rows[0].year.value
    ensures !log.hasYear ==> (r.Ok? <==> |schedule| > 0 && schedule[0].year.Some?)
    ensures !log.hasYear && r.Ok? ==> r.value == schedule[0].year.value
  {
    if log.hasYear then
      if |log.rows| == 0 then Err(EmptyLog)
      else if log.rows[0].year.None? then Err(YearNotANumber)
      else Ok(log.rows[0].year.value)
    else
      if |schedule| == 0 then Err(EmptySchedule)
      else if schedule[0].year.None? then Err(YearNotANumber)
      else Ok(schedule[0].year.value)
  }

  /** The schedule row belongs to the chosen team and year (NaN equals nothing). */
  predicate InSeason(s: ScheduleRow, team: Option<string>, year: int) {
    s.team.Some? && s.team == team && s.year == Some(year)
  }

  /** `s_use[(team == team) & (year == year)]`, in schedule order. */
  function SeasonWeeks(schedule: seq<ScheduleRow>, team: Option<string>, year: int): (f: seq<ScheduleRow>)
    ensures forall s :: s in f <==> s in schedule && InSeason(s, team, year)
  {
    if |schedule| == 0 then []
    else
      var init := schedule[..|schedule| - 1];
      var last := schedule[|schedule| - 1];
      assert schedule == init + [last];
      SeasonWeeks(init, team, year) + (if InSeason(last, team, year) then [last] else [])
  }

  /** The log rows whose `Week` equals `week`; the merge matches NaN keys to
      each other. */
  function Matching(rows: seq<LogRow>, week: Option<int>): (m: seq<LogRow>)
    ensures forall w :: w in m <==> w in rows && w.week == week
    ensures |m| <= |rows|
  {
    if |rows| == 0 then []
    else
      var init := rows[..|rows| - 1];
      var last := rows[|rows| - 1];
      assert rows == init + [last];
      Matching(init, week) + (if last.week == week then [last] else [])
  }

  /** One row of the merged table before the defaults are filled in: the
      schedule's `Week`, `team` and `year` (they win the suffix clash) and
      the log's other columns. */
  datatype MergedRow = MergedRow(
    week: Option<int>,
    team: Option<string>,
    year: Option<int>,
    player: Option<string>,
    playerId: Option<string>,
    targets: Option<int>,
    receptions: Option<int>,
    rushAtt: Option<int>,
    reason: Option<string>)

  function Unmatched(s: ScheduleRow): MergedRow {
    MergedRow(s.week, s.team, s.year, None, None, None, None, None, None)
  }

  function Matched(s: ScheduleRow, w: LogRow): MergedRow {
    MergedRow(s.week, s.team, s.year, w.player, w.playerId, w.targets, w.receptions, w.rushAtt, w.reason)
  }

  /** The merged rows a schedule row contributes. */
  predicate FromSlot(o: MergedRow, s: ScheduleRow, rows: seq<LogRow>) {
    o == Unmatched(s) || exists w :: w in rows && w.week == s.week && o == Matched(s, w)
  }

  /** A left join keeps the schedule row once when nothing matches and once
      per matching log row otherwise. */
  function JoinOne(s: ScheduleRow, rows: seq<LogRow>): (out: seq<MergedRow>)
    ensures |out| == if |Matching(rows, s.week)| == 0 then 1 else |Matching(rows, s.week)|
    ensures forall o :: o in out ==> FromSlot(o, s, rows)
  {
    var m := Matching(rows, s.week);
    if |m| == 0 then [Unmatched(s)]
    else
      var out := seq(|m|, k requires 0 <= k < |m| => Matched(s, m[k]));
      assert forall o :: o in out ==> exists k :: 0 <= k < |m| && o == Matched(s, m[k]);
      out
  }

  /** `s_use.merge(w, on="Week", how="left")`: the schedule rows in order,
      each followed by its matches in log order. */
  function LeftJoin(schedule: seq<ScheduleRow>, rows: seq<LogRow>): seq<MergedRow> {
    if |schedule| == 0 then []
    else LeftJoin(schedule[..|schedule| - 1], rows) + JoinOne(schedule[|schedule| - 1], rows)
  }

  /** Every merged row comes from one schedule row: unmatched, or paired
      with a log row of the same week; a log row of an unscheduled week is
      never in the result. */
  lemma {:induction false} LeftJoinSound(schedule: seq<ScheduleRow>, rows: seq<LogRow>)
    ensures forall o :: o in LeftJoin(schedule, rows) ==> exists s :: s in schedule && FromSlot(o, s, rows)
  {
    if |schedule| > 0 {
      var init := schedule[..|schedule| - 1];
      var last := schedule[|schedule| - 1];
      LeftJoinSound(init, rows);
      forall o | o in LeftJoin(schedule, rows) ensures exists s :: s in schedule && FromSlot(o, s, rows) {
        if o in LeftJoin(init, rows) {
          var s :| s in init && FromSlot(o, s, rows);
          assert s in schedule;
        } else {
          assert o in JoinOne(last, rows);
        }
      }
    }
  }

  /** Every schedule row reaches the result. */
  lemma {:induction false} LeftJoinComplete(schedule: seq<ScheduleRow>, rows: seq<LogRow>)
    ensures forall s :: s in schedule ==>
      exists o :: o in LeftJoin(schedule, rows) && o.week == s.week && o.team == s.team && o.year == s.year
  {
    if |schedule| > 0 {
      var init := schedule[..|schedule| - 1];
      var last := schedule[|schedule| - 1];
      LeftJoinComplete(init, rows);
      var out := LeftJoin(schedule, rows);
      var block := JoinOne(last, rows);
      assert block[0] in block;
      assert FromSlot(block[0], last, rows);
      forall s | s in schedule
        ensures exists o :: o in out && o.week == s.week && o.team == s.team && o.year == s.year
      {
        if s == last {
          assert block[0] in out;
        } else {
          assert s in init by {
            var k :| 0 <= k < |schedule| && schedule[k] == s;
            assert k < |schedule| - 1;
            assert init[k] == s;
          }
          var o :| o in LeftJoin(init, rows) && o.week == s.week && o.team == s.team && o.year == s.year;
          assert o in out;
        }
      }
    }
  }

  /** At most one log row per `Week` means every schedule row is kept exactly once. */
  lemma {:induction false} LeftJoinLength(schedule: seq<ScheduleRow>, rows: seq<LogRow>)
    requires forall i, j :: 0 <= i < j < |rows| ==> rows[i].week != rows[j].week
    ensures |LeftJoin(schedule, rows)| == |schedule|
  {
    if |schedule| > 0 {
      LeftJoinLength(schedule[..|schedule| - 1], rows);
      MatchingAtMostOne(rows, schedule[|schedule| - 1].week);
    }
  }

  lemma {:induction false} MatchingNone(rows: seq<LogRow>, week: Option<int>)
    requires forall i :: 0 <= i < |rows| ==> rows[i].week != week
    ensures Matching(rows, week) == []
  {
    if |rows| > 0 {
      MatchingNone(rows[..|rows| - 1], week);
    }
  }

  lemma {:induction false} MatchingAtMostOne(rows: seq<LogRow>, week: Option<int>)
    requires forall i, j :: 0 <= i < j < |rows| ==> rows[i].week != rows[j].week
    ensures |Matching(rows, week)| <= 1
  {
    if |rows| > 0 {
      var init := rows[..|rows| - 1];
      MatchingAtMostOne(init, week);
      if rows[|rows| - 1].week == week {
        MatchingNone(init, week);
      }
    }
  }

  /** The count columns the fill loop visits, in its order. */
  const CountColumns: seq<string> := ["targets", "receptions", "rushAtt"]

  /** `merged[col] = merged[col].fillna(0)` for the `c`-th count column (an
      absent column, created as 0, is an all-NaN one filled with 0). */
  function FillColumn(m: MergedRow, c: nat): MergedRow {
    if c == 0 then m.(targets := Some(m.targets.GetOr(0)))
    else if c == 1 then m.(receptions := Some(m.receptions.GetOr(0)))
    else m.(rushAtt := Some(m.rushAtt.GetOr(0)))
  }

  /** The row after the first `c` count columns are filled. */
  function FilledUpTo(m: MergedRow, c: nat): MergedRow {
    if c == 0 then m else FillColumn(FilledUpTo(m, c - 1), c - 1)
  }

  /** The default-filling loop over the three count columns. */
  method FillCounts(merged: seq<MergedRow>) returns (out: seq<MergedRow>)
    ensures |out| == |merged|
    ensures forall i :: 0 <= i < |merged| ==>
      out[i] == merged[i].(targets := Some(merged[i].targets.GetOr(0)),
                           receptions := Some(merged[i].receptions.GetOr(0)),
                           rushAtt := Some(merged[i].rushAtt.GetOr(0)))
  {
    out := merged;
    var c := 0;
    while c < |CountColumns|
      invariant 0 <= c <= |CountColumns| && |out| == |merged|
      invariant forall i :: 0 <= i < |merged| ==> out[i] == FilledUpTo(merged[i], c)
    {
      out := seq(|out|, i requires 0 <= i < |out| => FillColumn(out[i], c));
      c := c + 1;
    }
    forall i | 0 <= i < |merged| ensures out[i] == FilledUpTo(merged[i], 3) {
    }
    forall i | 0 <= i < |merged| ensures FilledUpTo(merged[i], 3) == FillColumn(FillColumn(FillColumn(merged[i], 0), 1), 2) {
      assert FilledUpTo(merged[i], 1) == FillColumn(merged[i], 0);
      assert FilledUpTo(merged[i], 2) == FillColumn(FillColumn(merged[i], 0), 1);
    }
  }

  /** One row of the output: the ten `keep` columns, in order. */
  datatype Joined = Joined(
    player: Option<string>,
    playerId: Option<string>,
    year: Option<int>,
    team: Option<string>,
    week: Option<int>,
    targets: int,
    receptions: int,
    rushAtt: int,
    played: int,
    reason: Option<string>)

  /** `played = player.notna()`, the zero-filled counts and the `keep` projection. */
  function Finish(m: MergedRow): (j: Joined)
    ensures j.played == 1 <==> m.player.Some?
    ensures j.played == 0 || j.played == 1
  {
    Joined(m.player, m.playerId, m.year, m.team, m.week,
           m.targets.GetOr(0), m.receptions.GetOr(0), m.rushAtt.GetOr(0),
           if m.player.Some? then 1 else 0, m.reason)
  }

  function FinishAll(merged: seq<MergedRow>): (out: seq<Joined>)
    ensures |out| == |merged| && forall i :: 0 <= i < |merged| ==> out[i] == Finish(merged[i])
  {
    seq(|merged|, i requires 0 <= i < |merged| => Finish(merged[i]))
  }

  /** The whole reconciliation as a value: the error the source raises
      first, or the joined table. */
  function Reconcile(log: WeeklyLog, schedule: seq<ScheduleRow>): Result<seq<Joined>, JoinError> {
    match ChooseTeam(log, schedule)
    case Err(e) => Err(e)
    case Ok(team) =>
      match ChooseYear(log, schedule)
      case Err(e) => Err(e)
      case Ok(year) =>
        if !log.hasWeek then Err(NoWeekColumn)
        else if !log.hasPlayer then Err(NoPlayerColumn)
        else Ok(FinishAll(LeftJoin(SeasonWeeks(schedule, team, year), log.rows)))
  }

  /** Filling the counts first does not change the projected row. */
  lemma FinishFilled(m: MergedRow, f: MergedRow)
    requires f == m.(targets := Some(m.targets.GetOr(0)), receptions := Some(m.receptions.GetOr(0)),
                     rushAtt := Some(m.rushAtt.GetOr(0)))
    ensures Finish(f) == Finish(m)
  {
  }

  /** `merge_player_schedule` without the file reads and the write. */
  method MergePlayerSchedule(log: WeeklyLog, schedule: seq<ScheduleRow>) returns (r: Result<seq<Joined>, JoinError>)
    ensures r == Reconcile(log, schedule)
  {
    var team := ChooseTeam(log, schedule);
    if team.Err? {
      return Err(team.error);
    }
    var year := ChooseYear(log, schedule);
    if year.Err? {
      return Err(year.error);
    }
    var used := SeasonWeeks(schedule, team.value, year.value);
    if !log.hasWeek {
      return Err(NoWeekColumn);
    }
    var merged := LeftJoin(used, log.rows);
    if !log.hasPlayer {
      return Err(NoPlayerColumn);
    }
    var filled := FillCounts(merged);
    var out := seq(|filled|, i requires 0 <= i < |filled| => Finish(filled[i]));
    forall i | 0 <= i < |merged| ensures out[i] == Finish(merged[i]) {
      FinishFilled(merged[i], filled[i]);
    }
    assert out == FinishAll(merged);
    r := Ok(out);
  }

  /** Completeness: every week of the chosen team's season is in the output. */
  lemma ReconcileComplete(log: WeeklyLog, schedule: seq<ScheduleRow>, team: Option<string>, year: int)
    requires ChooseTeam(log, schedule) == Ok(team) && ChooseYear(log, schedule) == Ok(year)
    requires log.hasWeek && log.hasPlayer
    ensures Reconcile(log, schedule).Ok?
    ensures forall s :: s in schedule && InSeason(s, team, year) ==>
      exists o :: o in Reconcile(log, schedule).value && o.week == s.week && o.team == s.team && o.year == s.year
  {
    var merged := LeftJoin(SeasonWeeks(schedule, team, year), log.rows);
    var out := FinishAll(merged);
    LeftJoinComplete(SeasonWeeks(schedule, team, year), log.rows);
    forall s | s in schedule && InSeason(s, team, year)
      ensures exists o :: o in out && o.week == s.week && o.team == s.team && o.year == s.year
    {
      var m :| m in merged && m.week == s.week && m.team == s.team && m.year == s.year;
      var k :| 0 <= k < |merged| && merged[k] == m;
      assert out[k] in out;
    }
  }

  /** Soundness: every output row is a week of the chosen team and year;
      it is played exactly when it came from a log row of that week with a
      player, and an unmatched week has zero counts and no reason. */
  lemma ReconcileSound(log: WeeklyLog, schedule: seq<ScheduleRow>, o: Joined)
    requires Reconcile(log, schedule).Ok? && o in Reconcile(log, schedule).value
    ensures o.team.Some? && o.team == ChooseTeam(log, schedule).value
    ensures o.year == Some(ChooseYear(log, schedule).value)
    ensures o.played == 1 <==> o.player.Some?
    ensures o.played == 1 ==> exists w :: w in log.rows && w.week == o.week && w.player == o.player
    ensures (o.player.None? && o.playerId.None? && o.targets == 0 && o.receptions == 0 && o.rushAtt == 0 && o.reason.None?)
      || exists w :: (w in log.rows && w.week == o.week && o.player == w.player
         && o.targets == w.targets.GetOr(0) && o.receptions == w.receptions.GetOr(0) && o.rushAtt == w.rushAtt.GetOr(0))
  {
    var team := ChooseTeam(log, schedule).value;
    var year := ChooseYear(log, schedule).value;
    var used := SeasonWeeks(schedule, team, year);
    var merged := LeftJoin(used, log.rows);
    var out := FinishAll(merged);
    var k :| 0 <= k < |out| && out[k] == o;
    assert merged[k] in merged;
    LeftJoinSound(used, log.rows);
    var s :| s in used && FromSlot(merged[k], s, log.rows);
  }

  /** With at most one log row per week the output has exactly one row per
      scheduled week of the season. */
  lemma ReconcileOneRowPerWeek(log: WeeklyLog, schedule: seq<ScheduleRow>)
    requires Reconcile(log, schedule).Ok?
    requires forall i, j :: 0 <= i < j < |log.rows| ==> log.rows[i].week != log.rows[j].week
    ensures |Reconcile(log, schedule).value| ==
      |SeasonWeeks(schedule, ChooseTeam(log, schedule).value, ChooseYear(log, schedule).value)|
  {
    LeftJoinLength(SeasonWeeks(schedule, ChooseTeam(log, schedule).value, ChooseYear(log, schedule).value), log.rows);
  }

  /** The team is the first non-null one of the log, not its most frequent:
      a log whose first team is "LAR" and then twice "SF" is joined with LAR. */
  lemma FirstTeamNotModal()
    ensures var row := LogRow(None, None, None, None, None, None, None, None, None);
            var log := WeeklyLog(true, false, true, [row.(team := Some("LAR")), row.(team := Some("SF")), row.(team := Some("SF"))]);
            ChooseTeam(log, []) == Ok(Some("LAR"))
  {
    var row := LogRow(None, None, None, None, None, None, None, None, None);
    var rows := [row.(team := Some("LAR")), row.(team := Some("SF")), row.(team := Some("SF"))];
    assert FirstTeam(rows) == Some("LAR");
    assert Text.Upper("LAR") == "LAR";
  }
}
