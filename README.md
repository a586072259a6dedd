# A verified model of the weekly-record pipeline of an NFL running-back injury-risk project

The project turns Pro-Football-Reference game logs into per-week and per-season records of running backs, and uses those records for injury-risk features. This Dafny model covers the part of it that is data processing:

- **schedule reconciliation**: a player's game log is left-joined onto the team's schedule, with `played` and zero-filled counts;
- **injury labelling**: the status-phrase vocabulary and the zero-touch rule;
- **temporal features**: lagged touches, career totals before the current week, the injured count over the three previous weeks, age, games played, season experience and the prior-injury counters;
- **injury history and recurrence**: per-season roll-ups and the walk over a player's earlier seasons;
- **season aggregation**: played and missed weeks, ratios, modal age, and the longest run of missed weeks;
- **the 2023 game-log parsers**: two-row header flattening, renaming of repeated names, the quote-aware line reader, row padding, file-name metadata and the repeated-header filter;
- **the token extractors**: game rows that arrive as one whitespace-separated text cell;
- **player-id repair**: the id is cut out of the player's page URL;
- **player scoring**: the required-feature check, the default features and the risk bands.

A table is a `seq` of rows. A generic row is a `map` from column name to `Cell`, where `Null` stands for NaN or None. Typed rows use `Option` fields. Ratios are exact `real`s.

Loops in the source are methods with loop invariants. Each method is proved equal to a specification function, and the lemmas state what that function guarantees. Where a source loop updates a table in place, the model's method reassigns a sequence.

## Modules

| module | file | models |
|---|---|---|
| `Wrappers`, `Text`, `Order`, `Tables` | wrappers.dfy, text.dfy, order.dfy, tables.dfy | `Option`/`Result`; Python string operations; stable sort and `sorted(set(...))`; frames and the column-union concatenation |
| `Schedule` | schedule.dfy | `merge_player_schedule` |
| `Injury` | injury.dfy | `create_injury_indicators` |
| `Seasons` | seasons.dfy | `aggregate_rb_features` |
| `History` | history.dfy | `create_injury_history_features`, `create_recurrence_target`, the derived columns |
| `Weeks`, `SimpleCombine`, `GroupedCombine`, `Kyren`, `Risk` | weeks.dfy, simple_combine.dfy, grouped_combine.dfy, kyren.dfy, risk.dfy | the per-week feature builders of the combine, cleaning and risk-model scripts |
| `Headers`, `CsvLines`, `GameLogs` | headers.dfy, csv_lines.dfy, game_logs.dfy | the three 2023 parsers |
| `GameLines` | game_lines.dfy | the three token extractors |
| `PlayerIds` | player_ids.dfy | `extract_pfr_id`, `fix_player_ids` |
| `Scoring` | scoring.dfy | `prepare_player_features` and the risk banding |

## Where the code departs from the stated design

The model follows the code in each of these cases, and a lemma shows the difference.

- **Team of record.** The design calls for the most frequent team in the log. The code takes the first non-null team (`Schedule.FirstTeamNotModal`). It also falls back to the schedule's first team rather than failing.
- **Consecutive injury seasons.** The design counts the injury seasons immediately before the current season, so a healthy season breaks the streak. The code counts the run of consecutive years that ends at the last prior injury season, even when a healthy season follows it (`History.ConsecutiveIgnoresHealthyGap`).
- **Recurrence target.** The design marks every season after a player's first injury season. The code also requires at least two injury seasons (`History.OneInjurySeasonNoRecurrence`).
- **Touches.** The combine scripts count `Att` alone as touches; `build_injury_risk_model` counts `Att + Rec` (`Risk.Touches`).
- **Grouped career and window features.** The design expects them in the combined tables and the risk features. `combine_all_seasons`, `combine_2023_2024` and `load_and_prepare_data` assign a grouped `expanding`/`rolling` result whose labels are (player id, row) pairs, which pandas cannot align with the frame, so, once the columns they look up exist, they fail on every table with a row (`GroupedCombine.CombineAllSeasons`, `Risk.LoadAndPrepare`). `simple_combine_2023_2024` computes the same features player by player (`SimpleCombine.PerPlayerFeatures`).
- **Days since last injury.** `days_since_last_injury` is the number of the player's earlier injured rows, not a number of days (`Risk.DaysSinceLastInjury`).

## Model

| member | source | states |
|---|---|---|
| Schedule.FirstTeam | scripts/join_weekly_with_schedule.py:11 | a team exists exactly when some weekly row has one, and it is the team of the earliest such row |
| Schedule.ChooseTeam | scripts/join_weekly_with_schedule.py:11 | fails exactly when the log has no team and the schedule is empty; otherwise the first weekly team upper-cased, else the schedule's first team |
| Schedule.ChooseYear | scripts/join_weekly_with_schedule.py:12 | with a `year` column the log's first-row year (failing on an empty log or a NaN year), otherwise the schedule's first year |
| Schedule.SeasonWeeks | scripts/join_weekly_with_schedule.py:13-14 | keeps exactly the schedule rows of the chosen team and year |
| Schedule.Matching | scripts/join_weekly_with_schedule.py:15 | exactly the weekly rows whose `Week` equals the key |
| Schedule.JoinOne | scripts/join_weekly_with_schedule.py:15 | a schedule row yields one unmatched row when no weekly row matches, else one row per match, each built from that schedule row |
| Schedule.LeftJoinSound | scripts/join_weekly_with_schedule.py:15 | every merged row comes from one schedule row, unmatched or paired with a weekly row of the same week |
| Schedule.LeftJoinComplete | scripts/join_weekly_with_schedule.py:15 | every schedule row reaches the merged table with its week, team and year |
| Schedule.LeftJoinLength | scripts/join_weekly_with_schedule.py:15 | with at most one weekly row per week the merge has exactly as many rows as the schedule |
| Schedule.FillCounts | scripts/join_weekly_with_schedule.py:17-20 | the fill loop leaves every row as the three count columns filled in order, with the row count unchanged |
| Schedule.Finish | scripts/join_weekly_with_schedule.py:16-26 | `played` is 1 exactly when the row has a player and is otherwise 0 |
| Schedule.MergePlayerSchedule | scripts/join_weekly_with_schedule.py:8-28 | the method's result equals the reconciliation function `Reconcile` |
| Schedule.ReconcileComplete | scripts/join_weekly_with_schedule.py:13-15 | every schedule week of the chosen team and year appears in the output |
| Schedule.ReconcileSound | scripts/join_weekly_with_schedule.py:13-26 | every output row has the chosen team and year; `played` is 1 iff it has a player, in which case a weekly row of that week has that player; an unplayed row has no player, zero counts and no reason |
| Schedule.ReconcileOneRowPerWeek | scripts/join_weekly_with_schedule.py:15 | with at most one weekly row per week the output has one row per schedule week of the season |
| Schedule.FirstTeamNotModal | scripts/join_weekly_with_schedule.py:11 | a log whose teams are LAR, SF, SF chooses LAR: the first team, not the most frequent |
| Injury.HitsUpToMonotone | scripts/clean_weekly_data_final.py:102-107 | once a check sets the flag, no later check clears it |
| Injury.HitsUpToExists | scripts/clean_weekly_data_final.py:102-107 | after the first n checks the flag is set exactly when one of them hit |
| Injury.AllChecksOrderFree | scripts/clean_weekly_data_final.py:104-107 | all fifteen checks in loop order flag a row exactly when some present status column contains some indicator, in any order |
| Injury.CheckColumn | scripts/clean_weekly_data_final.py:106-107 | the inner loop leaves each row's flag as the checks up to the end of column c leave it |
| Injury.CreateInjuryIndicators | scripts/clean_weekly_data_final.py:90-113 | one flag per row; a row is flagged exactly when a present status column contains one of the five phrases case-insensitively, or both `Att` and `Rec` exist and are missing or zero |
| Injury.SkippedColumn | scripts/clean_weekly_data_final.py:105 | the checks of an absent status column change no flag |
| Injury.NanMatchesNothing | scripts/clean_weekly_data_final.py:107 | a NaN status cell, read as "nan", contains none of the phrases |
| Tables.AllColumns | scripts/clean_weekly_data_final.py:121-123 | holds exactly the columns of some input frame |
| Tables.UnionColumns | scripts/clean_weekly_data_final.py:121-125 | strictly sorted, and holds exactly the columns of some input frame |
| Tables.PadRow | scripts/clean_weekly_data_final.py:129-135 | has exactly the union columns; a row's own cells are kept and the added columns are null |
| Tables.StackPaddedAt | scripts/clean_weekly_data_final.py:139 | row k of frame j lands at that frame's offset plus k, padded; the stack has the sum of the frames' row counts |
| Tables.CombinedCell | scripts/clean_weekly_data_final.py:115-139 | a frame's own cell survives the union concatenation and every column it lacks is null |
| Tables.CombineSafely | scripts/clean_weekly_data_final.py:115-139 | no frames give the empty frame; otherwise the columns are the sorted union and the rows are every frame's padded rows in order, with the total row count |
| Seasons.GroupKeyLessIsTotal | scripts/build_rb_seasons.py:21 | the group-key order used by `groupby` is a strict total order |
| Seasons.Groups | scripts/build_rb_seasons.py:21-25 | the groups are visited in ascending key order, each key once, and are exactly the keys of rows without a NaN key column |
| Seasons.GroupRows | scripts/build_rb_seasons.py:25 | a group holds exactly the rows with its key |
| Seasons.ByWeek | scripts/build_rb_seasons.py:27 | the group sorted by `Week` is a permutation of the group and is sorted |
| Seasons.PlayedCounts | scripts/build_rb_seasons.py:30-32 | with 0/1 `played` values, games played counts the played weeks and games missed the missed weeks |
| Seasons.Ratio | scripts/build_rb_seasons.py:35-41 | 0 when the divisor is not positive, else the exact quotient |
| Seasons.Mode | scripts/build_rb_seasons.py:44 | the value is one of the ages, no age is more frequent, and among the most frequent it is the smallest |
| Seasons.SeasonAge | scripts/build_rb_seasons.py:44 | no age exactly when every age of the group is NaN; otherwise an age some week has |
| Seasons.LongestMissedRunUnique | scripts/build_rb_seasons.py:48-57 | the longest run of consecutive missed weeks is a single number |
| Seasons.MaxConsecutiveMissed | scripts/build_rb_seasons.py:48-57 | the scan returns the length of the longest run of consecutive weeks with `played == 0` |
| Seasons.Summarize | scripts/build_rb_seasons.py:27-80 | the record has the group's key and modal age; played plus missed is the number of weeks; touches are filled rush attempts plus receptions; the per-game and per-touch ratios divide those totals; `max_consecutive_missed` is the longest missed run; `multiweek_absences` is 1 exactly when that run is at least 2 |
| Seasons.AggregateRbFeatures | scripts/build_rb_seasons.py:10-84 | one record per group, in group order; each has its group's played and missed counts, modal age, touches per game, longest missed run and multi-week flag over the group's rows in week order |
| Seasons.OneRecordPerGroup | scripts/build_rb_seasons.py:21-25 | a key gets a record exactly when some row has it, and no key gets two |
| Seasons.GroupNonEmpty | scripts/build_rb_seasons.py:25-30 | every group holds at least one week |
| History.GameLessIsStrict | scripts/injury_recurrence_model.py:24 | the (player id, season, week) order, NaN last, is a strict order |
| History.SortGames | scripts/injury_recurrence_model.py:24 | the sorted games are a permutation of the input and are sorted |
| History.TotalGames | scripts/injury_recurrence_model.py:42-46 | a season's injured games never exceed its games |
| History.PriorSeasons | scripts/injury_recurrence_model.py:58 | ascending, and exactly the player's seasons before the current one |
| History.Stats | scripts/injury_recurrence_model.py:42-47 | one row per season, holding that season's injured and total game counts |
| History.InjurySeasons | scripts/injury_recurrence_model.py:62 | exactly the seasons with at least one injured game |
| History.ConsecutiveTail | scripts/injury_recurrence_model.py:70-76 | the run of consecutive years at the end of the list, and no longer one |
| History.ConsecutiveTailUnique | scripts/injury_recurrence_model.py:70-76 | only one run length qualifies |
| History.ConsecutiveCount | scripts/injury_recurrence_model.py:71-76 | the backward loop with its `break` counts exactly that run |
| History.RowHistory | scripts/injury_recurrence_model.py:55-85 | the inner body writes the summary of the player's seasons before the current one |
| History.UpdatePlayerHistory | scripts/injury_recurrence_model.py:37-85 | every game of the player gets its history and every other game keeps what it had |
| History.PlayerHistories | scripts/injury_recurrence_model.py:27-85 | after the defaults and the loop over the distinct player ids, every game holds the history of its player's earlier seasons, or the defaults without a player id |
| History.CreateInjuryHistoryFeatures | scripts/injury_recurrence_model.py:19-88 | the table is sorted by player, season and week, and every game of the sorted table gets the history of the player's earlier seasons |
| History.HistoryOfNoId | scripts/injury_recurrence_model.py:27-37 | a game without a player id keeps every default |
| History.PriorStatsAppend | scripts/injury_recurrence_model.py:58 | a game of another player or of a season not before s does not change the earlier-season summary |
| History.HistoryIgnoresLaterSeasons | scripts/injury_recurrence_model.py:58 | no look-ahead: adding games of the current or later seasons, or of other players, leaves a game's history unchanged |
| History.NoPriorSeasonDefaults | scripts/injury_recurrence_model.py:60 | a game with no earlier season keeps every default |
| History.InjuryGamesPositive | scripts/injury_recurrence_model.py:43-62 | a season has injured games iff one of the player's games in it is injured |
| History.HasPriorIff | scripts/injury_recurrence_model.py:60-63 | `has_prior_injury_season` holds exactly when the player has an injured game in an earlier season |
| History.HasPriorMonotone | scripts/injury_recurrence_model.py:58-63 | once set for a season, `has_prior_injury_season` stays set in every later season of the player |
| History.InjurySeasonsSorted | scripts/injury_recurrence_model.py:70 | the injury seasons of an ascending season table are ascending |
| History.FromPriorBounds | scripts/injury_recurrence_model.py:69-85 | with an earlier injury season: at least one season since the last injury, `last_injury_season` is the latest injury season, the consecutive count lies between 1 and the injury-season count, severity is at least 1 |
| History.PriorInjuryBounds | scripts/injury_recurrence_model.py:69-85 | the same bounds stated on a game of the table, the last injury season being the latest earlier season with an injured game |
| History.ConsecutiveIgnoresHealthyGap | scripts/injury_recurrence_model.py:69-77 | injured in 2021 and 2022 and healthy in 2023, a 2024 game still gets a consecutive count of 2 |
| History.InjurySeasonList | scripts/injury_recurrence_model.py:106-112 | ascending, and exactly the seasons in which the player has an injured game |
| History.RecurrenceIff | scripts/injury_recurrence_model.py:112-119 | `injury_recurrence` holds exactly when the player has two different injury seasons and an injured game in a season before this game's |
| History.OneInjurySeasonNoRecurrence | scripts/injury_recurrence_model.py:115 | a player injured only in 2022 has no recurrence in 2023 |
| History.ResortIsIdentity | scripts/injury_recurrence_model.py:95 | sorting the already-sorted table again changes nothing |
| History.MarkRecurrences | scripts/injury_recurrence_model.py:100-119 | after the loop over the distinct player ids, each game's target is the recurrence predicate: the player has more than one injury season and the game lies after the first |
| History.CreateRecurrenceTarget | scripts/injury_recurrence_model.py:90-128 | the table is sorted; `injury_recurrence` is the recurrence predicate of each game; `injury_recurrence_alt` is injured and `has_prior_injury_season` |
| Risk.Touches | scripts/build_injury_risk_model.py:31 | defined exactly when `Att` and `Rec` are, and then their sum (the same column as scripts/injury_recurrence_model.py:300) |
| Risk.PerTouchPlusOne | scripts/build_injury_risk_model.py:32-33 | defined only when the numerator and touches are, and then the numerator divided by touches plus one |
| Risk.RatiosDefined | scripts/build_injury_risk_model.py:32-33 | with non-negative counts the denominator is at least 1, so both ratios exist when their numerators do |
| Risk.LateSeason | scripts/build_injury_risk_model.py:44 | 1 exactly when the week is known and above 12, else 0 (the same column as scripts/injury_recurrence_model.py:301) |
| Risk.GamesPlayed | scripts/build_injury_risk_model.py:47 | defined exactly for rows with a player id, and then at least 1 (the same column as scripts/injury_recurrence_model.py:302) |
| Risk.GamesPlayedCounts | scripts/build_injury_risk_model.py:47 | a later row of the same player has a count at least one higher |
| Risk.GamesPlayedFirst | scripts/build_injury_risk_model.py:47 | a player's first row counts 1 |
| Risk.SeasonExperience | scripts/build_injury_risk_model.py:48 | defined exactly when the row has a player id and a season, and then at least 1 |
| Risk.SeasonExperienceOrder | scripts/build_injury_risk_model.py:48 | within a player, an earlier season ranks strictly lower and an equal season ranks equal |
| Risk.SeasonExperienceFirst | scripts/build_injury_risk_model.py:48 | a row ranks 1 exactly when the player has no earlier season |
| Risk.DaysSinceLastInjury | scripts/build_injury_risk_model.py:52 | defined exactly for rows with a player id; it counts the player's earlier injured rows, so it never exceeds the number of earlier rows |
| Risk.DaysSinceLastInjuryGrows | scripts/build_injury_risk_model.py:52 | at a later row of the same player it is at least the earlier value, plus one when the earlier row was injured |
| Risk.DaysSinceLastInjuryFirst | scripts/build_injury_risk_model.py:52 | a player's first row has 0 |
| Risk.InjuryRate | scripts/build_injury_risk_model.py:51 | an expanding mean of 0/1 values lies between 0 and 1 |
| Risk.ShiftedSeriesIgnoresFuture | scripts/build_injury_risk_model.py:36-51 | position i of an intermediate grouped-then-shifted Series does not depend on row i or any later row |
| Risk.ShiftedSeriesWithinPlayer | scripts/build_injury_risk_model.py:36-51 | where the row above belongs to the same player, the intermediate shifted Series holds the statistic of exactly that player's earlier rows |
| Risk.InjuryRateSeriesCrossesPlayers | scripts/build_injury_risk_model.py:51 | the positional shift of the grouped Series puts player a's rate 1.0 at player b's first position, where b has no earlier row |
| Risk.LoadAndPrepare | scripts/build_injury_risk_model.py:19-56 | fails exactly when the table has a row, at the `recent_touches_avg` assignment of line 36 (`TypeError`: the grouped result is labelled by player and row); a table without rows yields no record |
| Risk.PrepareWithinPlayer | scripts/build_injury_risk_model.py:30-52 | the corrected derivation: one record per row; `week_in_season` is the week, `games_played` exists exactly with a player id, `injury_rate_prior` lies in [0, 1], and a row with no earlier row of its player gets 0 for the shifted averages |
| Risk.PrepareWithinPlayerIgnoresFuture | scripts/build_injury_risk_model.py:36-52 | in the corrected derivation the shifted averages, the prior rate, `games_played` and the injured count of row i depend only on the rows before it and on row i |
| Risk.SeriesAgreesWithinPlayer | scripts/build_injury_risk_model.py:36-51 | where the row above is the same player's, the intermediate shifted Series equals the corrected derivation for the two averages and the prior rate |
| Weeks.KeyLessIsStrict | scripts/simple_combine_2023_2024.py:55 | the (player id, season, week) row order, NaN last, is a strict order |
| Weeks.SortFrameSorted | scripts/simple_combine_2023_2024.py:55 | the sorted table is a permutation of the combined rows, in key order |
| Weeks.PlayerRows | scripts/simple_combine_2023_2024.py:70-71 | the rows of one player, taken from the table |
| Weeks.PlayerRowsAppend | scripts/simple_combine_2023_2024.py:70-71 | filtering a concatenation is concatenating the filtered parts |
| Weeks.FromHistory | scripts/simple_combine_2023_2024.py:75-83 | `prior_multiweek_prev` is at most 3, and a row with no earlier row of its player gets all five features 0 |
| Weeks.PerPlayerIgnoresFuture | scripts/simple_combine_2023_2024.py:75-83 | zero leakage: a row's features depend neither on the row's own statistics nor on any later row |
| Weeks.CareerPriorGrows | scripts/simple_combine_2023_2024.py:80 | with non-negative attempts, a later row of the player has a career total at least the earlier total plus the earlier row's attempts |
| Weeks.FirstRowZero | scripts/simple_combine_2023_2024.py:75-83 | a player's first row gets all five features 0 |
| Weeks.AgeEstimate | scripts/simple_combine_2023_2024.py:66 | defined exactly when the season is, and then season minus 1995 |
| SimpleCombine.ShiftedColumns | scripts/simple_combine_2023_2024.py:75-83 | row m of a player's sub-table gets the features of that player's first m rows |
| SimpleCombine.UpdatePlayer | scripts/simple_combine_2023_2024.py:69-90 | the player's rows get the per-player features and every other row keeps its values |
| SimpleCombine.PerPlayerFeatures | scripts/simple_combine_2023_2024.py:61-90 | every row gets the features of its own player's earlier rows |
| SimpleCombine.SimpleCombine2023And2024 | scripts/simple_combine_2023_2024.py:33-90 | fails with a missing column exactly when a sort key (`player_id`, `season`, `Week`, the first missing one) is absent from both seasons, or some row has a player id and `Att` (checked first) or `injured` is absent; otherwise the table of `CombineAndDerive` |
| SimpleCombine.CombineAndDerive | scripts/simple_combine_2023_2024.py:33-90 | the columns are the sorted union; the rows are a permutation of the padded rows of both seasons, sorted by key, with the total count kept; each row gets its per-player features and `age` |
| SimpleCombine.HasPlayerPadded | scripts/simple_combine_2023_2024.py:52-73 | after padding and sorting, some row has a player id exactly when some input row has one |
| SimpleCombine.AgeColumn | scripts/simple_combine_2023_2024.py:66 | one age per row, each season minus 1995 |
| GroupedCombine.SeriesIgnoresFuture | scripts/combine_all_seasons.py:90-93 | position i of the two intermediate grouped-then-shifted Series does not depend on row i or any later row |
| GroupedCombine.SeriesWithinPlayer | scripts/combine_all_seasons.py:90-93 | where the row above belongs to the same player, the intermediate shifted career total and injury window equal the per-player reference |
| GroupedCombine.CareerSeriesCrossesPlayers | scripts/combine_all_seasons.py:90 | the positional shift of the grouped Series puts player a's 12 attempts at player b's first position, where the per-player reference gives 0 |
| GroupedCombine.CombineAllSeasons | scripts/combine_all_seasons.py:51-96 | stops when no season loaded; a missing sort key fails first (the first missing one), then a missing `Att`; with both present, fails with the `career_touches_prior` index error exactly when the loaded seasons have a row; a table without rows fails exactly when `injured` is missing; otherwise the sorted column union with no rows |
| GroupedCombine.Combine2023And2024 | scripts/combine_2023_2024.py:33-72 | the same lookups as `CombineAllSeasons`: a missing sort key, then a missing `Att`, then the `career_touches_prior` index error exactly when either season has a row, then a missing `injured`; otherwise the sorted column union of both seasons with no rows |
| Kyren.Kept | scripts/clean_kyren_2022.py:44 | exactly the games outside Kyren Williams' 2022 season, in order; kept plus removed is the input count |
| Kyren.CleanKyren | scripts/clean_kyren_2022.py:44-67 | the kept games in order; Kyren's get features recomputed from his kept games; every other game keeps its features |
| Kyren.HistoryWithoutRookieSeason | scripts/clean_kyren_2022.py:51-60 | no 2022 game enters the recomputed features of any Kyren game |
| Headers.FlattenHeaders | scripts/process_2023_robust.py:28-51 | the header loop with its running category yields the flattened names `Flatten`, one per cell of the second header row (the same loop in process_2023_data.py:36-55 and process_2023_data_fixed.py:29-51 via the dialect) |
| Headers.CategoryCarried | scripts/process_2023_robust.py:33-35 | a category stays current from the cell that starts it up to the next cell that starts another |
| Headers.NoCategoryYet | scripts/process_2023_robust.py:30 | before the first category cell there is no category |
| Headers.FlatNameShape | scripts/process_2023_robust.py:39-51 | a blank name becomes `col_i`; any other name ends with the specific name, starts with the category when the category prefixes, and is the specific name alone otherwise; no name is empty |
| Headers.ExcludedCategoriesKeepNames | scripts/process_2023_data.py:48-55 | under Unnamed: 0, Fumbles, Snap Counts, Kick Returns, Punt Returns and Passing a name keeps its stripped specific name |
| Headers.Deduplicate | scripts/process_2023_robust.py:53-60 | the `seen` loop leaves position i as the name itself on its first occurrence and as `name_n` on its n-th |
| Headers.FirstOccurrenceKept | scripts/process_2023_robust.py:55-60 | a position keeps its name exactly when that name did not occur before it |
| Headers.DecodeDedup | scripts/process_2023_robust.py:56-58 | for a name without `_`, the renamed name gives back the name and the number of earlier copies |
| Headers.DedupDistinct | scripts/process_2023_robust.py:53-60 | names without `_` come out pairwise distinct |
| Headers.DedupCanRepeat | scripts/process_2023_robust.py:53-60 | with `_` in the input the result can repeat: `a, a, a_2` gives `a, a_2, a_2` |
| Headers.Reconcile | scripts/process_2023_data_fixed.py:65-70 | exactly `width` names: the flattened names up to `width`, then `extra_col_0`, `extra_col_1`, ... |
| Headers.ReconcileFits | scripts/process_2023_data_fixed.py:66 | a name list as wide as the data is left unchanged |
| CsvLines.SplitQuoted | scripts/process_2023_robust.py:69-85 | the character loop with `current_value` and `in_quotes` yields the quote-aware split `QuotedSplit` |
| CsvLines.NoQuotesInValues | scripts/process_2023_robust.py:74-85 | no value keeps a quote character |
| CsvLines.SplitWithoutQuotes | scripts/process_2023_robust.py:69-85 | on a line without quotes the reader is `line.split(',')` without a trailing empty field |
| CsvLines.QuotedCommaKept | scripts/process_2023_robust.py:75-79 | a comma inside quotes does not split: for any characters x, y, z other than a quote or a comma, `"x,y",z` gives the two values `x,y` and `z` |
| CsvLines.Padded | scripts/process_2023_robust.py:93-97 | a short row is padded with '' to the header count and keeps its cells; a longer row is returned as it is |
| CsvLines.PadRows | scripts/process_2023_robust.py:90-97 | the padding loop turns every row into its padded form, row count unchanged |
| CsvLines.LongRowNotCut | scripts/process_2023_robust.py:96-97 | a three-cell row under two headers keeps three cells: the truncation rebinds a local name only |
| CsvLines.Fitted | scripts/process_2023_robust.py:91-97 | the intended fit: exactly `width` cells, the row's cells first, then '' |
| CsvLines.FittedAgreesWhenShort | scripts/process_2023_robust.py:93-95 | for rows no wider than the header the intended fit and the padding agree |
| GameLogs.FileMetaRoundTrip | scripts/process_2023_robust.py:104-107 | the name `id_season_gamelog.csv` is read back as exactly that player id and season |
| GameLogs.FilterRk | scripts/process_2023_robust.py:114-117 | keeps exactly the rows whose `Rk` cell, lower-cased, is not "rk", "nan" or (robust only) empty |
| GameLogs.AssembleShape | scripts/process_2023_robust.py:103-117 | the result keeps the column names, keeps only input rows, drops every repeated header row and carries the file name's player id, season and name |
| GameLogs.DataLines | scripts/process_2023_robust.py:63-68 | only non-blank lines after the two header lines become rows |
| GameLogs.ParseRobust | scripts/process_2023_robust.py:12-139 | the parser's loops compute `RobustParse`: missing header lines, a too-wide row, or a bad file name make the file fail |
| GameLogs.RobustShape | scripts/process_2023_robust.py:29-101 | a parsed log has one name per cell of the second header line and every row exactly that wide |
| GameLogs.WideRowFailsFile | scripts/process_2023_robust.py:96-99 | a data line with more fields than headers makes the whole file fail instead of being cut |
| GameLogs.TableParse | scripts/process_2023_data_fixed.py:12-67 | fails with `MissingHeaderRows` exactly when there are fewer than two header lines, and with `NoDataRows` exactly when the two header lines are followed by no data line, where the second `read_csv` (line 63; process_2023_data.py:67) raises and the function returns `None` |
| GameLogs.ParseTable | scripts/process_2023_data_fixed.py:12-109 | the header loops of `parse_2023_file` and `parse_single_file` (process_2023_data.py:12-106) compute `TableParse` |
| GameLogs.TableShape | scripts/process_2023_data_fixed.py:65-72 | a parsed table has exactly one name per data column |
| GameLogs.RkGuard | scripts/process_2023_data.py:89-91 | for a file with a data line: without an `Rk` column `process_2023_data` fails while `process_2023_data_fixed` (process_2023_data_fixed.py:85-87) keeps every row |
| GameLines.ExtractGames | scripts/extract_real_game_data.py:61-107 | the row loop computes `Games`: per extractor the skipped leading rows, the metadata from the file name and the failure cases (final_data_extractor.py:12-86, extract_game_data.py:14-92 by the extractor) |
| GameLines.CollectSound | scripts/extract_real_game_data.py:77-95 | every extracted game comes from a row past the skipped header rows that parses to its fields, and carries that row's index, the player id, the season and the file name |
| GameLines.CollectComplete | scripts/extract_real_game_data.py:86-95 | every row that parses yields its game |
| GameLines.CollectOrdered | scripts/extract_real_game_data.py:77-95 | the games keep row order: their indices strictly increase |
| GameLines.ExtractStatsNone | scripts/extract_real_game_data.py:14-23 | no stats exactly for a missing or "nan" cell or fewer than ten tokens |
| GameLines.BlocksByLength | scripts/extract_real_game_data.py:29-53 | the rushing fields exist exactly from 15 tokens on, the receiving fields exactly from 20 on; `opp` is the eighth token |
| GameLines.NegativeYardsBecomeZero | scripts/extract_real_game_data.py:43 | a negative yardage token is not `isdigit` and becomes 0 |
| GameLines.ShortRowInjured | scripts/extract_real_game_data.py:158 | a row of 10 to 14 tokens satisfies the injury test of every extractor (final_data_extractor.py:137, extract_game_data.py:143) |
| GameLines.InjuredColumn | scripts/extract_real_game_data.py:146-158 | fails with a missing `rushing_att` exactly when no game of the batch has the rushing block, else with a missing `receiving_rec` when none has the receiving block; otherwise one flag per game, set exactly when both counts are 0 |
| GameLines.ShortRowInjuredInBatch | scripts/extract_real_game_data.py:158 | in a batch whose count columns exist, a game from a 10-to-14-token row is flagged injured |
| GameLines.ShortBatchFails | scripts/extract_real_game_data.py:158 | a batch in which no row reaches 15 tokens fails with a missing `rushing_att` instead of flagging its games |
| GameLines.CarriesNotInjured | scripts/extract_real_game_data.py:158 | a game with a positive rushing attempt count is not injured |
| GameLines.ScanDate | scripts/extract_game_data.py:63 | the date is the season text from the file name, a dash and the fifth token |
| PlayerIds.ExtractPfrId | scripts/fix_player_ids.py:11-16 | an extracted id is a non-empty run of letters and digits |
| PlayerIds.ExtractComplete | scripts/fix_player_ids.py:13-15 | any prefix, `/players/`, one upper-case letter, `/`, an alphanumeric id and `.htm` at the end (or before a final newline) gives back that id |
| PlayerIds.ExtractSound | scripts/fix_player_ids.py:13-15 | an extracted id comes with a match of the pattern whose group it is |
| PlayerIds.ExtractIff | scripts/fix_player_ids.py:11-16 | the function returns `id` exactly when the URL matches the pattern with `id` as its group |
| PlayerIds.LowercaseDirectoryRejected | scripts/fix_player_ids.py:13 | a URL of the expected shape whose directory letter is not in `[A-Z]` (a lower-case letter, say) gives no id |
| PlayerIds.TrailingSlashRejected | scripts/fix_player_ids.py:13 | a URL not ending in `.htm` gives no id |
| PlayerIds.IdCell | scripts/fix_player_ids.py:25 | the new cell is text exactly when an id was extracted, null otherwise |
| PlayerIds.FixRowCells | scripts/fix_player_ids.py:25-38 | a repaired row holds the extracted id in `player_id` (null when none), has no `pfr_id`, and keeps every other cell |
| PlayerIds.FixPlayerIdsRows | scripts/fix_player_ids.py:25-38 | without a `player` column every URL yields an id; every row is kept; `player_id` becomes the extracted id or null; `pfr_id` is gone; every other cell is unchanged |
| PlayerIds.FixPlayerIdsColumns | scripts/fix_player_ids.py:35-38 | the result has a `player_id` column and no `pfr_id` column, and keeps every other input column |
| PlayerIds.FixPlayerIdsFails | scripts/fix_player_ids.py:25-32 | fails exactly when the `pfr_url` column is missing, a URL cell is not text, or a URL yields no id while the frame has no `player` column; each error names the first row that causes it |
| Scoring.FirstMissing | scripts/score_player.py:34-36 | no result exactly when every required name is present; a result is a required name that is missing |
| Scoring.PrepareFeatures | scripts/score_player.py:18-49 | the check loop and the column additions compute `Prepare` |
| Scoring.PrepareRejects | scripts/score_player.py:32-36 | rejected exactly when a required feature is missing; the error names the first missing one in checking order |
| Scoring.FirstMissingIsFirst | scripts/score_player.py:34-36 | the missing name reported is preceded only by present names |
| Scoring.PrepareAccepts | scripts/score_player.py:29-47 | one row; the supplied features keep their place and value; each default column holds the supplied value if any, else 1, 4.5 or 0; nothing else is added |
| Scoring.SuppliedDefaultsKept | scripts/score_player.py:40-47 | a player supplying all seven features gets exactly their own frame |
| Scoring.BandsPartition | scripts/score_player.py:105-110 | LOW exactly below 0.3, MEDIUM exactly on [0.3, 0.6), HIGH exactly from 0.6 |
| Scoring.BandMonotone | scripts/score_player.py:105-110 | a higher probability never gets a lower risk level |

## Left out

- Reading and writing files, `glob`, `os.path.basename`, `argparse` and every `print` are not modelled. A parser takes the lines or cells of one file and the file's base name as parameters. A script's result is the table it would write.
- PlayerIds.FixPlayerIds: without a `player` column, the sample print at scripts/fix_player_ids.py:45 raises `KeyError` after the file has been saved; the model returns the saved table. The earlier `KeyError` of the missing-id warning at line 32, before the save, is the `NoPlayerColumn` error.
- `pd.read_csv` tokenising and type inference are not modelled. Cells arrive as `Option<string>` or as a typed `Cell`, with NaN as `None` or `Null`.
- `pd.to_numeric(..., errors='coerce')` and `clean_data_types` are not modelled. Numeric fields arrive as `Option<int>`; the extractors' count tokens are read by `GameLines.CountValue`.
- Text operations are restricted to ASCII: `isdigit`, `isalnum`, `lower`, `upper` and the whitespace of `split()`/`strip()`. Python's `int()` is modelled on an optional sign followed by digits; surrounding whitespace and `_` between digits are not accepted.
- The 2023 parsers add `player_id`, `season` and `source_file` as fields of the parsed log, not as columns. If the header already holds a column of that name, the source overwrites it; the model does not show that.
- `GameLogs.RobustParse` fails on a too-wide row with `RowTooWide`. The source gets an exception from the `DataFrame` constructor and returns `None`.
- `round(3)` on season rates, `np.polyfit` for `touches_trend` (scripts/build_injury_risk_model.py:40) and floating-point rounding in general are not modelled. Rates are exact `real`s, and `touches_trend` is absent.
- Model fitting, prediction and evaluation are not modelled. This includes `predict_injury_risk` (scripts/score_player.py:51-67) and the training functions of the two model scripts. The probability handed to `Scoring.Band` is a parameter.
- `Scoring.Band` is defined on `real` only. A NaN probability, for which every comparison is false and which the source therefore bands HIGH, is not modelled.
- `json.loads` is not modelled. The player's features arrive as `Scoring.PlayerData`, a key list and a map.
- `fix_player_ids` is modelled as a function on frames, `PlayerIds.FixPlayerIds`, since `apply` and column assignment have no loop of their own.
- The lag columns of scripts/combine_all_seasons.py:86-88 and scripts/combine_2023_2024.py:61-63 are grouped shifts that align with the frame, but the career assignment that follows raises on any table with a row, so nothing is saved; the model does not compute them.
- SeriesIgnoresFuture: states a property of the intermediate shifted Series only; no table row receives it, because the assignment at scripts/combine_all_seasons.py:90 raises.
- SeriesWithinPlayer: states a property of the intermediate shifted Series only, for the same reason.
- CareerSeriesCrossesPlayers: the cross-player value exists only in the intermediate shifted Series; the script fails before any row receives it.
- ShiftedSeriesIgnoresFuture: states a property of the intermediate shifted Series only; no table row receives it, because the assignment at scripts/build_injury_risk_model.py:36 raises.
- ShiftedSeriesWithinPlayer: states a property of the intermediate shifted Series only, for the same reason.
- InjuryRateSeriesCrossesPlayers: the cross-player rate exists only in the intermediate shifted Series; the script fails at line 36, before line 51 runs.
- The columns of scripts/build_injury_risk_model.py:39-52 are never reached on a table with a row, since line 36 raises first. `Risk.GamesPlayed`, `Risk.SeasonExperience`, `Risk.DaysSinceLastInjury` and the other column functions state what each expression computes, and `Risk.PrepareWithinPlayer` assembles them with every shift kept inside its player.
- Whether pandas accepts the grouped assignment when the frame has rows but no row has a player id is not established; the model treats every table with a row as failing.
- GameLines.ShortRowInjured: states the per-game injury test only; in a batch where no game reaches 15 (or 20) tokens the `rushing_att` (or `receiving_rec`) column does not exist and the source raises `KeyError` before the test runs, which `GameLines.InjuredColumn` and `GameLines.ShortBatchFails` model.
- SimpleCombine.SimpleCombine2023And2024: a `player_id` cell that is not text counts as no id, as in every projected week row; pandas would loop over it as an id, and with `Att` or `injured` missing raise `KeyError`.
- Risk.LoadAndPrepare: takes typed week rows, which have every column, so the `KeyError` of a file without `player_id`, `Att`, `Rec`, `Yds` or `TD` at scripts/build_injury_risk_model.py:25-36 is not modelled; the CSV read of line 24 is not modelled either.
- The sample-data, scraping, reporting and model-fitting scripts are not part of this model.

## Findings

| source | as written | input that shows it | evidently intended | confidence | as-written member | corrected member |
|---|---|---|---|---|---|---|
| scripts/combine_all_seasons.py:90-93 | a grouped `expanding`/`rolling` result is labelled by (player id, row label) pairs; assigning it to a column of the frame, whose labels are the row numbers, cannot align them and raises `TypeError`, so the script saves nothing; the same happens at scripts/combine_2023_2024.py:66 and scripts/build_injury_risk_model.py:36. The positional `.shift(1)` of that Series would also carry one player's value to the next player's first row | any table with a row whose columns include the sort keys and `Att`, e.g. one week of one player; for the shift, player a with one 12-attempt week followed by player b's first week, where the Series holds 12 at b's position instead of 0 | shift within each player and assign per player, as scripts/simple_combine_2023_2024.py:67-83 does | high, not executed | GroupedCombine.CombineAllSeasons, Risk.LoadAndPrepare, GroupedCombine.CareerSeriesCrossesPlayers | SimpleCombine.PerPlayerFeatures, Risk.PrepareWithinPlayerIgnoresFuture |
| scripts/process_2023_robust.py:96-97 | `row = row[:max_cols]` rebinds the loop variable, so a row longer than the header keeps its extra cells; the `DataFrame` constructor then raises and the whole file is lost | a data line `1,2,3` under the header line `a,b` | cut every row to the header count | high, not executed | CsvLines.LongRowNotCut, GameLogs.WideRowFailsFile | CsvLines.Fitted, CsvLines.FittedAgreesWhenShort |
