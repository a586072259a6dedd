/** `create_injury_history_features` and `create_recurrence_target`: every
    game is annotated with what the player's earlier seasons say about
    injuries, and with the two recurrence targets. */
module History {
  import opened Wrappers
  import opened Order
  import Weeks

  /** A game with the columns the history reads; `season` and `injured` are
      assumed numeric and boolean. */
  datatype Game = Game(playerId: Option<string>, season: int, week: Option<int>, injured: bool)

  /** `sort_values(['player_id', 'season', 'Week'])`, NaN last. */
  predicate GameLess(a: Game, b: Game) {
    Weeks.OptStrLess(a.playerId, b.playerId)
    || (a.playerId == b.playerId && a.season < b.season)
    || (a.playerId == b.playerId && a.season == b.season && Weeks.OptIntLess(a.week, b.week))
  }

  lemma GameLessIsStrict()
    ensures StrictOrder(GameLess)
  {
    forall a: Game ensures !GameLess(a, a) {
      Weeks.OptStrLessOrder(a.playerId, a.playerId, a.playerId);
    }
    forall a: Game, b: Game, c: Game | GameLess(a, b) && GameLess(b, c) ensures GameLess(a, c) {
      Weeks.OptStrLessOrder(a.playerId, b.playerId, c.playerId);
    }
  }

  function SortGames(games: seq<Game>): (s: seq<Game>)
    ensures multiset(s) == multiset(games) && |s| == |games|
    ensures Sorted(s, GameLess)
  {
    GameLessIsStrict();
    SortBySorted(games, GameLess);
    SortBy(games, GameLess)
  }

  /** `injury_games` of season `t` of player `p`: the injured games. */
  function InjuryGames(games: seq<Game>, p: string, t: int): nat {
    if |games| == 0 then 0
    else
      var g := games[|games| - 1];
      InjuryGames(games[..|games| - 1], p, t) + (if g.playerId == Some(p) && g.season == t && g.injured then 1 else 0)
  }

  /** `total_games` of season `t` of player `p`. */
  function TotalGames(games: seq<Game>, p: string, t: int): (n: nat)
    ensures InjuryGames(games, p, t) <= n
  {
    if |games| == 0 then 0
    else
      var g := games[|games| - 1];
      TotalGames(games[..|games| - 1], p, t) + (if g.playerId == Some(p) && g.season == t then 1 else 0)
  }

  /** The seasons of `p`'s games that lie before `s`, in game order. */
  function SeasonsBefore(games: seq<Game>, p: string, s: int): (ts: seq<int>)
    ensures forall t :: t in ts <==> t < s && exists g :: g in games && g.playerId == Some(p) && g.season == t
  {
    if |games| == 0 then []
    else
      var init := games[..|games| - 1];
      var g := games[|games| - 1];
      assert games == init + [g];
      SeasonsBefore(init, p, s) + (if g.playerId == Some(p) && g.season < s then [g.season] else [])
  }

  /** `season_injuries[season < current_season]`: the player's earlier
      seasons, each once, ascending. */
  function PriorSeasons(games: seq<Game>, p: string, s: int): (ts: seq<int>)
    ensures StrictlySorted(ts, IntLess)
    ensures forall t :: t in ts <==> t < s && exists g :: g in games && g.playerId == Some(p) && g.season == t
  {
    IntLessIsTotal();
    SortedDistinct(SeasonsBefore(games, p, s), IntLess)
  }

  /** One row of `season_injuries`. */
  datatype SeasonStat = SeasonStat(season: int, injuryGames: nat, totalGames: nat)

  function Stats(games: seq<Game>, p: string, seasons: seq<int>): (st: seq<SeasonStat>)
    ensures |st| == |seasons|
    ensures forall k :: 0 <= k < |seasons| ==>
      st[k] == SeasonStat(seasons[k], InjuryGames(games, p, seasons[k]), TotalGames(games, p, seasons[k]))
  {
    seq(|seasons|, k requires 0 <= k < |seasons| =>
      SeasonStat(seasons[k], InjuryGames(games, p, seasons[k]), TotalGames(games, p, seasons[k])))
  }

  /** `injury_rate`: the mean of `injured` over the season's games. */
  function Rate(st: SeasonStat): real {
    if st.totalGames == 0 then 0.0 else st.injuryGames as real / st.totalGames as real
  }

  /** The seasons with at least one injured game. */
  function InjurySeasons(stats: seq<SeasonStat>): (inj: seq<SeasonStat>)
    ensures forall x :: x in inj <==> x in stats && x.injuryGames > 0
    ensures |inj| <= |stats|
  {
    if |stats| == 0 then []
    else
      var init := stats[..|stats| - 1];
      var last := stats[|stats| - 1];
      assert stats == init + [last];
      InjurySeasons(init) + (if last.injuryGames > 0 then [last] else [])
  }

  function Years(stats: seq<SeasonStat>): (ys: seq<int>)
    ensures |ys| == |stats| && forall k :: 0 <= k < |stats| ==> ys[k] == stats[k].season
  {
    seq(|stats|, k requires 0 <= k < |stats| => stats[k].season)
  }

  function SumInjuryGames(stats: seq<SeasonStat>): nat {
    if |stats| == 0 then 0 else SumInjuryGames(stats[..|stats| - 1]) + stats[|stats| - 1].injuryGames
  }

  function SumRates(stats: seq<SeasonStat>): real {
    if |stats| == 0 then 0.0 else SumRates(stats[..|stats| - 1]) + Rate(stats[|stats| - 1])
  }

  /** `Series.mean()` of a non-empty column, 0 for an empty one (never used
      on an empty one). */
  function MeanOver(total: real, n: nat): real {
    if n == 0 then 0.0 else total / n as real
  }

  /** The last `c` years form a run of consecutive years and the year before
      them, if any, does not continue it. */
  predicate IsConsecutiveTail(ys: seq<int>, c: nat) {
    1 <= c <= |ys|
    && (forall j :: |ys| - c <= j < |ys| - 1 ==> ys[j + 1] == ys[j] + 1)
    && (c == |ys| || ys[|ys| - c] != ys[|ys| - c - 1] + 1)
  }

  /** The length of that run. */
  function ConsecutiveTail(ys: seq<int>): (c: nat)
    requires |ys| > 0
    ensures IsConsecutiveTail(ys, c)
  {
    if |ys| == 1 then 1
    else if ys[|ys| - 1] == ys[|ys| - 2] + 1 then
      ConsecutiveTail(ys[..|ys| - 1]) + 1
    else 1
  }

  /** Only one length qualifies. */
  lemma ConsecutiveTailUnique(ys: seq<int>, c1: nat, c2: nat)
    requires IsConsecutiveTail(ys, c1) && IsConsecutiveTail(ys, c2)
    ensures c1 == c2
  {
  }

  /** The backward loop with `consecutive_count` and its `break`. */
  method ConsecutiveCount(ys: seq<int>) returns (count: nat)
    requires |ys| > 0
    ensures count == ConsecutiveTail(ys)
  {
    count := 0;
    var i := |ys| - 1;
    while i >= 0
      invariant -1 <= i < |ys| && count == |ys| - 1 - i
      invariant forall j :: i < j < |ys| - 1 ==> ys[j + 1] == ys[j] + 1
      decreases i
    {
      if i == |ys| - 1 || ys[i] == ys[i + 1] - 1 {
        count := count + 1;
      } else {
        break;
      }
      i := i - 1;
    }
    ConsecutiveTailUnique(ys, count, ConsecutiveTail(ys));
  }

  /** The history columns of one game. */
  datatype HistoryFeatures = HistoryFeatures(
    hasPriorInjurySeason: bool,
    injurySeasonsCount: nat,
    totalInjuryGames: nat,
    injuryRatePriorSeasons: real,
    consecutiveInjurySeasons: nat,
    lastInjurySeason: int,
    seasonsSinceLastInjury: int,
    injurySeverityPrior: real)

  function Defaults(): HistoryFeatures {
    HistoryFeatures(false, 0, 0, 0.0, 0, 0, 0, 0.0)
  }

  /** The columns of a game in season `s` given the player's earlier seasons. */
  function FromPrior(prior: seq<SeasonStat>, s: int): HistoryFeatures {
    if |prior| == 0 then Defaults()
    else
      var inj := InjurySeasons(prior);
      var base := HistoryFeatures(|inj| > 0, |inj|, SumInjuryGames(prior),
                                  MeanOver(SumRates(prior), |prior|), 0, 0, 0, 0.0);
      if |inj| == 0 then base
      else
        var last := Years(inj)[|inj| - 1];
        base.(consecutiveInjurySeasons := ConsecutiveTail(Years(inj)),
              lastInjurySeason := last,
              seasonsSinceLastInjury := s - last,
              injurySeverityPrior := MeanOver(SumInjuryGames(inj) as real, |inj|))
  }

  function PriorStats(games: seq<Game>, p: string, s: int): seq<SeasonStat> {
    Stats(games, p, PriorSeasons(games, p, s))
  }

  /** The history columns of game `i`; a game without a player id keeps the defaults. */
  function HistoryOf(games: seq<Game>, i: nat): HistoryFeatures
    requires i < |games|
  {
    match games[i].playerId
    case None => Defaults()
    case Some(p) => FromPrior(PriorStats(games, p, games[i].season), games[i].season)
  }

  /** The inner body for one game: the summary of the earlier seasons and
      the consecutive-season scan. */
  method RowHistory(games: seq<Game>, p: string, s: int) returns (h: HistoryFeatures)
    ensures h == FromPrior(PriorStats(games, p, s), s)
  {
    var prior := PriorStats(games, p, s);
    h := Defaults();
    if |prior| > 0 {
      var inj := InjurySeasons(prior);
      h := HistoryFeatures(|inj| > 0, |inj|, SumInjuryGames(prior), MeanOver(SumRates(prior), |prior|), 0, 0, 0, 0.0);
      if |inj| > 0 {
        var years := Years(inj);
        var consecutive := ConsecutiveCount(years);
        var last := years[|years| - 1];
        h := h.(consecutiveInjurySeasons := consecutive, lastInjurySeason := last,
                seasonsSinceLastInjury := s - last,
                injurySeverityPrior := MeanOver(SumInjuryGames(inj) as real, |inj|));
      }
    }
  }

  /** The inner loop for player `p`: each of the player's games gets its
      history, every other game keeps what it had. */
  method UpdatePlayerHistory(games: seq<Game>, hist: seq<HistoryFeatures>, p: string) returns (out: seq<HistoryFeatures>)
    requires |hist| == |games|
    ensures |out| == |games|
    ensures forall i :: 0 <= i < |games| && games[i].playerId == Some(p) ==> out[i] == HistoryOf(games, i)
    ensures forall i :: 0 <= i < |games| && games[i].playerId != Some(p) ==> out[i] == hist[i]
  {
    out := hist;
    var j := 0;
    while j < |games|
      invariant 0 <= j <= |games| && |out| == |games|
      invariant forall i :: 0 <= i < j && games[i].playerId == Some(p) ==> out[i] == HistoryOf(games, i)
      invariant forall i :: 0 <= i < |games| && (i >= j || games[i].playerId != Some(p)) ==> out[i] == hist[i]
    {
      if games[j].playerId == Some(p) {
        var h := RowHistory(games, p, games[j].season);
        out := out[j := h];
      }
      j := j + 1;
    }
  }

  /** One player's pass of the history loop: the games of the players
      done so far have their history, all others the defaults. */
  lemma HistoryStep(games: seq<Game>, done: seq<Option<string>>, id: Option<string>,
                    before: seq<HistoryFeatures>, after: seq<HistoryFeatures>)
    requires |before| == |games| && |after| == |games|
    requires forall i :: 0 <= i < |games| && games[i].playerId in done && games[i].playerId.Some? ==>
      before[i] == HistoryOf(games, i)
    requires forall i :: 0 <= i < |games| && !(games[i].playerId in done && games[i].playerId.Some?) ==>
      before[i] == Defaults()
    requires id.None? ==> after == before
    requires id.Some? ==> forall i :: 0 <= i < |games| && games[i].playerId == id ==> after[i] == HistoryOf(games, i)
    requires id.Some? ==> forall i :: 0 <= i < |games| && games[i].playerId != id ==> after[i] == before[i]
    ensures forall i :: 0 <= i < |games| && games[i].playerId in done + [id] && games[i].playerId.Some? ==>
      after[i] == HistoryOf(games, i)
    ensures forall i :: 0 <= i < |games| && !(games[i].playerId in done + [id] && games[i].playerId.Some?) ==>
      after[i] == Defaults()
  {
  }

  /** The defaults, then the per-player loop of
      `create_injury_history_features`: every game gets its history. */
  method PlayerHistories(games: seq<Game>) returns (hist: seq<HistoryFeatures>)
    ensures |hist| == |games|
    ensures forall i :: 0 <= i < |games| ==> hist[i] == HistoryOf(games, i)
  {
    hist := seq(|games|, _ => Defaults());
    var pids := seq(|games|, i requires 0 <= i < |games| => games[i].playerId);
    var ids := Unique(pids);
    var k := 0;
    while k < |ids|
      invariant 0 <= k <= |ids| && |hist| == |games|
      invariant forall i :: 0 <= i < |games| && games[i].playerId in ids[..k] && games[i].playerId.Some? ==> hist[i] == HistoryOf(games, i)
      invariant forall i :: 0 <= i < |games| && !(games[i].playerId in ids[..k] && games[i].playerId.Some?) ==> hist[i] == Defaults()
    {
      ghost var before := hist;
      if ids[k].Some? {
        hist := UpdatePlayerHistory(games, hist, ids[k].value);
      }
      HistoryStep(games, ids[..k], ids[k], before, hist);
      assert ids[..k + 1] == ids[..k] + [ids[k]];
      k := k + 1;
    }
    forall i | 0 <= i < |games| ensures hist[i] == HistoryOf(games, i) {
      assert pids[i] == games[i].playerId;
      assert ids[..k] == ids;
      if games[i].playerId.None? {
        HistoryOfNoId(games, i);
      }
    }
  }

  /** `create_injury_history_features`: sort, then for each player write the
      history of each of the player's games. */
  method CreateInjuryHistoryFeatures(games: seq<Game>) returns (sorted: seq<Game>, hist: seq<HistoryFeatures>)
    ensures sorted == SortGames(games)
    ensures |hist| == |sorted|
    ensures forall i :: 0 <= i < |sorted| ==> hist[i] == HistoryOf(sorted, i)
  {
    sorted := SortGames(games);
    hist := PlayerHistories(sorted);
  }


  lemma HistoryOfNoId(games: seq<Game>, i: nat)
    requires i < |games| && games[i].playerId.None?
    ensures HistoryOf(games, i) == Defaults()
  {
  }

  /** Appending a game of another player, or of a season not before `s`,
      leaves the summary of the seasons before `s` unchanged. */
  lemma PriorStatsAppend(games: seq<Game>, g: Game, p: string, s: int)
    requires g.playerId != Some(p) || g.season >= s
    ensures PriorStats(games + [g], p, s) == PriorStats(games, p, s)
  {
    assert (games + [g])[..|games|] == games;
    var prior := PriorSeasons(games, p, s);
    assert SeasonsBefore(games + [g], p, s) == SeasonsBefore(games, p, s);
    forall t | t in prior
      ensures InjuryGames(games + [g], p, t) == InjuryGames(games, p, t)
      ensures TotalGames(games + [g], p, t) == TotalGames(games, p, t)
    {
    }
  }

  lemma {:induction false} PriorStatsAppendMany(games: seq<Game>, later: seq<Game>, p: string, s: int)
    requires forall g :: g in later ==> g.playerId != Some(p) || g.season >= s
    ensures PriorStats(games + later, p, s) == PriorStats(games, p, s)
    decreases |later|
  {
    if |later| > 0 {
      var init := later[..|later| - 1];
      var g := later[|later| - 1];
      assert forall x :: x in init ==> x in later;
      PriorStatsAppendMany(games, init, p, s);
      assert games + later == (games + init) + [g];
      PriorStatsAppend(games + init, g, p, s);
    } else {
      assert games + later == games;
    }
  }

  /** No look-ahead: a game's history depends only on the player's earlier
      seasons, so games of later seasons (or of other players) added to the
      table do not change it. */
  lemma HistoryIgnoresLaterSeasons(games: seq<Game>, later: seq<Game>, i: nat, p: string)
    requires i < |games| && games[i].playerId == Some(p)
    requires forall g :: g in later ==> g.playerId != Some(p) || g.season >= games[i].season
    ensures HistoryOf(games + later, i) == HistoryOf(games, i)
  {
    assert (games + later)[i] == games[i];
    PriorStatsAppendMany(games, later, p, games[i].season);
  }

  /** With no earlier season every column keeps its default. */
  lemma NoPriorSeasonDefaults(games: seq<Game>, i: nat, p: string)
    requires i < |games| && games[i].playerId == Some(p)
    requires forall g :: g in games && g.playerId == Some(p) ==> g.season >= games[i].season
    ensures HistoryOf(games, i) == Defaults()
  {
    NoSeasonsBefore(games, p, games[i].season);
  }

  lemma {:induction false} NoSeasonsBefore(games: seq<Game>, p: string, s: int)
    requires forall g :: g in games && g.playerId == Some(p) ==> g.season >= s
    ensures SeasonsBefore(games, p, s) == []
  {
    if |games| > 0 {
      var init := games[..|games| - 1];
      assert forall g :: g in init ==> g in games;
      assert games[|games| - 1] in games;
      NoSeasonsBefore(init, p, s);
    }
  }

  lemma {:induction false} InjuryGamesPositive(games: seq<Game>, p: string, t: int)
    ensures InjuryGames(games, p, t) > 0 <==> exists g :: g in games && g.playerId == Some(p) && g.season == t && g.injured
  {
    if |games| > 0 {
      var init := games[..|games| - 1];
      InjuryGamesPositive(init, p, t);
      assert games == init + [games[|games| - 1]];
    }
  }

  /** The player was injured in some season before `s`. */
  predicate InjuredBefore(games: seq<Game>, p: string, s: int) {
    exists g :: g in games && g.playerId == Some(p) && g.season < s && g.injured
  }

  lemma FromPriorHas(prior: seq<SeasonStat>, s: int)
    ensures FromPrior(prior, s).hasPriorInjurySeason == (|InjurySeasons(prior)| > 0)
  {
  }

  lemma InjuredBeforeHasSeason(games: seq<Game>, p: string, s: int)
    requires InjuredBefore(games, p, s)
    ensures |InjurySeasons(PriorStats(games, p, s))| > 0
  {
    var prior := PriorSeasons(games, p, s);
    var stats := Stats(games, p, prior);
    var g :| g in games && g.playerId == Some(p) && g.season < s && g.injured;
    assert g.season in prior;
    var k :| 0 <= k < |prior| && prior[k] == g.season;
    InjuryGamesPositive(games, p, g.season);
    assert stats[k] in InjurySeasons(stats);
  }

  lemma HasSeasonInjuredBefore(games: seq<Game>, p: string, s: int)
    requires |InjurySeasons(PriorStats(games, p, s))| > 0
    ensures InjuredBefore(games, p, s)
  {
    var prior := PriorSeasons(games, p, s);
    var stats := Stats(games, p, prior);
    var inj := InjurySeasons(stats);
    assert inj[0] in stats;
    var k :| 0 <= k < |stats| && stats[k] == inj[0];
    assert prior[k] in prior;
    InjuryGamesPositive(games, p, prior[k]);
  }

  /** `has_prior_injury_season` holds exactly when some earlier season of the
      player has an injured game. */
  lemma HasPriorIff(games: seq<Game>, i: nat, p: string)
    requires i < |games| && games[i].playerId == Some(p)
    ensures HistoryOf(games, i).hasPriorInjurySeason <==> InjuredBefore(games, p, games[i].season)
  {
    var s := games[i].season;
    FromPriorHas(PriorStats(games, p, s), s);
    if InjuredBefore(games, p, s) {
      InjuredBeforeHasSeason(games, p, s);
    }
    if |InjurySeasons(PriorStats(games, p, s))| > 0 {
      HasSeasonInjuredBefore(games, p, s);
    }
  }

  /** `has_prior_injury_season` never switches back off in a later season. */
  lemma HasPriorMonotone(games: seq<Game>, i: nat, j: nat, p: string)
    requires i < |games| && j < |games|
    requires games[i].playerId == Some(p) && games[j].playerId == Some(p)
    requires games[i].season <= games[j].season
    ensures HistoryOf(games, i).hasPriorInjurySeason ==> HistoryOf(games, j).hasPriorInjurySeason
  {
    HasPriorIff(games, i, p);
    HasPriorIff(games, j, p);
  }

  lemma {:induction false} InjurySeasonsSorted(stats: seq<SeasonStat>)
    requires StrictlySorted(Years(stats), IntLess)
    ensures StrictlySorted(Years(InjurySeasons(stats)), IntLess)
  {
    if |stats| > 0 {
      var init := stats[..|stats| - 1];
      assert Years(init) == Years(stats)[..|stats| - 1];
      InjurySeasonsSorted(init);
      var inj := InjurySeasons(init);
      forall k | 0 <= k < |inj| ensures inj[k].season < stats[|stats| - 1].season {
        assert inj[k] in init;
        var m :| 0 <= m < |init| && init[m] == inj[k];
        assert Years(stats)[m] == inj[k].season;
      }
    }
  }

  lemma {:induction false} SeverityAtLeastOne(inj: seq<SeasonStat>)
    requires forall x :: x in inj ==> x.injuryGames > 0
    ensures SumInjuryGames(inj) >= |inj|
  {
    if |inj| > 0 {
      assert forall x :: x in inj[..|inj| - 1] ==> x in inj;
      SeverityAtLeastOne(inj[..|inj| - 1]);
    }
  }

  /** The columns computed from earlier seasons that include an injury
      season: the last injury season is the latest one, before `s`; the
      consecutive run is between 1 and the number of injury seasons; the
      mean severity is at least one game. */
  lemma FromPriorBounds(prior: seq<SeasonStat>, s: int)
    requires StrictlySorted(Years(prior), IntLess)
    requires forall x :: x in prior ==> x.season < s
    requires |InjurySeasons(prior)| > 0
    ensures var h := FromPrior(prior, s);
      h.seasonsSinceLastInjury >= 1
      && h.seasonsSinceLastInjury == s - h.lastInjurySeason
      && (forall x :: x in InjurySeasons(prior) ==> x.season <= h.lastInjurySeason)
      && 1 <= h.consecutiveInjurySeasons <= h.injurySeasonsCount
      && h.injurySeverityPrior >= 1.0
  {
    var inj := InjurySeasons(prior);
    InjurySeasonsSorted(prior);
    var ys := Years(inj);
    assert inj[|inj| - 1] in prior;
    forall x | x in inj ensures x.season <= ys[|inj| - 1] {
      var n :| 0 <= n < |inj| && inj[n] == x;
      if n < |inj| - 1 {
        assert IntLess(ys[n], ys[|inj| - 1]);
      }
    }
    SeverityAtLeastOne(inj);
    MeanAtLeastOne(SumInjuryGames(inj), |inj|);
  }

  lemma MeanAtLeastOne(total: nat, n: nat)
    requires 0 < n <= total
    ensures MeanOver(total as real, n) >= 1.0
  {
    assert total as real / n as real >= n as real / n as real;
  }

  /** The earlier seasons' table is in increasing season order and holds
      only seasons before `s`. */
  lemma PriorStatsShape(games: seq<Game>, p: string, s: int)
    ensures StrictlySorted(Years(PriorStats(games, p, s)), IntLess)
    ensures forall x :: x in PriorStats(games, p, s) ==> x.season < s
  {
    var prior := PriorSeasons(games, p, s);
    var stats := Stats(games, p, prior);
    assert Years(stats) == prior;
    forall x | x in stats ensures x.season < s {
      var k :| 0 <= k < |stats| && stats[k] == x;
      assert prior[k] in prior;
    }
  }

  /** The season of an earlier injured game is among the earlier injury
      seasons. */
  lemma InjuredSeasonListed(games: seq<Game>, p: string, s: int, g: Game)
    requires g in games && g.playerId == Some(p) && g.season < s && g.injured
    ensures exists x :: x in InjurySeasons(PriorStats(games, p, s)) && x.season == g.season
  {
    var prior := PriorSeasons(games, p, s);
    var stats := Stats(games, p, prior);
    assert g.season in prior;
    var m :| 0 <= m < |prior| && prior[m] == g.season;
    InjuryGamesPositive(games, p, g.season);
    assert stats[m] in InjurySeasons(stats);
  }

  /** With a prior injury: `seasons_since_last_injury >= 1`, the last injury
      season is the latest earlier season with an injured game,
      `1 <= consecutive_injury_seasons <= injury_seasons_count` and
      `injury_severity_prior >= 1`. */
  lemma PriorInjuryBounds(games: seq<Game>, i: nat, p: string)
    requires i < |games| && games[i].playerId == Some(p)
    requires HistoryOf(games, i).hasPriorInjurySeason
    ensures var h := HistoryOf(games, i);
      h.seasonsSinceLastInjury >= 1
      && h.seasonsSinceLastInjury == games[i].season - h.lastInjurySeason
      && (forall g :: g in games && g.playerId == Some(p) && g.season < games[i].season && g.injured ==> g.season <= h.lastInjurySeason)
      && 1 <= h.consecutiveInjurySeasons <= h.injurySeasonsCount
      && h.injurySeverityPrior >= 1.0
  {
    var s := games[i].season;
    var stats := PriorStats(games, p, s);
    PriorStatsShape(games, p, s);
    FromPriorHas(stats, s);
    FromPriorBounds(stats, s);
    forall g | g in games && g.playerId == Some(p) && g.season < s && g.injured
      ensures g.season <= FromPrior(stats, s).lastInjurySeason
    {
      InjuredSeasonListed(games, p, s, g);
    }
  }

  /** As written, the consecutive count is the run ending at the latest
      earlier injury season even when a healthy season follows it: injured
      in 2021 and 2022, healthy in 2023, a 2024 game still counts 2. */
  lemma ConsecutiveIgnoresHealthyGap()
    ensures var h := FromPrior([SeasonStat(2021, 1, 1), SeasonStat(2022, 2, 3), SeasonStat(2023, 0, 4)], 2024);
      h.consecutiveInjurySeasons == 2 && h.seasonsSinceLastInjury == 2
  {
    var prior := [SeasonStat(2021, 1, 1), SeasonStat(2022, 2, 3), SeasonStat(2023, 0, 4)];
    assert prior[..2] == [SeasonStat(2021, 1, 1), SeasonStat(2022, 2, 3)];
    assert prior[..2][..1] == [SeasonStat(2021, 1, 1)];
    assert [SeasonStat(2021, 1, 1)][..0] == [];
    var inj := InjurySeasons(prior);
    assert inj == [SeasonStat(2021, 1, 1), SeasonStat(2022, 2, 3)];
    assert Years(inj) == [2021, 2022];
    assert [2021, 2022][..1] == [2021];
  }

  /** The seasons in which the player has an injured game, each once, ascending. */
  function InjuredSeasonsBefore(games: seq<Game>, p: string): (ts: seq<int>)
    ensures forall t :: t in ts <==> exists g :: g in games && g.playerId == Some(p) && g.season == t && g.injured
  {
    if |games| == 0 then []
    else
      var init := games[..|games| - 1];
      var g := games[|games| - 1];
      assert games == init + [g];
      InjuredSeasonsBefore(init, p) + (if g.playerId == Some(p) && g.injured then [g.season] else [])
  }

  function InjurySeasonList(games: seq<Game>, p: string): (ts: seq<int>)
    ensures StrictlySorted(ts, IntLess)
    ensures forall t :: t in ts <==> exists g :: g in games && g.playerId == Some(p) && g.season == t && g.injured
  {
    IntLessIsTotal();
    SortedDistinct(InjuredSeasonsBefore(games, p), IntLess)
  }

  /** `injury_recurrence` of game `i`: the player has more than one injury
      season and the game lies after the first of them. */
  predicate RecurrenceOf(games: seq<Game>, i: nat)
    requires i < |games|
  {
    match games[i].playerId
    case None => false
    case Some(p) =>
      var ts := InjurySeasonList(games, p);
      |ts| > 1 && games[i].season > ts[0]
  }

  /** The target holds exactly when the player was injured in two different
      seasons and in some season before the game's. */
  lemma RecurrenceIff(games: seq<Game>, i: nat, p: string)
    requires i < |games| && games[i].playerId == Some(p)
    ensures RecurrenceOf(games, i) <==>
      (exists a, b :: a != b && a in InjurySeasonList(games, p) && b in InjurySeasonList(games, p))
      && InjuredBefore(games, p, games[i].season)
  {
    var ts := InjurySeasonList(games, p);
    if |ts| > 1 {
      assert ts[0] != ts[1] && ts[0] in ts && ts[1] in ts;
    }
    if exists a, b :: a != b && a in ts && b in ts {
      var a, b :| a != b && a in ts && b in ts;
    }
    if InjuredBefore(games, p, games[i].season) {
      var g :| g in games && g.playerId == Some(p) && g.season < games[i].season && g.injured;
      assert g.season in ts;
      HeadLeast(ts, g.season, IntLess);
    }
    if |ts| > 1 && games[i].season > ts[0] {
      assert ts[0] in ts;
    }
  }

  /** A single injury season never makes a recurrence, however many later
      seasons the player has. */
  lemma OneInjurySeasonNoRecurrence()
    ensures var games := [Game(Some("p"), 2022, Some(3), true), Game(Some("p"), 2023, Some(1), false)];
      !RecurrenceOf(games, 1)
  {
    var games := [Game(Some("p"), 2022, Some(3), true), Game(Some("p"), 2023, Some(1), false)];
    assert games[..1] == [games[0]] && games[..1][..0] == [];
    assert InjuredSeasonsBefore(games[..1][..0], "p") == [];
    assert InjuredSeasonsBefore(games[..1], "p") == [2022];
    assert InjuredSeasonsBefore(games, "p") == [2022];
    IntLessIsTotal();
    assert [2022][..0] == [];
    assert InjurySeasonList(games, "p") == [2022];
  }

  /** A game with the history columns the previous step wrote. */
  datatype Annotated = Annotated(game: Game, history: HistoryFeatures)

  predicate AnnotatedLess(a: Annotated, b: Annotated) {
    GameLess(a.game, b.game)
  }

  function GamesOf(rows: seq<Annotated>): (g: seq<Game>)
    ensures |g| == |rows| && forall i :: 0 <= i < |rows| ==> g[i] == rows[i].game
  {
    seq(|rows|, i requires 0 <= i < |rows| => rows[i].game)
  }

  /** Re-sorting a table the history step already sorted changes nothing. */
  lemma ResortIsIdentity(rows: seq<Annotated>)
    requires Sorted(GamesOf(rows), GameLess)
    ensures SortBy(rows, AnnotatedLess) == rows
  {
    SortBySortedIsIdentity(rows, AnnotatedLess);
  }

  /** One player's pass of the target loop: the games of player `id` get
      their target, the others keep theirs. */
  lemma MarkStep(games: seq<Game>, done: seq<Option<string>>, id: Option<string>, before: seq<bool>, after: seq<bool>)
    requires |before| == |games| && |after| == |games|
    requires forall i :: 0 <= i < |games| ==> before[i] == (games[i].playerId in done && RecurrenceOf(games, i))
    requires forall i :: 0 <= i < |games| ==>
      after[i] == (before[i] || (id.Some? && games[i].playerId == id
                                 && |InjurySeasonList(games, id.value)| > 1
                                 && games[i].season > InjurySeasonList(games, id.value)[0]))
    ensures forall i :: 0 <= i < |games| ==> after[i] == (games[i].playerId in done + [id] && RecurrenceOf(games, i))
  {
  }

  /** The per-player loop of `create_recurrence_target`: every game gets
      its recurrence target. */
  method MarkRecurrences(games: seq<Game>) returns (recurrence: seq<bool>)
    ensures |recurrence| == |games|
    ensures forall i :: 0 <= i < |games| ==> recurrence[i] == RecurrenceOf(games, i)
  {
    recurrence := seq(|games|, _ => false);
    var pids := seq(|games|, i requires 0 <= i < |games| => games[i].playerId);
    var ids := Unique(pids);
    var k := 0;
    while k < |ids|
      invariant 0 <= k <= |ids| && |recurrence| == |games|
      invariant forall i :: 0 <= i < |games| ==>
        recurrence[i] == (games[i].playerId in ids[..k] && RecurrenceOf(games, i))
    {
      ghost var before := recurrence;
      if ids[k].Some? {
        var p := ids[k].value;
        var ts := InjurySeasonList(games, p);
        if |ts| > 1 {
          var first := ts[0];
          recurrence := seq(|games|, i requires 0 <= i < |games| =>
            recurrence[i] || (games[i].playerId == Some(p) && games[i].season > first));
        }
      }
      MarkStep(games, ids[..k], ids[k], before, recurrence);
      assert ids[..k + 1] == ids[..k] + [ids[k]];
      k := k + 1;
    }
    forall i | 0 <= i < |games| ensures recurrence[i] == RecurrenceOf(games, i) {
      assert pids[i] == games[i].playerId;
      assert ids[..k] == ids;
    }
  }

  /** `create_recurrence_target`: sort, mark the games after the first
      injury season of every player with several injury seasons, and set
      the alternative target `injured & has_prior_injury_season`. */
  method CreateRecurrenceTarget(rows: seq<Annotated>) returns (sorted: seq<Annotated>, recurrence: seq<bool>, alt: seq<bool>)
    ensures sorted == SortBy(rows, AnnotatedLess)
    ensures |recurrence| == |sorted| && |alt| == |sorted|
    ensures forall i :: 0 <= i < |sorted| ==> recurrence[i] == RecurrenceOf(GamesOf(sorted), i)
    ensures forall i :: 0 <= i < |sorted| ==>
      alt[i] == (sorted[i].game.injured && sorted[i].history.hasPriorInjurySeason)
  {
    sorted := SortBy(rows, AnnotatedLess);
    recurrence := MarkRecurrences(GamesOf(sorted));
    alt := seq(|sorted|, i requires 0 <= i < |sorted| =>
      sorted[i].game.injured && sorted[i].history.hasPriorInjurySeason);
  }
}
