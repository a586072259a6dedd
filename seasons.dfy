/** `aggregate_rb_features`: the weekly joined rows are grouped by
    (player_id, player, year, team) and each group, in week order, becomes
    one season record of totals, ratios, the modal age and the longest run
    of missed weeks. */
module Seasons {
  import opened Wrappers
  import opened Order

  /** A weekly row with the columns the aggregator reads. */
  datatype SeasonWeek = SeasonWeek(
    playerId: Option<string>,
    player: Option<string>,
    year: Option<int>,
    team: Option<string>,
    week: Option<int>,
    played: int,
    rushAtt: Option<int>,
    receptions: Option<int>,
    rushYds: Option<int>,
    recYds: Option<int>,
    age: Option<int>)

  /** A group key; rows with a NaN key column belong to no group. */
  datatype GroupKey = GroupKey(playerId: string, player: string, year: int, team: string)

  function KeyOf(r: SeasonWeek): Option<GroupKey> {
    if r.playerId.Some? && r.player.Some? && r.year.Some? && r.team.Some?
    then Some(GroupKey(r.playerId.value, r.player.value, r.year.value, r.team.value))
    else None
  }

  /** The order in which `groupby` visits its groups: lexicographic on the key. */
  predicate GroupKeyLess(a: GroupKey, b: GroupKey) {
    StrLess(a.playerId, b.playerId)
    || (a.playerId == b.playerId && StrLess(a.player, b.player))
    || (a.playerId == b.playerId && a.player == b.player && a.year < b.year)
    || (a.playerId == b.playerId && a.player == b.player && a.year == b.year && StrLess(a.team, b.team))
  }

  lemma GroupKeyLessIsTotal()
    ensures StrictTotalOrder(GroupKeyLess)
  {
    StrLessIsTotal();
    forall a: GroupKey ensures !GroupKeyLess(a, a) {
    }
    forall a: GroupKey, b: GroupKey, c: GroupKey | GroupKeyLess(a, b) && GroupKeyLess(b, c)
      ensures GroupKeyLess(a, c)
    {
      assert !StrLess(a.playerId, b.playerId) || !StrLess(b.playerId, a.playerId);
      assert !StrLess(a.player, b.player) || !StrLess(b.player, a.player);
    }
    forall a: GroupKey, b: GroupKey ensures a == b || GroupKeyLess(a, b) || GroupKeyLess(b, a) {
    }
  }

  /** The keys of the rows that have one, in row order. */
  function RowKeys(rows: seq<SeasonWeek>): (ks: seq<GroupKey>)
    ensures forall k :: k in ks <==> exists r :: r in rows && KeyOf(r) == Some(k)
  {
    if |rows| == 0 then []
    else
      var init := rows[..|rows| - 1];
      var last := rows[|rows| - 1];
      assert rows == init + [last];
      RowKeys(init) + (if KeyOf(last).Some? then [KeyOf(last).value] else [])
  }

  /** The groups in `groupby` order: each key once, ascending. */
  function Groups(rows: seq<SeasonWeek>): (ks: seq<GroupKey>)
    ensures StrictlySorted(ks, GroupKeyLess)
    ensures forall k :: k in ks <==> exists r :: r in rows && KeyOf(r) == Some(k)
  {
    GroupKeyLessIsTotal();
    SortedDistinct(RowKeys(rows), GroupKeyLess)
  }

  /** The rows of group `k`, in row order. */
  function GroupRows(rows: seq<SeasonWeek>, k: GroupKey): (g: seq<SeasonWeek>)
    ensures forall r :: r in g <==> r in rows && KeyOf(r) == Some(k)
    ensures |g| <= |rows|
  {
    if |rows| == 0 then []
    else
      var init := rows[..|rows| - 1];
      var last := rows[|rows| - 1];
      assert rows == init + [last];
      GroupRows(init, k) + (if KeyOf(last) == Some(k) then [last] else [])
  }

  /** `sort_values('Week')`, NaN weeks last. */
  predicate WeekLess(a: SeasonWeek, b: SeasonWeek) {
    match (a.week, b.week)
    case (Some(x), Some(y)) => x < y
    case (Some(_), None) => true
    case _ => false
  }

  lemma WeekLessIsStrict()
    ensures StrictOrder(WeekLess)
  {
  }

  function ByWeek(g: seq<SeasonWeek>): (s: seq<SeasonWeek>)
    ensures multiset(s) == multiset(g) && |s| == |g|
    ensures Sorted(s, WeekLess)
  {
    WeekLessIsStrict();
    SortBySorted(g, WeekLess);
    SortBy(g, WeekLess)
  }

  function SumPlayed(g: seq<SeasonWeek>): int {
    if |g| == 0 then 0 else SumPlayed(g[..|g| - 1]) + g[|g| - 1].played
  }

  function CountWhere(g: seq<SeasonWeek>, p: SeasonWeek -> bool): (n: nat)
    ensures n <= |g|
  {
    if |g| == 0 then 0 else CountWhere(g[..|g| - 1], p) + (if p(g[|g| - 1]) then 1 else 0)
  }

  /** `col.fillna(0).sum()`. */
  function SumFilled(g: seq<SeasonWeek>, col: SeasonWeek -> Option<int>): int {
    if |g| == 0 then 0 else SumFilled(g[..|g| - 1], col) + col(g[|g| - 1]).GetOr(0)
  }

  /** With 0/1 `played` values the played total counts the played weeks and
      `total_games - games_played` counts the missed ones. */
  lemma {:induction false} PlayedCounts(g: seq<SeasonWeek>)
    requires forall r :: r in g ==> r.played == 0 || r.played == 1
    ensures SumPlayed(g) == CountWhere(g, (r: SeasonWeek) => r.played == 1)
    ensures |g| - SumPlayed(g) == CountWhere(g, (r: SeasonWeek) => r.played == 0)
  {
    if |g| > 0 {
      assert forall r :: r in g[..|g| - 1] ==> r in g;
      PlayedCounts(g[..|g| - 1]);
    }
  }

  /** `total / count if count > 0 else 0` over exact reals. */
  function Ratio(total: int, count: int): (q: real)
    ensures count <= 0 ==> q == 0.0
    ensures count > 0 ==> q * count as real == total as real
  {
    if count > 0 then total as real / count as real else 0.0
  }

  function Occurrences(xs: seq<int>, v: int): nat {
    if |xs| == 0 then 0 else Occurrences(xs[..|xs| - 1], v) + (if xs[|xs| - 1] == v then 1 else 0)
  }

  /** `a` is preferred to `b` as the mode: more frequent, or as frequent and smaller. */
  predicate Preferred(xs: seq<int>, a: int, b: int) {
    Occurrences(xs, a) > Occurrences(xs, b) || (Occurrences(xs, a) == Occurrences(xs, b) && a < b)
  }

  /** The best candidate among `cands`. */
  function BestOf(xs: seq<int>, cands: seq<int>): (m: int)
    requires |cands| > 0
    ensures m in cands
    ensures forall c :: c in cands ==> !Preferred(xs, c, m)
  {
    if |cands| == 1 then cands[0]
    else
      var rest := BestOf(xs, cands[1..]);
      assert forall c :: c in cands ==> c == cands[0] || c in cands[1..];
      if Preferred(xs, cands[0], rest) then cands[0] else rest
  }

  /** `Series.mode().iloc[0]` of non-null values: the most frequent value,
      the smallest one when several are equally frequent. */
  function Mode(xs: seq<int>): (m: int)
    requires |xs| > 0
    ensures m in xs
    ensures forall x :: x in xs ==> Occurrences(xs, x) <= Occurrences(xs, m)
    ensures forall x :: x in xs && Occurrences(xs, x) == Occurrences(xs, m) ==> m <= x
  {
    BestOf(xs, xs)
  }

  function NonNullAges(g: seq<SeasonWeek>): (ages: seq<int>)
    ensures |ages| == 0 <==> forall r :: r in g ==> r.age.None?
    ensures forall a :: a in ages <==> exists r :: r in g && r.age == Some(a)
  {
    if |g| == 0 then []
    else
      var init := g[..|g| - 1];
      var last := g[|g| - 1];
      assert g == init + [last];
      NonNullAges(init) + (if last.age.Some? then [last.age.value] else [])
  }

  /** The season age: the modal non-null `Age`, `None` when all are NaN. */
  function SeasonAge(g: seq<SeasonWeek>): (a: Option<int>)
    ensures a.None? <==> forall r :: r in g ==> r.age.None?
    ensures a.Some? ==> exists r :: r in g && r.age == a
  {
    var ages := NonNullAges(g);
    if |ages| == 0 then None else Some(Mode(ages))
  }

  /** Weeks `i` up to (not including) `j` were all missed. */
  predicate AllMissed(s: seq<int>, i: int, j: int)
    requires 0 <= i <= j <= |s|
  {
    forall k :: i <= k < j ==> s[k] == 0
  }

  /** The `r` weeks from week `i` on were all missed. */
  predicate MissedFrom(s: seq<int>, i: int, r: nat) {
    0 <= i && i + r <= |s| && AllMissed(s, i, i + r)
  }

  /** `r` is the length of the longest run of consecutive missed weeks. */
  ghost predicate LongestMissedRun(s: seq<int>, r: nat) {
    r <= |s|
    && (exists i :: MissedFrom(s, i, r))
    && forall i, j :: 0 <= i <= j <= |s| && AllMissed(s, i, j) ==> j - i <= r
  }

  /** The longest run is well defined: two lengths that both qualify are equal. */
  lemma LongestMissedRunUnique(s: seq<int>, r1: nat, r2: nat)
    requires LongestMissedRun(s, r1) && LongestMissedRun(s, r2)
    ensures r1 == r2
  {
    var i1 :| MissedFrom(s, i1, r1);
    var i2 :| MissedFrom(s, i2, r2);
    assert r1 <= r2 && r2 <= r1;
  }

  /** The scan over the played values with the `consecutive_missed` and
      `max_consecutive_missed` counters. */
  method MaxConsecutiveMissed(s: seq<int>) returns (best: nat)
    ensures LongestMissedRun(s, best)
  {
    var run: nat := 0;
    best := 0;
    var k := 0;
    ghost var start := 0;
    assert AllMissed(s, 0, 0);
    while k < |s|
      invariant 0 <= k <= |s| && run <= best && run <= k
      invariant AllMissed(s, k - run, k)
      invariant k - run == 0 || s[k - run - 1] != 0
      invariant 0 <= start && start + best <= k && AllMissed(s, start, start + best)
      invariant forall i, j :: 0 <= i <= j <= k && AllMissed(s, i, j) ==> j - i <= best
    {
      if s[k] == 0 {
        run := run + 1;
        if best < run {
          best := run;
          start := k + 1 - run;
        }
      } else {
        run := 0;
      }
      k := k + 1;
      forall i, j | 0 <= i <= j <= k && AllMissed(s, i, j) ensures j - i <= best {
        if j == k && i < j {
          // a run ending at the new week lies inside the current run
          assert s[k - 1] == 0;
        }
      }
    }
    assert MissedFrom(s, start, best);
  }

  /** One season record. */
  datatype SeasonRecord = SeasonRecord(
    key: GroupKey,
    age: Option<int>,
    gamesPlayed: int,
    gamesMissed: int,
    totalTouches: int,
    touchesPerGame: real,
    totalRushYds: int,
    totalRecYds: int,
    yardsPerTouch: real,
    multiweekAbsences: int,
    maxConsecutiveMissed: nat)

  function PlayedValues(g: seq<SeasonWeek>): (s: seq<int>)
    ensures |s| == |g| && forall i :: 0 <= i < |g| ==> s[i] == g[i].played
  {
    seq(|g|, i requires 0 <= i < |g| => g[i].played)
  }

  function Touches(g: seq<SeasonWeek>): int {
    SumFilled(g, (r: SeasonWeek) => r.rushAtt) + SumFilled(g, (r: SeasonWeek) => r.receptions)
  }

  /** The record of one group whose rows, in week order, are `g`. */
  method Summarize(key: GroupKey, g: seq<SeasonWeek>) returns (rec: SeasonRecord)
    ensures rec.key == key && rec.age == SeasonAge(g)
    ensures rec.gamesPlayed == SumPlayed(g) && rec.gamesPlayed + rec.gamesMissed == |g|
    ensures rec.totalTouches == Touches(g)
    ensures rec.touchesPerGame == Ratio(rec.totalTouches, rec.gamesPlayed)
    ensures rec.totalRushYds == SumFilled(g, (r: SeasonWeek) => r.rushYds)
    ensures rec.totalRecYds == SumFilled(g, (r: SeasonWeek) => r.recYds)
    ensures rec.yardsPerTouch == Ratio(rec.totalRushYds + rec.totalRecYds, rec.totalTouches)
    ensures LongestMissedRun(PlayedValues(g), rec.maxConsecutiveMissed)
    ensures rec.multiweekAbsences == (if rec.maxConsecutiveMissed >= 2 then 1 else 0)
  {
    var played := SumPlayed(g);
    var touches := Touches(g);
    var rush := SumFilled(g, (r: SeasonWeek) => r.rushYds);
    var recv := SumFilled(g, (r: SeasonWeek) => r.recYds);
    var longest := MaxConsecutiveMissed(PlayedValues(g));
    var multiweek := 0;
    if longest >= 2 {
      multiweek := 1;
    }
    rec := SeasonRecord(key, SeasonAge(g), played, |g| - played, touches, Ratio(touches, played),
                        rush, recv, Ratio(rush + recv, touches), multiweek, longest);
  }

  /** `rec` is the record of its own group: the counts, the age, the
      totals, the two rates and the longest missed run of the group's weeks
      in week order. */
  ghost predicate Summarizes(rows: seq<SeasonWeek>, rec: SeasonRecord) {
    var g := ByWeek(GroupRows(rows, rec.key));
    rec.gamesPlayed + rec.gamesMissed == |g|
    && rec.gamesPlayed == SumPlayed(g)
    && rec.age == SeasonAge(g)
    && rec.totalTouches == Touches(g)
    && rec.touchesPerGame == Ratio(rec.totalTouches, rec.gamesPlayed)
    && rec.totalRushYds == SumFilled(g, (r: SeasonWeek) => r.rushYds)
    && rec.totalRecYds == SumFilled(g, (r: SeasonWeek) => r.recYds)
    && rec.yardsPerTouch == Ratio(rec.totalRushYds + rec.totalRecYds, rec.totalTouches)
    && LongestMissedRun(PlayedValues(g), rec.maxConsecutiveMissed)
    && (rec.multiweekAbsences == 1 <==> rec.maxConsecutiveMissed >= 2)
  }

  /** The record of the group of `key`. */
  method SummarizeGroup(rows: seq<SeasonWeek>, key: GroupKey) returns (rec: SeasonRecord)
    ensures rec.key == key && Summarizes(rows, rec)
  {
    rec := Summarize(key, ByWeek(GroupRows(rows, key)));
  }

  /** `seasons` holds the records of the first keys of `keys`, in order. */
  ghost predicate SummarizesPrefix(rows: seq<SeasonWeek>, keys: seq<GroupKey>, seasons: seq<SeasonRecord>) {
    |seasons| <= |keys|
    && forall m :: 0 <= m < |seasons| ==> seasons[m].key == keys[m] && Summarizes(rows, seasons[m])
  }

  lemma SummarizesSnoc(rows: seq<SeasonWeek>, keys: seq<GroupKey>, seasons: seq<SeasonRecord>, rec: SeasonRecord)
    requires SummarizesPrefix(rows, keys, seasons) && |seasons| < |keys|
    requires rec.key == keys[|seasons|] && Summarizes(rows, rec)
    ensures SummarizesPrefix(rows, keys, seasons + [rec])
  {
    var all := seasons + [rec];
    forall m | 0 <= m < |all| ensures all[m].key == keys[m] && Summarizes(rows, all[m]) {
      if m < |seasons| {
        assert all[m] == seasons[m];
      } else {
        assert all[m] == rec;
      }
    }
  }

  /** The loop of `aggregate_rb_features` over the given group keys. */
  method SummarizeAll(rows: seq<SeasonWeek>, keys: seq<GroupKey>) returns (seasons: seq<SeasonRecord>)
    ensures |seasons| == |keys|
    ensures forall k :: 0 <= k < |seasons| ==> seasons[k].key == keys[k] && Summarizes(rows, seasons[k])
  {
    seasons := [];
    var k := 0;
    while k < |keys|
      invariant 0 <= k <= |keys| && |seasons| == k
      invariant SummarizesPrefix(rows, keys, seasons)
    {
      var rec := SummarizeGroup(rows, keys[k]);
      SummarizesSnoc(rows, keys, seasons, rec);
      seasons := seasons + [rec];
      k := k + 1;
    }
  }

  /** `aggregate_rb_features`: one record per group, in group order. */
  method AggregateRbFeatures(rows: seq<SeasonWeek>) returns (seasons: seq<SeasonRecord>)
    ensures |seasons| == |Groups(rows)|
    ensures forall k :: 0 <= k < |seasons| ==> seasons[k].key == Groups(rows)[k] && Summarizes(rows, seasons[k])
  {
    seasons := SummarizeAll(rows, Groups(rows));
  }

  /** Exactly one record per group: the keys are distinct and are exactly
      the keys the rows carry. */
  lemma OneRecordPerGroup(rows: seq<SeasonWeek>, k: GroupKey)
    ensures k in Groups(rows) <==> exists r :: r in rows && KeyOf(r) == Some(k)
    ensures forall i, j :: 0 <= i < j < |Groups(rows)| ==> Groups(rows)[i] != Groups(rows)[j]
  {
    GroupKeyLessIsTotal();
  }

  /** The group of a key that occurs holds at least one week. */
  lemma GroupNonEmpty(rows: seq<SeasonWeek>, k: GroupKey)
    requires k in Groups(rows)
    ensures |ByWeek(GroupRows(rows, k))| > 0
  {
    var r :| r in rows && KeyOf(r) == Some(k);
    assert r in GroupRows(rows, k);
  }
}
