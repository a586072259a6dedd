/** The weekly game row that the feature builders read, the
    (player_id, season, Week) ordering they sort by, and the per-player
    reference definitions of the backward-looking features. */
module Weeks {
  import opened Wrappers
  import opened Order
  import opened Tables

  /** The columns of a weekly row that the feature steps read. A missing
      value (NaN) is `None`. */
  datatype WeekRow = WeekRow(
    playerId: Option<string>,
    season: Option<int>,
    week: Option<int>,
    att: Option<int>,
    rec: Option<int>,
    yds: Option<int>,
    td: Option<int>,
    injured: Option<bool>)

  function IntCell(c: Cell): Option<int> {
    if c.Int? then Some(c.i) else None
  }

  function TextCell(c: Cell): Option<string> {
    if c.Text? then Some(c.s) else None
  }

  function FlagCell(c: Cell): Option<bool> {
    if c.Flag? then Some(c.b) else None
  }

  function Get(row: Row, column: string): Cell {
    if column in row then row[column] else Null
  }

  /** Reads a frame row as a weekly row; absent or non-conforming cells are NaN. */
  function Project(row: Row): WeekRow {
    WeekRow(
      TextCell(Get(row, "player_id")),
      IntCell(Get(row, "season")),
      IntCell(Get(row, "Week")),
      IntCell(Get(row, "Att")),
      IntCell(Get(row, "Rec")),
      IntCell(Get(row, "Yds")),
      IntCell(Get(row, "TD")),
      FlagCell(Get(row, "injured")))
  }

  // ---- the sort key: NaN sorts last in every column ----

  predicate OptStrLess(a: Option<string>, b: Option<string>) {
    match (a, b)
    case (Some(x), Some(y)) => StrLess(x, y)
    case (Some(_), None) => true
    case _ => false
  }

  predicate OptIntLess(a: Option<int>, b: Option<int>) {
    match (a, b)
    case (Some(x), Some(y)) => x < y
    case (Some(_), None) => true
    case _ => false
  }

  /** `sort_values(['player_id', 'season', 'Week'])`, NaN last. */
  predicate KeyLess(a: WeekRow, b: WeekRow) {
    OptStrLess(a.playerId, b.playerId)
    || (a.playerId == b.playerId && OptIntLess(a.season, b.season))
    || (a.playerId == b.playerId && a.season == b.season && OptIntLess(a.week, b.week))
  }

  predicate FrameKeyLess(a: Row, b: Row) {
    KeyLess(Project(a), Project(b))
  }

  lemma OptStrLessOrder(a: Option<string>, b: Option<string>, c: Option<string>)
    ensures !OptStrLess(a, a)
    ensures OptStrLess(a, b) && OptStrLess(b, c) ==> OptStrLess(a, c)
    ensures !(OptStrLess(a, b) && OptStrLess(b, a))
  {
    if a.Some? {
      StrLessIrreflexive(a.value);
      if b.Some? && c.Some? && OptStrLess(a, b) && OptStrLess(b, c) {
        StrLessTransitive(a.value, b.value, c.value);
      }
      if b.Some? && OptStrLess(a, b) && OptStrLess(b, a) {
        StrLessTransitive(a.value, b.value, a.value);
      }
    }
  }

  lemma KeyLessTransitive(a: WeekRow, b: WeekRow, c: WeekRow)
    requires KeyLess(a, b) && KeyLess(b, c)
    ensures KeyLess(a, c)
  {
    OptStrLessOrder(a.playerId, b.playerId, c.playerId);
  }

  /** The row order is a strict order, so the stable sort by it is sorted. */
  lemma KeyLessIsStrict()
    ensures StrictOrder(KeyLess)
    ensures StrictOrder(FrameKeyLess)
  {
    forall a: WeekRow ensures !KeyLess(a, a) {
      OptStrLessOrder(a.playerId, a.playerId, a.playerId);
    }
    forall a: WeekRow, b: WeekRow, c: WeekRow | KeyLess(a, b) && KeyLess(b, c) ensures KeyLess(a, c) {
      KeyLessTransitive(a, b, c);
    }
    forall a: Row, b: Row, c: Row | FrameKeyLess(a, b) && FrameKeyLess(b, c)
      ensures FrameKeyLess(a, c)
    {
      KeyLessTransitive(Project(a), Project(b), Project(c));
    }
  }

  /** The combined frame sorted by (player_id, season, Week); ties keep their order. */
  function SortFrame(rows: seq<Row>): seq<Row> {
    SortBy(rows, FrameKeyLess)
  }

  /** The sort is a permutation of the rows, in key order. */
  lemma SortFrameSorted(rows: seq<Row>)
    ensures multiset(SortFrame(rows)) == multiset(rows)
    ensures Sorted(SortFrame(rows), FrameKeyLess)
  {
    KeyLessIsStrict();
    SortBySorted(rows, FrameKeyLess);
  }

  /** The columns `sort_values(['player_id', 'season', 'Week'])` looks up, in that order. */
  const SortKeys: seq<string> := ["player_id", "season", "Week"]

  /** The key whose lookup raises `KeyError` in the sort: the first sort key
      the frame lacks, or none when it has all three. */
  function MissingKey(columns: seq<string>): (r: Option<string>)
    ensures r.None? <==> forall k :: k in SortKeys ==> k in columns
    ensures r.Some? ==>
      exists i :: 0 <= i < |SortKeys| && r.value == SortKeys[i] && r.value !in columns
        && forall j :: 0 <= j < i ==> SortKeys[j] in columns
  {
    if "player_id" !in columns then assert SortKeys[0] == "player_id"; Some("player_id")
    else if "season" !in columns then assert SortKeys[1] == "season"; Some("season")
    else if "Week" !in columns then assert SortKeys[2] == "Week"; Some("Week")
    else None
  }

  // ---- per-player history ----

  /** `df[df['player_id'] == p]`: the rows of player `p`, in table order. */
  function PlayerRows(rows: seq<WeekRow>, p: string): (r: seq<WeekRow>)
    ensures |r| <= |rows|
    ensures forall x :: x in r ==> x in rows && x.playerId == Some(p)
  {
    if |rows| == 0 then []
    else
      var init := PlayerRows(rows[..|rows| - 1], p);
      if rows[|rows| - 1].playerId == Some(p) then init + [rows[|rows| - 1]] else init
  }

  /** The rows of the same player strictly before row `i`; none for a row
      without a player id (NaN matches nothing). */
  function Before(rows: seq<WeekRow>, i: nat): seq<WeekRow>
    requires i < |rows|
  {
    match rows[i].playerId
    case None => []
    case Some(p) => PlayerRows(rows[..i], p)
  }

  /** Filtering a prefix gives a prefix of the filtered table. */
  lemma {:induction false} PlayerRowsPrefix(rows: seq<WeekRow>, i: nat, p: string)
    requires i <= |rows|
    ensures PlayerRows(rows[..i], p) <= PlayerRows(rows, p)
    decreases |rows|
  {
    if i < |rows| {
      PlayerRowsPrefix(rows[..|rows| - 1], i, p);
      assert rows[..|rows| - 1][..i] == rows[..i];
    } else {
      assert rows[..i] == rows;
    }
  }

  /** Row `i` of player `p` sits in the player's sub-table right after the
      player's earlier rows. */
  lemma PlayerRowsPosition(rows: seq<WeekRow>, i: nat, p: string)
    requires i < |rows| && rows[i].playerId == Some(p)
    ensures var m := |PlayerRows(rows[..i], p)|;
            m < |PlayerRows(rows, p)| && PlayerRows(rows, p)[m] == rows[i]
            && PlayerRows(rows, p)[..m] == PlayerRows(rows[..i], p)
  {
    assert rows[..i + 1][..i] == rows[..i];
    PlayerRowsPrefix(rows, i + 1, p);
  }

  /** Rows of other players do not move the sub-table of `p`. */
  lemma {:induction false} PlayerRowsAppend(a: seq<WeekRow>, b: seq<WeekRow>, p: string)
    ensures PlayerRows(a + b, p) == PlayerRows(a, p) + PlayerRows(b, p)
    decreases |b|
  {
    if |b| == 0 {
      assert a + b == a;
    } else {
      assert (a + b)[..|a + b| - 1] == a + b[..|b| - 1];
      PlayerRowsAppend(a, b[..|b| - 1], p);
    }
  }

  // ---- the backward-looking features ----

  /** Rushing attempts with NaN read as 0 (`fillna(0)` after the shift, and
      the NaN-skipping sum of `expanding().sum()`). */
  function AttOf(r: WeekRow): int {
    r.att.GetOr(0)
  }

  /** An injured row counts 1 in the rolling sum; NaN and False count 0. */
  function InjuredOf(r: WeekRow): nat {
    if r.injured == Some(true) then 1 else 0
  }

  function SumAtt(h: seq<WeekRow>): int {
    if |h| == 0 then 0 else SumAtt(h[..|h| - 1]) + AttOf(h[|h| - 1])
  }

  function CountInjured(h: seq<WeekRow>): (n: nat)
    ensures n <= |h|
  {
    if |h| == 0 then 0 else CountInjured(h[..|h| - 1]) + InjuredOf(h[|h| - 1])
  }

  /** The last (up to) three rows of a history. */
  function LastThree(h: seq<WeekRow>): (w: seq<WeekRow>)
    ensures |w| == if |h| < 3 then |h| else 3
    ensures w == h[|h| - |w|..]
  {
    if |h| <= 3 then h else h[|h| - 3..]
  }

  /** The five workload columns the combine steps write. */
  datatype Features = Features(
    touchesPrev: int,
    touchesPrev2: int,
    touchesPrev3: int,
    careerTouchesPrior: int,
    priorMultiweekPrev: nat)

  /** `Att` of the k-th row back in a history, 0 when there are fewer rows. */
  function Lag(h: seq<WeekRow>, k: nat): int
    requires 1 <= k
  {
    if |h| >= k then AttOf(h[|h| - k]) else 0
  }

  /** The features of a row whose same-player history (oldest first) is `h`. */
  function FromHistory(h: seq<WeekRow>): (f: Features)
    ensures f.priorMultiweekPrev <= 3
    ensures |h| == 0 ==> f == Features(0, 0, 0, 0, 0)
  {
    Features(Lag(h, 1), Lag(h, 2), Lag(h, 3), SumAtt(h), CountInjured(LastThree(h)))
  }

  /** The reference: features of row `i` from its own player's earlier rows only. */
  function PerPlayer(rows: seq<WeekRow>, i: nat): Features
    requires i < |rows|
  {
    FromHistory(Before(rows, i))
  }

  /** Zero leakage: the features of row `i` do not depend on row `i`'s own
      statistics or on any later row. */
  lemma PerPlayerIgnoresFuture(rows: seq<WeekRow>, other: seq<WeekRow>, i: nat)
    requires i < |rows| && i < |other|
    requires rows[..i] == other[..i] && rows[i].playerId == other[i].playerId
    ensures PerPlayer(rows, i) == PerPlayer(other, i)
  {
  }

  lemma {:induction false} SumAttAppend(a: seq<WeekRow>, b: seq<WeekRow>)
    ensures SumAtt(a + b) == SumAtt(a) + SumAtt(b)
    decreases |b|
  {
    if |b| > 0 {
      assert (a + b)[..|a + b| - 1] == a + b[..|b| - 1];
      SumAttAppend(a, b[..|b| - 1]);
    } else {
      assert a + b == a;
    }
  }

  lemma {:induction false} SumAttNonNegative(h: seq<WeekRow>)
    requires forall x :: x in h ==> AttOf(x) >= 0
    ensures SumAtt(h) >= 0
  {
    if |h| > 0 {
      assert forall x :: x in h[..|h| - 1] ==> x in h;
      SumAttNonNegative(h[..|h| - 1]);
    }
  }

  /** `career_touches_prior` grows along a player's rows: a later row's value
      is at least an earlier row's value plus that earlier row's attempts,
      when attempts are never negative. */
  lemma CareerPriorGrows(rows: seq<WeekRow>, i: nat, j: nat)
    requires i < j < |rows|
    requires rows[i].playerId.Some? && rows[i].playerId == rows[j].playerId
    requires forall x :: x in rows ==> AttOf(x) >= 0
    ensures PerPlayer(rows, j).careerTouchesPrior >= PerPlayer(rows, i).careerTouchesPrior + AttOf(rows[i])
  {
    var p := rows[i].playerId.value;
    var pre := rows[..j];
    PlayerRowsPosition(pre, i, p);
    assert pre[..i] == rows[..i];
    var m := |PlayerRows(rows[..i], p)|;
    var h := PlayerRows(pre, p);
    assert h[..m] + [h[m]] + h[m + 1..] == h;
    SumAttAppend(h[..m] + [h[m]], h[m + 1..]);
    SumAttAppend(h[..m], [h[m]]);
    forall x | x in h[m + 1..] ensures AttOf(x) >= 0 {
      assert x in h;
    }
    SumAttNonNegative(h[m + 1..]);
  }

  /** On the first row of a player every workload feature is 0. */
  lemma FirstRowZero(rows: seq<WeekRow>, i: nat)
    requires i < |rows| && rows[i].playerId.Some?
    requires forall j :: 0 <= j < i ==> rows[j].playerId != rows[i].playerId
    ensures PerPlayer(rows, i) == Features(0, 0, 0, 0, 0)
  {
    var p := rows[i].playerId.value;
    forall x | x in rows[..i] ensures x.playerId != Some(p) {
      var j :| 0 <= j < i && rows[..i][j] == x;
    }
    PlayerRowsNone(rows[..i], p);
  }

  lemma {:induction false} PlayerRowsNone(rows: seq<WeekRow>, p: string)
    requires forall x :: x in rows ==> x.playerId != Some(p)
    ensures PlayerRows(rows, p) == []
  {
    if |rows| > 0 {
      assert forall x :: x in rows[..|rows| - 1] ==> x in rows;
      PlayerRowsNone(rows[..|rows| - 1], p);
    }
  }

  /** `age = season - 1995`, NaN when the season is NaN. */
  function AgeEstimate(r: WeekRow): (a: Option<int>)
    ensures a.Some? <==> r.season.Some?
    ensures a.Some? ==> a.value + 1995 == r.season.value
  {
    match r.season
    case Some(s) => Some(s - 1995)
    case None => None
  }
}
