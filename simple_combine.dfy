/** `simple_combine_2023_2024`: the two seasons' frames are concatenated over
    the union of their columns, sorted by (player_id, season, Week), and the
    workload features are then written player by player. */
module SimpleCombine {
  import opened Wrappers
  import opened Order
  import opened Tables
  import opened Weeks

  function Zero(): Features {
    Features(0, 0, 0, 0, 0)
  }

  /** The player's feature columns: row `m` of the player's sub-table gets
      the features of the `m` rows before it. */
  function ShiftedColumns(player: seq<WeekRow>): (c: seq<Features>)
    ensures |c| == |player|
    ensures forall m :: 0 <= m < |player| ==> c[m] == FromHistory(player[..m])
  {
    seq(|player|, m requires 0 <= m < |player| => FromHistory(player[..m]))
  }

  lemma PerPlayerOf(rows: seq<WeekRow>, k: nat, p: string)
    requires k < |rows| && rows[k].playerId == Some(p)
    ensures PerPlayer(rows, k) == FromHistory(PlayerRows(rows[..k], p))
  {
  }

  lemma PerPlayerNoId(rows: seq<WeekRow>, k: nat)
    requires k < |rows| && rows[k].playerId.None?
    ensures PerPlayer(rows, k) == Zero()
  {
  }

  /** The per-player shift/expanding/rolling block for player `p`, written
      back through the player's mask: every row of `p` receives the features
      of its own history, every other row keeps what it had. */
  method UpdatePlayer(rows: seq<WeekRow>, feats: seq<Features>, p: string) returns (out: seq<Features>)
    requires |feats| == |rows|
    ensures |out| == |rows|
    ensures forall j :: 0 <= j < |rows| && rows[j].playerId == Some(p) ==> out[j] == PerPlayer(rows, j)
    ensures forall j :: 0 <= j < |rows| && rows[j].playerId != Some(p) ==> out[j] == feats[j]
  {
    var player := PlayerRows(rows, p);
    var computed := ShiftedColumns(player);
    ghost var target := Targets(rows, p);
    out := feats;
    var j, m := 0, 0;
    while j < |rows|
      invariant 0 <= j <= |rows| && |out| == |rows|
      invariant m == |PlayerRows(rows[..j], p)|
      invariant forall k {:trigger out[k]} :: 0 <= k < j && rows[k].playerId == Some(p) ==> out[k] == target[k]
      invariant forall k {:trigger out[k]} :: 0 <= k < |rows| && (k >= j || rows[k].playerId != Some(p)) ==> out[k] == feats[k]
    {
      ghost var prev := out;
      CounterStep(rows, p, j, m, computed, target);
      if rows[j].playerId == Some(p) {
        out := out[j := computed[m]];
        m := m + 1;
      }
      WriteBackStep(rows, feats, target, p, j, prev, out);
      j := j + 1;
    }
    WrittenArePerPlayer(rows, out, target, p);
  }

  /** The player's sub-table position of row `j`: a row of `p` reads the
      computed column at the count of `p`'s earlier rows, which then grows
      by one; any other row leaves the count as it is. */
  lemma CounterStep(rows: seq<WeekRow>, p: string, j: nat, m: nat, computed: seq<Features>, target: seq<Features>)
    requires j < |rows| && m == |PlayerRows(rows[..j], p)|
    requires computed == ShiftedColumns(PlayerRows(rows, p)) && target == Targets(rows, p)
    ensures rows[j].playerId == Some(p) ==>
      m < |computed| && computed[m] == target[j] && |PlayerRows(rows[..j + 1], p)| == m + 1
    ensures rows[j].playerId != Some(p) ==> |PlayerRows(rows[..j + 1], p)| == m
  {
    PlayerCountStep(rows, p, j);
    if rows[j].playerId == Some(p) {
      ComputedAt(rows, p, j, computed);
    }
  }

  /** Row `k`'s features computed from the player's rows before it. */
  ghost function Targets(rows: seq<WeekRow>, p: string): (t: seq<Features>)
    ensures |t| == |rows|
  {
    seq(|rows|, k requires 0 <= k < |rows| => FromHistory(PlayerRows(rows[..k], p)))
  }

  lemma PlayerCountStep(rows: seq<WeekRow>, p: string, j: nat)
    requires j < |rows|
    ensures |PlayerRows(rows[..j + 1], p)| == |PlayerRows(rows[..j], p)| + (if rows[j].playerId == Some(p) then 1 else 0)
  {
    assert rows[..j + 1][..j] == rows[..j];
  }

  lemma ComputedAt(rows: seq<WeekRow>, p: string, j: nat, computed: seq<Features>)
    requires j < |rows| && rows[j].playerId == Some(p)
    requires computed == ShiftedColumns(PlayerRows(rows, p))
    ensures var m := |PlayerRows(rows[..j], p)|;
      m < |computed| && computed[m] == FromHistory(PlayerRows(rows[..j], p))
  {
    var player := PlayerRows(rows, p);
    var m := |PlayerRows(rows[..j], p)|;
    PlayerRowsPosition(rows, j, p);
    assert player[..m] == PlayerRows(rows[..j], p);
    assert computed[m] == FromHistory(player[..m]);
  }

  /** One step of the write-back loop keeps its two invariants. */
  lemma WriteBackStep(rows: seq<WeekRow>, feats: seq<Features>, target: seq<Features>, p: string, j: nat,
                      prev: seq<Features>, out: seq<Features>)
    requires j < |rows| && |prev| == |rows| && |feats| == |rows| && |target| == |rows|
    requires forall k {:trigger prev[k]} :: 0 <= k < j && rows[k].playerId == Some(p) ==> prev[k] == target[k]
    requires forall k {:trigger prev[k]} :: 0 <= k < |rows| && (k >= j || rows[k].playerId != Some(p)) ==> prev[k] == feats[k]
    requires rows[j].playerId == Some(p) ==> out == prev[j := target[j]]
    requires rows[j].playerId != Some(p) ==> out == prev
    ensures |out| == |rows|
    ensures forall k {:trigger out[k]} :: 0 <= k < j + 1 && rows[k].playerId == Some(p) ==> out[k] == target[k]
    ensures forall k {:trigger out[k]} :: 0 <= k < |rows| && (k >= j + 1 || rows[k].playerId != Some(p)) ==> out[k] == feats[k]
  {
  }

  lemma WrittenArePerPlayer(rows: seq<WeekRow>, out: seq<Features>, target: seq<Features>, p: string)
    requires |out| == |rows| && target == Targets(rows, p)
    requires forall k {:trigger out[k]} :: 0 <= k < |rows| && rows[k].playerId == Some(p) ==> out[k] == target[k]
    ensures forall k :: 0 <= k < |rows| && rows[k].playerId == Some(p) ==> out[k] == PerPlayer(rows, k)
  {
    forall k | 0 <= k < |rows| && rows[k].playerId == Some(p) ensures out[k] == PerPlayer(rows, k) {
      PerPlayerOf(rows, k, p);
    }
  }

  /** The loop over `player_id.unique()`: features start at 0 and each
      player's rows are overwritten with that player's own features. Rows
      without a player id match no mask and keep 0, which is also what their
      (empty) history gives. */
  method PerPlayerFeatures(rows: seq<WeekRow>) returns (feats: seq<Features>)
    ensures |feats| == |rows|
    ensures forall i :: 0 <= i < |rows| ==> feats[i] == PerPlayer(rows, i)
  {
    feats := seq(|rows|, _ => Zero());
    var pids := seq(|rows|, i requires 0 <= i < |rows| => rows[i].playerId);
    var ids := Unique(pids);
    var k := 0;
    while k < |ids|
      invariant 0 <= k <= |ids| && |feats| == |rows|
      invariant forall i :: 0 <= i < |rows| && rows[i].playerId in ids[..k] && rows[i].playerId.Some? ==> feats[i] == PerPlayer(rows, i)
      invariant forall i :: 0 <= i < |rows| && !(rows[i].playerId in ids[..k] && rows[i].playerId.Some?) ==> feats[i] == Zero()
    {
      assert ids[..k + 1] == ids[..k] + [ids[k]];
      if ids[k].Some? {
        feats := UpdatePlayer(rows, feats, ids[k].value);
      }
      k := k + 1;
    }
    forall i | 0 <= i < |rows| ensures feats[i] == PerPlayer(rows, i) {
      assert pids[i] == rows[i].playerId;
      assert ids[..k] == ids;
      if rows[i].playerId.None? {
        PerPlayerNoId(rows, i);
      }
    }
  }

  /** The combined, sorted table with its feature and age columns. */
  datatype Combined = Combined(frame: Frame, features: seq<Features>, ages: seq<Option<int>>)

  /** Why the script stops: a column it reads does not exist (`KeyError`). */
  datatype ColumnError = MissingColumn(column: string)

  /** Some row has a player id, so the loop over `player_id.unique()` runs
      its body (a NaN id selects no row and is skipped). */
  predicate HasPlayer(rows: seq<Row>) {
    exists row | row in rows :: Project(row).playerId.Some?
  }

  /** `simple_combine_2023_2024` without the file reads and writes. The sort
      raises on a missing key column; the loop body reads `Att` and then
      `injured`, which raise when absent as soon as one player is processed. */
  method SimpleCombine2023And2024(df2023: Frame, df2024: Frame) returns (r: Result<Combined, ColumnError>)
    ensures var cols := UnionColumns([df2023, df2024]);
      r.Err? <==>
        MissingKey(cols).Some?
        || (("Att" !in cols || "injured" !in cols) && HasPlayer(df2023.rows + df2024.rows))
    ensures var cols := UnionColumns([df2023, df2024]);
      MissingKey(cols).Some? ==> r == Err(MissingColumn(MissingKey(cols).value))
    ensures var cols := UnionColumns([df2023, df2024]);
      r == Err(MissingColumn("Att")) <==>
        MissingKey(cols).None? && "Att" !in cols && HasPlayer(df2023.rows + df2024.rows)
    ensures var cols := UnionColumns([df2023, df2024]);
      r == Err(MissingColumn("injured")) <==>
        MissingKey(cols).None? && "Att" in cols && "injured" !in cols && HasPlayer(df2023.rows + df2024.rows)
    ensures r.Ok? ==>
      var c := r.value;
      c.frame.columns == UnionColumns([df2023, df2024])
      && multiset(c.frame.rows) == multiset(StackPadded([df2023, df2024], c.frame.columns))
      && |c.frame.rows| == |df2023.rows| + |df2024.rows|
      && Sorted(c.frame.rows, FrameKeyLess)
      && |c.features| == |c.ages| == |c.frame.rows|
      && forall i :: 0 <= i < |c.frame.rows| ==>
           c.features[i] == PerPlayer(Projected(c.frame.rows), i)
           && c.ages[i] == AgeEstimate(Project(c.frame.rows[i]))
  {
    var cols := UnionColumns([df2023, df2024]);
    var missing := MissingKey(cols);
    if missing.Some? {
      return Err(MissingColumn(missing.value));
    }
    var c := CombineAndDerive(df2023, df2024);
    HasPlayerPadded(df2023, df2024, c.frame.columns, c.frame.rows);
    if HasPlayer(c.frame.rows) && "Att" !in cols {
      return Err(MissingColumn("Att"));
    }
    if HasPlayer(c.frame.rows) && "injured" !in cols {
      return Err(MissingColumn("injured"));
    }
    r := Ok(c);
  }

  /** The concatenation, the sort and the feature and age columns, for
      frames whose columns the script finds. */
  method CombineAndDerive(df2023: Frame, df2024: Frame) returns (r: Combined)
    ensures r.frame.columns == UnionColumns([df2023, df2024])
    ensures multiset(r.frame.rows) == multiset(StackPadded([df2023, df2024], r.frame.columns))
    ensures |r.frame.rows| == |df2023.rows| + |df2024.rows|
    ensures Sorted(r.frame.rows, FrameKeyLess)
    ensures |r.features| == |r.ages| == |r.frame.rows|
    ensures forall i :: 0 <= i < |r.frame.rows| ==>
      r.features[i] == PerPlayer(Projected(r.frame.rows), i)
      && r.ages[i] == AgeEstimate(Project(r.frame.rows[i]))
  {
    var combined := CombineSafely([df2023, df2024]);
    TotalRowsOfTwo(df2023, df2024);
    var sorted := SortFrame(combined.rows);
    SortFrameSorted(combined.rows);
    var weekly := Projected(sorted);
    var ages := AgeColumn(weekly);
    var feats := PerPlayerFeatures(weekly);
    r := Combined(Frame(combined.columns, sorted), feats, ages);
  }

  /** Padding keeps each row's player id once `player_id` is a column, and
      sorting keeps the rows, so some row of the sorted table has an id
      exactly when some input row has one. */
  lemma HasPlayerPadded(a: Frame, b: Frame, columns: seq<string>, sorted: seq<Row>)
    requires "player_id" in columns
    requires multiset(sorted) == multiset(StackPadded([a, b], columns))
    ensures HasPlayer(sorted) <==> HasPlayer(a.rows + b.rows)
  {
    StackTwo(a, b, columns);
    HasPlayerPermutation(sorted, StackPadded([a, b], columns));
    HasPlayerConcat(PadRows(a.rows, columns), PadRows(b.rows, columns));
    HasPlayerPad(a.rows, columns);
    HasPlayerPad(b.rows, columns);
    HasPlayerConcat(a.rows, b.rows);
  }

  lemma HasPlayerPermutation(s: seq<Row>, t: seq<Row>)
    requires multiset(s) == multiset(t)
    ensures HasPlayer(s) <==> HasPlayer(t)
  {
    if HasPlayer(s) {
      var row :| row in s && Project(row).playerId.Some?;
      assert row in multiset(t);
    }
    if HasPlayer(t) {
      var row :| row in t && Project(row).playerId.Some?;
      assert row in multiset(s);
    }
  }

  lemma HasPlayerConcat(s: seq<Row>, t: seq<Row>)
    ensures HasPlayer(s + t) <==> HasPlayer(s) || HasPlayer(t)
  {
    if HasPlayer(s + t) {
      var row :| row in s + t && Project(row).playerId.Some?;
      assert row in s || row in t;
    }
  }

  lemma HasPlayerPad(rows: seq<Row>, columns: seq<string>)
    requires "player_id" in columns
    ensures HasPlayer(PadRows(rows, columns)) <==> HasPlayer(rows)
  {
    var padded := PadRows(rows, columns);
    if HasPlayer(padded) {
      var row :| row in padded && Project(row).playerId.Some?;
      var i :| 0 <= i < |padded| && padded[i] == row;
      assert Get(row, "player_id") == Get(rows[i], "player_id");
      assert rows[i] in rows;
    }
    if HasPlayer(rows) {
      var row :| row in rows && Project(row).playerId.Some?;
      var i :| 0 <= i < |rows| && rows[i] == row;
      assert Get(padded[i], "player_id") == Get(row, "player_id");
      assert padded[i] in padded;
    }
  }

  lemma StackTwo(a: Frame, b: Frame, columns: seq<string>)
    ensures StackPadded([a, b], columns) == PadRows(a.rows, columns) + PadRows(b.rows, columns)
  {
    assert [a, b][..1] == [a];
    assert [a][..0] == [];
    assert StackPadded([a], columns) == StackPadded([], columns) + PadRows(a.rows, columns);
    assert StackPadded([a, b], columns) == StackPadded([a], columns) + PadRows(b.rows, columns);
  }

  lemma TotalRowsOfTwo(a: Frame, b: Frame)
    ensures TotalRows([a, b]) == |a.rows| + |b.rows|
  {
    assert [a, b][..1] == [a];
    assert [a][..0] == [];
    assert TotalRows([a]) == TotalRows([]) + |a.rows|;
    assert TotalRows([a, b]) == TotalRows([a]) + |b.rows|;
  }

  /** `df['age'] = df['season'] - 1995`. */
  function AgeColumn(rows: seq<WeekRow>): (ages: seq<Option<int>>)
    ensures |ages| == |rows| && forall i :: 0 <= i < |rows| ==> ages[i] == AgeEstimate(rows[i])
  {
    seq(|rows|, i requires 0 <= i < |rows| => AgeEstimate(rows[i]))
  }

  function Projected(rows: seq<Row>): (w: seq<WeekRow>)
    ensures |w| == |rows| && forall i :: 0 <= i < |rows| ==> w[i] == Project(rows[i])
  {
    seq(|rows|, i requires 0 <= i < |rows| => Project(rows[i]))
  }
}
