/** `create_injury_indicators`: a game is flagged injured when a status
    column mentions one of five absence phrases, or when both carries and
    receptions are missing or zero. */
module Injury {
  import opened Wrappers
  import opened Text

  /** The status columns checked, in the order the source checks them. */
  const StatusColumns: seq<string> := ["GS", "Result", "Team"]

  /** The absence phrases, matched case-insensitively. */
  const Indicators: seq<string> := ["Did Not Play", "Inactive", "Injured Reserve", "PUP", "Suspended"]

  /** The cells the classifier reads from one game row. */
  datatype StatusRow = StatusRow(gs: Option<string>, result: Option<string>, team: Option<string>,
                                 att: Option<int>, rec: Option<int>)

  /** `df[col].astype(str)`: a NaN cell reads as the text "nan". */
  function CellText(row: StatusRow, c: nat): string {
    var v := if c == 0 then row.gs else if c == 1 then row.result else row.team;
    v.GetOr("nan")
  }

  /** Status column `c` exists and its text contains indicator `k`. */
  predicate Hit(present: set<string>, row: StatusRow, c: nat, k: nat)
    requires c < |StatusColumns| && k < |Indicators|
  {
    StatusColumns[c] in present && ContainsIgnoreCase(CellText(row, c), Indicators[k])
  }

  /** The flag after the first `n` (column, indicator) checks, in loop order. */
  function HitsUpTo(present: set<string>, row: StatusRow, n: nat): bool
    requires n <= |StatusColumns| * |Indicators|
  {
    if n == 0 then false
    else HitsUpTo(present, row, n - 1) || Hit(present, row, (n - 1) / |Indicators|, (n - 1) % |Indicators|)
  }

  /** The status test stated without any order: some present status column
      contains some indicator. */
  predicate StatusInjured(present: set<string>, row: StatusRow) {
    exists c, k :: 0 <= c < |StatusColumns| && 0 <= k < |Indicators| && Hit(present, row, c, k)
  }

  predicate MissingOrZero(v: Option<int>) {
    v.None? || v.value == 0
  }

  /** The zero-touch test, only when both columns exist. */
  predicate ZeroTouch(present: set<string>, row: StatusRow) {
    "Att" in present && "Rec" in present && MissingOrZero(row.att) && MissingOrZero(row.rec)
  }

  predicate IsInjured(present: set<string>, row: StatusRow) {
    StatusInjured(present, row) || ZeroTouch(present, row)
  }

  /** A flag once set is never cleared by a later check. */
  lemma {:induction false} HitsUpToMonotone(present: set<string>, row: StatusRow, m: nat, n: nat)
    requires m <= n <= |StatusColumns| * |Indicators|
    ensures HitsUpTo(present, row, m) ==> HitsUpTo(present, row, n)
    decreases n - m
  {
    if m < n {
      HitsUpToMonotone(present, row, m, n - 1);
    }
  }

  /** After the first `n` checks the flag is set exactly when one of them hit. */
  lemma {:induction false} HitsUpToExists(present: set<string>, row: StatusRow, n: nat)
    requires n <= |StatusColumns| * |Indicators|
    ensures HitsUpTo(present, row, n) <==>
      exists m :: 0 <= m < n && Hit(present, row, m / |Indicators|, m % |Indicators|)
  {
    if n > 0 {
      HitsUpToExists(present, row, n - 1);
    }
  }

  /** The order of the checks does not matter: running all fifteen in loop
      order flags exactly the rows the order-free test flags. */
  lemma AllChecksOrderFree(present: set<string>, row: StatusRow)
    ensures HitsUpTo(present, row, |StatusColumns| * |Indicators|) <==> StatusInjured(present, row)
  {
    HitsUpToExists(present, row, |StatusColumns| * |Indicators|);
    if StatusInjured(present, row) {
      var c, k :| 0 <= c < |StatusColumns| && 0 <= k < |Indicators| && Hit(present, row, c, k);
      var m := c * |Indicators| + k;
      assert m / |Indicators| == c && m % |Indicators| == k;
    }
  }

  /** `c * |Indicators| + k` names check `k` of column `c`. */
  lemma CheckIndex(c: nat, k: nat)
    requires k < |Indicators|
    ensures (c * |Indicators| + k) / |Indicators| == c && (c * |Indicators| + k) % |Indicators| == k
  {
  }

  /** One more check of a present column ors in its test. */
  lemma HitsUpToStep(present: set<string>, row: StatusRow, c: nat, k: nat)
    requires c < |StatusColumns| && StatusColumns[c] in present && k < |Indicators|
    ensures HitsUpTo(present, row, c * |Indicators| + k + 1) ==
      (HitsUpTo(present, row, c * |Indicators| + k) || ContainsIgnoreCase(CellText(row, c), Indicators[k]))
  {
    CheckIndex(c, k);
  }

  /** The inner loop: the five indicator checks of one present status column. */
  method CheckColumn(present: set<string>, rows: seq<StatusRow>, flags: seq<bool>, c: nat) returns (injured: seq<bool>)
    requires c < |StatusColumns| && StatusColumns[c] in present && |flags| == |rows|
    requires forall i :: 0 <= i < |rows| ==> flags[i] == HitsUpTo(present, rows[i], c * |Indicators|)
    ensures |injured| == |rows|
    ensures forall i :: 0 <= i < |rows| ==> injured[i] == HitsUpTo(present, rows[i], c * |Indicators| + |Indicators|)
  {
    injured := flags;
    var k := 0;
    while k < |Indicators|
      invariant 0 <= k <= |Indicators| && |injured| == |rows|
      invariant forall i :: 0 <= i < |rows| ==> injured[i] == HitsUpTo(present, rows[i], c * |Indicators| + k)
    {
      injured := seq(|rows|, i requires 0 <= i < |rows| =>
        injured[i] || ContainsIgnoreCase(CellText(rows[i], c), Indicators[k]));
      forall i | 0 <= i < |rows|
        ensures injured[i] == HitsUpTo(present, rows[i], c * |Indicators| + k + 1)
      {
        HitsUpToStep(present, rows[i], c, k);
      }
      k := k + 1;
    }
  }

  /** `create_injury_indicators` on the rows of a frame whose columns are `present`. */
  method CreateInjuryIndicators(present: set<string>, rows: seq<StatusRow>) returns (injured: seq<bool>)
    ensures |injured| == |rows|
    ensures forall i :: 0 <= i < |rows| ==> injured[i] == IsInjured(present, rows[i])
  {
    injured := seq(|rows|, _ => false);
    var c := 0;
    while c < |StatusColumns|
      invariant 0 <= c <= |StatusColumns| && |injured| == |rows|
      invariant forall i :: 0 <= i < |rows| ==> injured[i] == HitsUpTo(present, rows[i], c * |Indicators|)
    {
      if StatusColumns[c] in present {
        injured := CheckColumn(present, rows, injured, c);
      } else {
        forall i | 0 <= i < |rows|
          ensures HitsUpTo(present, rows[i], c * |Indicators| + |Indicators|) == HitsUpTo(present, rows[i], c * |Indicators|)
        {
          SkippedColumn(present, rows[i], c, |Indicators|);
        }
      }
      assert (c + 1) * |Indicators| == c * |Indicators| + |Indicators|;
      c := c + 1;
    }
    if "Att" in present && "Rec" in present {
      injured := seq(|rows|, i requires 0 <= i < |rows| =>
        injured[i] || (MissingOrZero(rows[i].att) && MissingOrZero(rows[i].rec)));
    }
    forall i | 0 <= i < |rows| ensures injured[i] == IsInjured(present, rows[i]) {
      AllChecksOrderFree(present, rows[i]);
    }
  }

  /** The checks of an absent column change nothing. */
  lemma {:induction false} SkippedColumn(present: set<string>, row: StatusRow, c: nat, k: nat)
    requires c < |StatusColumns| && StatusColumns[c] !in present && k <= |Indicators|
    ensures HitsUpTo(present, row, c * |Indicators| + k) == HitsUpTo(present, row, c * |Indicators|)
  {
    if k > 0 {
      SkippedColumn(present, row, c, k - 1);
      CheckIndex(c, k - 1);
    }
  }

  /** A NaN status cell, read as "nan", contains no indicator. */
  lemma NanMatchesNothing(k: nat)
    requires k < |Indicators|
    ensures !ContainsIgnoreCase("nan", Indicators[k])
  {
    var needle := Lower(Indicators[k]);
    assert Lower("nan") == "nan";
    assert |needle| >= 3 && needle[0] != 'n';
    ContainsIffOccurs("nan", needle);
    forall i ensures !OccursAt("nan", needle, i) {
      if 0 <= i && i + |needle| <= 3 {
        assert "nan"[i..i + |needle|][0] == 'n';
      }
    }
  }
}
