/** Generic data frames: named columns over rows of cells, and the
    column-union concatenation that every combining step uses (pad each
    frame with null columns up to the sorted union, then stack the rows). */
module Tables {
  import opened Order

  /** One cell of a frame. `Null` is pandas' NaN / None. */
  datatype Cell = Null | Int(i: int) | Real(r: real) | Text(s: string) | Flag(b: bool)

  type Row = map<string, Cell>

  /** A frame: its column order and its rows. */
  datatype Frame = Frame(columns: seq<string>, rows: seq<Row>)

  /** Every column of every frame, in frame order (with repetitions). */
  function AllColumns(frames: seq<Frame>): (cs: seq<string>)
    ensures forall c :: c in cs <==> exists j :: 0 <= j < |frames| && c in frames[j].columns
  {
    if |frames| == 0 then []
    else
      var cs := AllColumns(frames[..|frames| - 1]) + frames[|frames| - 1].columns;
      assert forall j :: 0 <= j < |frames| - 1 ==> frames[..|frames| - 1][j] == frames[j];
      cs
  }

  /** `sorted(set().union(*columns))`: the union of the column names, sorted. */
  function UnionColumns(frames: seq<Frame>): (cs: seq<string>)
    ensures StrictlySorted(cs, StrLess)
    ensures forall c :: c in cs <==> exists j :: 0 <= j < |frames| && c in frames[j].columns
  {
    StrLessIsTotal();
    SortedDistinct(AllColumns(frames), StrLess)
  }

  /** A row re-indexed to `columns`: its own cells kept, the missing ones null. */
  function PadRow(row: Row, columns: seq<string>): (r: Row)
    ensures r.Keys == set c | c in columns
    ensures forall c :: c in r ==> r[c] == (if c in row then row[c] else Null)
  {
    map c | c in columns :: if c in row then row[c] else Null
  }

  function PadRows(rows: seq<Row>, columns: seq<string>): (r: seq<Row>)
    ensures |r| == |rows|
    ensures forall k :: 0 <= k < |rows| ==> r[k] == PadRow(rows[k], columns)
  {
    seq(|rows|, k requires 0 <= k < |rows| => PadRow(rows[k], columns))
  }

  /** The rows of all frames padded to `columns`, stacked in frame order. */
  function StackPadded(frames: seq<Frame>, columns: seq<string>): seq<Row> {
    if |frames| == 0 then []
    else StackPadded(frames[..|frames| - 1], columns) + PadRows(frames[|frames| - 1].rows, columns)
  }

  function TotalRows(frames: seq<Frame>): nat {
    if |frames| == 0 then 0 else TotalRows(frames[..|frames| - 1]) + |frames[|frames| - 1].rows|
  }

  /** Where the rows of frame `j` start in the stacked result. */
  function Offset(frames: seq<Frame>, j: nat): nat
    requires j <= |frames|
  {
    TotalRows(frames[..j])
  }

  /** Stacking keeps every row: the length is the sum of the inputs' lengths,
      and row `k` of frame `j` lands at `Offset(frames, j) + k`, padded. */
  lemma {:induction false} StackPaddedAt(frames: seq<Frame>, columns: seq<string>, j: nat, k: nat)
    requires j < |frames| && k < |frames[j].rows|
    ensures |StackPadded(frames, columns)| == TotalRows(frames)
    ensures Offset(frames, j) + k < TotalRows(frames)
    ensures StackPadded(frames, columns)[Offset(frames, j) + k] == PadRow(frames[j].rows[k], columns)
  {
    var n := |frames|;
    var init := frames[..n - 1];
    StackLength(init, columns);
    if j < n - 1 {
      StackPaddedAt(init, columns, j, k);
      assert init[..j] == frames[..j];
      assert init[j] == frames[j];
    } else {
      assert frames[..j] == init;
    }
  }

  lemma {:induction false} StackLength(frames: seq<Frame>, columns: seq<string>)
    ensures |StackPadded(frames, columns)| == TotalRows(frames)
  {
    if |frames| > 0 {
      StackLength(frames[..|frames| - 1], columns);
    }
  }

  /** The frames' own cells survive the union concatenation and every other
      cell of the union is null. */
  lemma CombinedCell(frames: seq<Frame>, j: nat, k: nat, c: string)
    requires j < |frames| && k < |frames[j].rows|
    requires c in frames[j].columns
    ensures var stacked := StackPadded(frames, UnionColumns(frames));
            Offset(frames, j) + k < |stacked| &&
            var r := stacked[Offset(frames, j) + k];
            c in r && r[c] == (if c in frames[j].rows[k] then frames[j].rows[k][c] else Null)
  {
    StackPaddedAt(frames, UnionColumns(frames), j, k);
  }

  /** `combine_dataframes_safely`: no frames give the empty frame; otherwise
      the union of the columns, sorted, and every frame's rows in order, each
      padded with nulls. */
  method CombineSafely(frames: seq<Frame>) returns (r: Frame)
    ensures |frames| == 0 ==> r == Frame([], [])
    ensures |frames| > 0 ==> r.columns == UnionColumns(frames)
    ensures r.rows == StackPadded(frames, r.columns)
    ensures |r.rows| == TotalRows(frames)
  {
    if |frames| == 0 {
      return Frame([], []);
    }
    var seen: seq<string> := [];
    var i := 0;
    while i < |frames|
      invariant 0 <= i <= |frames|
      invariant seen == AllColumns(frames[..i])
    {
      assert frames[..i + 1][..i] == frames[..i];
      seen := seen + frames[i].columns;
      i := i + 1;
    }
    assert frames[..|frames|] == frames;
    StrLessIsTotal();
    var columns := SortedDistinct(seen, StrLess);
    var stacked: seq<Row> := [];
    i := 0;
    while i < |frames|
      invariant 0 <= i <= |frames|
      invariant stacked == StackPadded(frames[..i], columns)
    {
      assert frames[..i + 1][..i] == frames[..i];
      var padded := PadRows(frames[i].rows, columns);
      stacked := stacked + padded;
      i := i + 1;
    }
    assert frames[..|frames|] == frames;
    StackLength(frames, columns);
    r := Frame(columns, stacked);
  }
}
