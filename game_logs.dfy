/** The three 2023 game-log parsers end to end: flattened headers, the data
    rows, the player id and season taken from the file name, and the
    removal of repeated header rows (`Rk` cells reading "rk" or "nan"). */
module GameLogs {
  import opened Wrappers
  import opened Text
  import opened Headers
  import opened CsvLines

  /** Why a parser gives up on a file (each parser then returns `None`). */
  datatype ParseError =
    | MissingHeaderRows   // fewer than two lines: indexing the second raises
    | RowTooWide          // a data row longer than the header list: the frame constructor raises
    | NoSeasonInName      // the file name has no second `_` field
    | SeasonNotANumber    // `int()` of that field raises
    | NoRkColumn          // `process_2023_data` reads `data_df['Rk']` unguarded
    | NoDataRows          // `read_csv(skiprows=2)` of a file with no data line raises `EmptyDataError`

  /** A parsed game log; `playerId`, `season` and `sourceFile` are the three
      columns added from the file name. A missing cell is `None`. */
  datatype GameLog = GameLog(columns: seq<string>, rows: seq<seq<Option<string>>>,
                             playerId: string, season: int, sourceFile: string)

  const Suffix: string := "_gamelog.csv"

  /** Player id and season from a name such as `willky02_2022_gamelog.csv`. */
  function FileMeta(filename: string): Result<(string, int), ParseError> {
    var parts := Split(RemoveAll(filename, Suffix), '_');
    if |parts| < 2 then Err(NoSeasonInName)
    else match ParseInt(parts[1])
      case None => Err(SeasonNotANumber)
      case Some(season) => Ok((parts[0], season))
  }

  lemma NoSuffixInside(id: string, digits: string)
    requires '_' !in id && IsDigitString(digits)
    ensures forall i :: 0 <= i < |id + "_" + digits| ==> !(Suffix <= (id + "_" + digits + Suffix)[i..])
  {
    var s := id + "_" + digits;
    forall i | 0 <= i < |s| ensures !(Suffix <= (s + Suffix)[i..]) {
      if i < |id| {
        assert (s + Suffix)[i] == id[i];
      } else if i == |id| {
        assert (s + Suffix)[i + 1] == digits[0];
      } else {
        assert (s + Suffix)[i] == digits[i - |id| - 1];
      }
    }
  }

  /** The file name the scraper writes is read back as its player id and
      season. */
  lemma FileMetaRoundTrip(id: string, season: nat)
    requires '_' !in id
    ensures FileMeta(id + "_" + NatToString(season) + Suffix) == Ok((id, season))
  {
    var digits := NatToString(season);
    var stem := id + "_" + digits;
    NoSuffixInside(id, digits);
    RemoveAllSkipsPrefix(stem, Suffix, Suffix);
    assert Suffix[|Suffix|..] == "";
    assert RemoveAll(Suffix, Suffix) == "";
    assert stem + "" == stem;
    assert '_' !in digits;
    assert stem == id + ("_" + digits);
    IndexOfAfter(id, "_" + digits, '_');
    assert stem[..|id|] == id && stem[|id| + 1..] == digits;
    assert IndexOf(digits, '_') == |digits|;
    assert IndexOf("_" + digits, '_') == 0;
    assert Split(digits, '_') == [digits];
    assert IndexOf(stem, '_') == |id|;
    assert Split(stem, '_') == [stem[..|id|]] + Split(stem[|id| + 1..], '_');
    NatToStringRoundTrip(season);
  }

  /** `astype(str)`: a missing cell reads "nan". */
  function CellText(cell: Option<string>): string {
    if cell.Some? then cell.value else "nan"
  }

  /** Whether a row survives the repeated-header filter: the robust parser
      also drops an empty `Rk`. */
  predicate KeepRk(d: Dialect, cell: Option<string>) {
    var t := Lower(CellText(cell));
    t != "rk" && t != "nan" && (d != Robust || t != "")
  }

  /** Position of the first column named `name`, or `|columns|`. */
  function ColumnIndex(columns: seq<string>, name: string): (k: nat)
    ensures k <= |columns| && (k < |columns| <==> name in columns)
    ensures k < |columns| ==> columns[k] == name
  {
    if |columns| == 0 then 0
    else if columns[0] == name then 0
    else 1 + ColumnIndex(columns[1..], name)
  }

  function CellOf(row: seq<Option<string>>, k: nat): Option<string> {
    if k < |row| then row[k] else None
  }

  /** The rows whose cell `k` passes `KeepRk`, in their order. */
  function FilterRk(d: Dialect, rows: seq<seq<Option<string>>>, k: nat): (out: seq<seq<Option<string>>>)
    ensures |out| <= |rows|
    ensures forall r :: r in out <==> r in rows && KeepRk(d, CellOf(r, k))
  {
    if |rows| == 0 then []
    else
      var init := rows[..|rows| - 1];
      var last := rows[|rows| - 1];
      assert rows == init + [last];
      FilterRk(d, init, k) + (if KeepRk(d, CellOf(last, k)) then [last] else [])
  }

  /** The repeated-header filter on the `Rk` column; only
      `process_2023_data` fails without one. */
  function RemoveHeaderRepeats(d: Dialect, columns: seq<string>, rows: seq<seq<Option<string>>>): Result<seq<seq<Option<string>>>, ParseError> {
    var k := ColumnIndex(columns, "Rk");
    if k == |columns| then (if d == Data then Err(NoRkColumn) else Ok(rows))
    else Ok(FilterRk(d, rows, k))
  }

  /** The last steps every parser shares: the file-name metadata and the
      repeated-header filter. */
  function Assemble(d: Dialect, columns: seq<string>, cells: seq<seq<Option<string>>>, filename: string): Result<GameLog, ParseError> {
    match FileMeta(filename)
    case Err(e) => Err(e)
    case Ok(meta) =>
      match RemoveHeaderRepeats(d, columns, cells)
      case Err(e) => Err(e)
      case Ok(kept) => Ok(GameLog(columns, kept, meta.0, meta.1, filename))
  }

  /** An assembled log keeps the given names, keeps only given rows, drops
      every repeated header row and carries the file name's player and
      season. */
  lemma AssembleShape(d: Dialect, columns: seq<string>, cells: seq<seq<Option<string>>>, filename: string)
    requires Assemble(d, columns, cells, filename).Ok?
    ensures var g := Assemble(d, columns, cells, filename).value;
      g.columns == columns
      && (forall row :: row in g.rows ==> row in cells)
      && ("Rk" in columns ==> forall row :: row in g.rows ==> KeepRk(d, CellOf(row, ColumnIndex(columns, "Rk"))))
      && FileMeta(filename) == Ok((g.playerId, g.season))
      && g.sourceFile == filename
  {
  }

  /** `str.strip('"')` of every cell of `line.strip().split(',')`. */
  function HeaderCells(line: string): (cells: seq<string>)
    ensures |cells| == |Split(Strip(line), ',')|
  {
    var fields := Split(Strip(line), ',');
    seq(|fields|, i requires 0 <= i < |fields| => StripQuotes(fields[i]))
  }

  /** The non-blank lines after the two header lines, each stripped. */
  function DataLines(lines: seq<string>): (out: seq<string>)
    ensures forall l :: l in out ==> l != ""
  {
    if |lines| <= 2 then []
    else
      var last := Strip(lines[|lines| - 1]);
      DataLines(lines[..|lines| - 1]) + (if last != "" then [last] else [])
  }

  function Present(row: seq<string>): (cells: seq<Option<string>>)
    ensures |cells| == |row| && forall j :: 0 <= j < |row| ==> cells[j] == Some(row[j])
  {
    seq(|row|, j requires 0 <= j < |row| => Some(row[j]))
  }

  /** The split and padded data rows. */
  function RobustRows(lines: seq<string>, width: nat): (rows: seq<seq<string>>)
    ensures |rows| == |DataLines(lines)|
  {
    var data := DataLines(lines);
    seq(|data|, i requires 0 <= i < |data| => Padded(QuotedSplit(data[i]), width))
  }

  predicate AllFit(rows: seq<seq<string>>, width: nat) {
    forall i :: 0 <= i < |rows| ==> |rows[i]| <= width
  }

  /** `parse_2023_robust`. */
  function RobustParse(lines: seq<string>, filename: string): Result<GameLog, ParseError> {
    if |lines| < 2 then Err(MissingHeaderRows)
    else
      var columns := Dedup(Flatten(Robust, HeaderCells(lines[0]), HeaderCells(lines[1])));
      var rows := RobustRows(lines, |columns|);
      if !AllFit(rows, |columns|) then Err(RowTooWide)
      else Assemble(Robust, columns, PresentRows(rows), filename)
  }

  function PresentRows(rows: seq<seq<string>>): (cells: seq<seq<Option<string>>>)
    ensures |cells| == |rows| && forall i :: 0 <= i < |rows| ==> cells[i] == Present(rows[i])
  {
    seq(|rows|, i requires 0 <= i < |rows| => Present(rows[i]))
  }

  /** The method form: the header loops, the per-line character loop and
      the padding loop. */
  method ParseRobust(lines: seq<string>, filename: string) returns (r: Result<GameLog, ParseError>)
    ensures r == RobustParse(lines, filename)
  {
    if |lines| < 2 {
      return Err(MissingHeaderRows);
    }
    var flat := FlattenHeaders(Robust, HeaderCells(lines[0]), HeaderCells(lines[1]));
    var columns := Deduplicate(flat);
    var data := DataLines(lines);
    var split: seq<seq<string>> := [];
    for i := 0 to |data|
      invariant |split| == i && forall m :: 0 <= m < i ==> split[m] == QuotedSplit(data[m])
    {
      var values := SplitQuoted(data[i]);
      split := split + [values];
    }
    var rows := PadRows(split, |columns|);
    assert rows == RobustRows(lines, |columns|);
    if !AllFit(rows, |columns|) {
      return Err(RowTooWide);
    }
    r := Assemble(Robust, columns, PresentRows(rows), filename);
  }

  /** A parsed robust log: one name per cell of the second header line and
      every row exactly that wide. */
  lemma RobustShape(lines: seq<string>, filename: string)
    requires RobustParse(lines, filename).Ok?
    ensures var g := RobustParse(lines, filename).value;
      |lines| >= 2
      && |g.columns| == |HeaderCells(lines[1])|
      && (forall row :: row in g.rows ==> |row| == |g.columns|)
  {
    var columns := Dedup(Flatten(Robust, HeaderCells(lines[0]), HeaderCells(lines[1])));
    var rows := RobustRows(lines, |columns|);
    var cells := PresentRows(rows);
    assert RobustParse(lines, filename) == Assemble(Robust, columns, cells, filename);
    AssembleShape(Robust, columns, cells, filename);
    forall row | row in cells ensures |row| == |columns| {
      var i :| 0 <= i < |cells| && cells[i] == row;
      assert |rows[i]| == |columns|;
    }
  }

  /** A data line with more fields than the header row makes the whole
      file fail, instead of being cut to the header count. */
  lemma WideRowFailsFile(lines: seq<string>, filename: string, i: nat)
    requires |lines| >= 2
    requires i < |DataLines(lines)|
    requires |QuotedSplit(DataLines(lines)[i])| > |HeaderCells(lines[1])|
    ensures RobustParse(lines, filename) == Err(RowTooWide)
  {
    var columns := Dedup(Flatten(Robust, HeaderCells(lines[0]), HeaderCells(lines[1])));
    var rows := RobustRows(lines, |columns|);
    assert |rows[i]| > |columns|;
  }

  /** `fillna('').astype(str)` of a header row. */
  function HeaderText(row: seq<Option<string>>): (cells: seq<string>)
    ensures |cells| == |row|
  {
    seq(|row|, i requires 0 <= i < |row| => if row[i].Some? then row[i].value else "")
  }

  /** `parse_single_file` (`Data`) and `parse_2023_file` (`Fixed`): the
      header rows and the data as pandas reads them, the data `width`
      columns wide. A file with the two header lines and no data line makes
      the second `read_csv` raise. */
  function TableParse(d: Dialect, header: seq<seq<Option<string>>>, width: nat,
                      rows: seq<seq<Option<string>>>, filename: string): (r: Result<GameLog, ParseError>)
    requires d != Robust
    ensures r == Err(MissingHeaderRows) <==> |header| < 2
    ensures r == Err(NoDataRows) <==> |header| >= 2 && |rows| == 0
  {
    if |header| < 2 then Err(MissingHeaderRows)
    else if |rows| == 0 then Err(NoDataRows)
    else
      var columns := Reconcile(Dedup(Flatten(d, HeaderText(header[0]), HeaderText(header[1]))), width);
      Assemble(d, columns, rows, filename)
  }

  method ParseTable(d: Dialect, header: seq<seq<Option<string>>>, width: nat,
                    rows: seq<seq<Option<string>>>, filename: string) returns (r: Result<GameLog, ParseError>)
    requires d != Robust
    ensures r == TableParse(d, header, width, rows, filename)
  {
    if |header| < 2 {
      return Err(MissingHeaderRows);
    }
    if |rows| == 0 {
      return Err(NoDataRows);
    }
    var flat := FlattenHeaders(d, HeaderText(header[0]), HeaderText(header[1]));
    var names := Deduplicate(flat);
    var columns := Reconcile(names, width);
    r := Assemble(d, columns, rows, filename);
  }

  /** A parsed table has exactly one name per data column. */
  lemma TableShape(d: Dialect, header: seq<seq<Option<string>>>, width: nat,
                   rows: seq<seq<Option<string>>>, filename: string)
    requires d != Robust
    requires TableParse(d, header, width, rows, filename).Ok?
    ensures |TableParse(d, header, width, rows, filename).value.columns| == width
  {
    var columns := Reconcile(Dedup(Flatten(d, HeaderText(header[0]), HeaderText(header[1]))), width);
    AssembleShape(d, columns, rows, filename);
  }

  /** Without an `Rk` column the data parser stops with an error. */
  lemma AssembleDataNeedsRk(columns: seq<string>, cells: seq<seq<Option<string>>>, filename: string)
    requires "Rk" !in columns && FileMeta(filename).Ok?
    ensures Assemble(Data, columns, cells, filename) == Err(NoRkColumn)
  {
    assert ColumnIndex(columns, "Rk") == |columns|;
    assert RemoveHeaderRepeats(Data, columns, cells) == Err(NoRkColumn);
  }

  /** Without an `Rk` column the fixed parser keeps every row. */
  lemma AssembleFixedKeepsRows(columns: seq<string>, cells: seq<seq<Option<string>>>, filename: string)
    requires "Rk" !in columns && FileMeta(filename).Ok?
    ensures Assemble(Fixed, columns, cells, filename).Ok?
    ensures Assemble(Fixed, columns, cells, filename).value.rows == cells
  {
    assert ColumnIndex(columns, "Rk") == |columns|;
    assert RemoveHeaderRepeats(Fixed, columns, cells) == Ok(cells);
  }

  /** Without an `Rk` column `process_2023_data` fails while
      `process_2023_data_fixed` keeps every row. */
  lemma RkGuard(header: seq<seq<Option<string>>>, width: nat, rows: seq<seq<Option<string>>>, filename: string)
    requires |header| >= 2 && |rows| > 0 && FileMeta(filename).Ok?
    requires "Rk" !in Reconcile(Dedup(Flatten(Fixed, HeaderText(header[0]), HeaderText(header[1]))), width)
    requires "Rk" !in Reconcile(Dedup(Flatten(Data, HeaderText(header[0]), HeaderText(header[1]))), width)
    ensures TableParse(Data, header, width, rows, filename) == Err(NoRkColumn)
    ensures TableParse(Fixed, header, width, rows, filename).Ok?
    ensures TableParse(Fixed, header, width, rows, filename).value.rows == rows
  {
    var top, sub := HeaderText(header[0]), HeaderText(header[1]);
    AssembleDataNeedsRk(Reconcile(Dedup(Flatten(Data, top, sub)), width), rows, filename);
    AssembleFixedKeepsRows(Reconcile(Dedup(Flatten(Fixed, top, sub)), width), rows, filename);
  }
}
