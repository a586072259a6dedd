/** The three extractors that read a game-log export whose rows arrive as
    one text cell each (`extract_real_game_data`, `final_data_extractor`,
    `extract_game_data`): the cell is split on whitespace and the fields
    are taken by position. */
module GameLines {
  import opened Wrappers
  import opened Text
  import GameLogs

  /** Which extractor. */
  datatype Extractor = Real | Final | Scan

  /** A count field: the token when it is all digits, else the literal 0. */
  datatype Count = Digits(text: string) | Zero

  /** The fields a row yields; a field the extractor does not write, or
      writes only for long enough rows, is `None`. */
  datatype Stats = Stats(
    rk: Option<string>, gcar: Option<string>, gtm: Option<string>, week: Option<string>,
    date: Option<string>, team: Option<string>, opp: Option<string>, result: Option<string>, gs: Option<string>,
    rushAtt: Option<Count>, rushYds: Option<Count>, rushTd: Option<Count>, rushYpa: Option<string>,
    recTgt: Option<Count>, recRec: Option<Count>, recYds: Option<Count>, recYpc: Option<string>, recTd: Option<Count>)

  /** `parts[k] if parts[k].isdigit() else None`. */
  function DigitToken(t: string): Option<string> {
    if IsDigitString(t) then Some(t) else None
  }

  /** `parts[k] if parts[k].isdigit() else 0`. */
  function CountAt(parts: seq<string>, k: nat): Count
    requires k < |parts|
  {
    if IsDigitString(parts[k]) then Digits(parts[k]) else Zero
  }

  /** The rushing block, present from 15 tokens on. */
  function Rushing(parts: seq<string>, k: nat): Option<Count>
    requires k < 15
  {
    if |parts| >= 15 then Some(CountAt(parts, k)) else None
  }

  /** The receiving block, present from 20 tokens on. */
  function Receiving(parts: seq<string>, k: nat): Option<Count>
    requires k < 20
  {
    if |parts| >= 20 then Some(CountAt(parts, k)) else None
  }

  /** `extract_game_stats_from_string` on at least ten tokens. */
  function RealStats(parts: seq<string>): Stats
    requires |parts| >= 10
  {
    Stats(DigitToken(parts[0]), DigitToken(parts[1]), DigitToken(parts[2]), DigitToken(parts[3]),
          Some(parts[4]), Some(parts[5]), Some(parts[7]), Some(parts[8]), Some(parts[9]),
          Rushing(parts, 10), Rushing(parts, 11), Rushing(parts, 12),
          if |parts| >= 15 then Some(parts[13]) else None,
          Receiving(parts, 14), Receiving(parts, 15), Receiving(parts, 16),
          if |parts| >= 20 then Some(parts[17]) else None,
          Receiving(parts, 18))
  }

  /** `extract_game_stats_from_string`: nothing for a missing or "nan"
      cell or for fewer than ten tokens. */
  function ExtractStats(cell: Option<string>): Option<Stats> {
    if cell.None? || cell.value == "nan" then None
    else
      var parts := SplitWhitespace(cell.value);
      if |parts| < 10 then None else Some(RealStats(parts))
  }

  /** The fields of `final_data_extractor` (`Final`) and of
      `extract_game_data` (`Scan`, whose date is prefixed with the season
      text of the file name). */
  function ShortStats(x: Extractor, parts: seq<string>, seasonText: string): Stats
    requires |parts| >= 10
  {
    Stats(None, None, None, DigitToken(parts[3]),
          Some(if x == Scan then seasonText + "-" + parts[4] else parts[4]),
          Some(parts[5]), Some(parts[7]), Some(parts[8]), None,
          Rushing(parts, 10), Rushing(parts, 11), Rushing(parts, 12), None,
          Receiving(parts, 14), Receiving(parts, 15), Receiving(parts, 16), None,
          Receiving(parts, 18))
  }

  /** Whether a row's text is skipped before it is split. */
  predicate Skipped(x: Extractor, text: string) {
    match x
    case Real => false
    case Final => text == "nan" || Contains(text, "Off%") || |text| < 10
    case Scan => text == "" || text == "nan" || Contains(text, "Off%")
  }

  /** The number of leading rows each extractor skips. */
  function FirstRow(x: Extractor): nat {
    if x == Scan then 1 else 2
  }

  /** What row `i` of the first column yields. */
  function RowStats(x: Extractor, cell: Option<string>, i: nat, seasonText: string): Option<Stats> {
    if i < FirstRow(x) then None
    else if x == Real then ExtractStats(cell)
    else
      var text := GameLogs.CellText(cell);
      if Skipped(x, text) then None
      else
        var parts := SplitWhitespace(text);
        if |parts| < 10 then None else Some(ShortStats(x, parts, seasonText))
  }

  /** `game_index = i - 2`, or `row_index = idx` for `Scan`. */
  function RowIndex(x: Extractor, i: nat): int {
    if x == Scan then i else i - 2
  }

  /** One extracted game with the metadata from the file name. */
  datatype Game = Game(stats: Stats, playerId: string, season: int, sourceFile: string, index: int)

  /** What every row of the first column yields, row by row. */
  function RowResults(x: Extractor, cells: seq<Option<string>>, seasonText: string): (rs: seq<Option<Stats>>)
    ensures |rs| == |cells|
  {
    seq(|cells|, i requires 0 <= i < |cells| => RowStats(x, cells[i], i, seasonText))
  }

  lemma RowResultAt(x: Extractor, cells: seq<Option<string>>, seasonText: string, i: nat)
    requires i < |cells|
    ensures RowResults(x, cells, seasonText)[i] == RowStats(x, cells[i], i, seasonText)
  {
  }

  /** The games of the first `k` row results, in row order. */
  function Gather(x: Extractor, rs: seq<Option<Stats>>, k: nat, playerId: string, season: int,
                  filename: string): (games: seq<Game>)
    requires k <= |rs|
    ensures |games| <= k
  {
    if k == 0 then []
    else
      var prev := Gather(x, rs, k - 1, playerId, season, filename);
      match rs[k - 1]
      case None => prev
      case Some(st) => prev + [Game(st, playerId, season, filename, RowIndex(x, k - 1))]
  }

  /** The games of the first `k` rows, in row order. */
  function Collect(x: Extractor, cells: seq<Option<string>>, k: nat, playerId: string, seasonText: string,
                   season: int, filename: string): seq<Game>
    requires k <= |cells|
  {
    Gather(x, RowResults(x, cells, seasonText), k, playerId, season, filename)
  }

  /** A file's games, or `None` where the extractor returns `None`: a file
      name without a second `_` field, no game at all (`Real`, `Final`),
      or a season that is not a number (`Real` fails on the first game,
      `Final` skips every game; `Scan` skips every game and returns an
      empty table). */
  function Games(x: Extractor, cells: seq<Option<string>>, filename: string): Option<seq<Game>> {
    var parts := Split(filename, '_');
    if |parts| < 2 then None
    else
      match ParseInt(parts[1])
      case None => if x == Scan then Some([]) else None
      case Some(season) =>
        var games := Collect(x, cells, |cells|, parts[0], parts[1], season, filename);
        if x != Scan && |games| == 0 then None else Some(games)
  }

  /** The row loop of the three extractors. */
  method ExtractGames(x: Extractor, cells: seq<Option<string>>, filename: string) returns (r: Option<seq<Game>>)
    ensures r == Games(x, cells, filename)
  {
    var parts := Split(filename, '_');
    if |parts| < 2 {
      return None;
    }
    var playerId, seasonText := parts[0], parts[1];
    var season := ParseInt(seasonText);
    var games: seq<Game> := [];
    for i := 0 to |cells|
      invariant season.Some? ==> games == Collect(x, cells, i, playerId, seasonText, season.value, filename)
      invariant season.None? ==> games == [] && (x == Real ==> Collect(x, cells, i, playerId, seasonText, 0, filename) == [])
    {
      var st := RowStats(x, cells[i], i, seasonText);
      RowResultAt(x, cells, seasonText, i);
      if st.Some? {
        if season.None? {
          if x == Real {
            return None;
          }
        } else {
          games := games + [Game(st.value, playerId, season.value, filename, RowIndex(x, i))];
        }
      }
    }
    if season.None? {
      return if x == Scan then Some([]) else None;
    }
    if x != Scan && |games| == 0 {
      return None;
    }
    r := Some(games);
  }

  /** Row `k - 1` keeps the games of the rows before it in place. */
  lemma GatherKeepsPrefix(x: Extractor, rs: seq<Option<Stats>>, k: nat, playerId: string, season: int,
                          filename: string, m: nat)
    requires 0 < k <= |rs|
    requires m < |Gather(x, rs, k - 1, playerId, season, filename)|
    ensures m < |Gather(x, rs, k, playerId, season, filename)|
    ensures Gather(x, rs, k, playerId, season, filename)[m] == Gather(x, rs, k - 1, playerId, season, filename)[m]
  {
  }

  /** Game `g` is what row result `i` yields. */
  predicate GameOfRow(x: Extractor, rs: seq<Option<Stats>>, playerId: string, season: int, filename: string,
                      g: Game, i: int)
  {
    0 <= i < |rs| && rs[i] == Some(g.stats) && g == Game(g.stats, playerId, season, filename, RowIndex(x, i))
  }

  /** A game past those of the first `k - 1` rows comes from row `k - 1`. */
  lemma GatherLast(x: Extractor, rs: seq<Option<Stats>>, k: nat, playerId: string, season: int,
                   filename: string, m: nat)
    requires 0 < k <= |rs|
    requires |Gather(x, rs, k - 1, playerId, season, filename)| <= m < |Gather(x, rs, k, playerId, season, filename)|
    ensures GameOfRow(x, rs, playerId, season, filename, Gather(x, rs, k, playerId, season, filename)[m], k - 1)
  {
  }

  /** Every gathered game is what one of the first `k` rows yields. */
  lemma {:induction false} GatherSound(x: Extractor, rs: seq<Option<Stats>>, k: nat, playerId: string,
                                       season: int, filename: string, m: nat)
    requires k <= |rs|
    requires m < |Gather(x, rs, k, playerId, season, filename)|
    ensures exists i :: i < k && GameOfRow(x, rs, playerId, season, filename, Gather(x, rs, k, playerId, season, filename)[m], i)
  {
    var prev := Gather(x, rs, k - 1, playerId, season, filename);
    var games := Gather(x, rs, k, playerId, season, filename);
    if m < |prev| {
      GatherKeepsPrefix(x, rs, k, playerId, season, filename, m);
      GatherSound(x, rs, k - 1, playerId, season, filename, m);
      var i :| i < k - 1 && GameOfRow(x, rs, playerId, season, filename, prev[m], i);
      assert GameOfRow(x, rs, playerId, season, filename, games[m], i);
    } else {
      GatherLast(x, rs, k, playerId, season, filename, m);
    }
  }

  /** Every row result that holds stats yields its game. */
  lemma {:induction false} GatherComplete(x: Extractor, rs: seq<Option<Stats>>, k: nat, playerId: string,
                                          season: int, filename: string, i: nat)
    requires i < k <= |rs| && rs[i].Some?
    ensures Game(rs[i].value, playerId, season, filename, RowIndex(x, i)) in Gather(x, rs, k, playerId, season, filename)
  {
    if i < k - 1 {
      GatherComplete(x, rs, k - 1, playerId, season, filename, i);
    }
  }

  /** Game indices strictly increase along the sequence. */
  predicate Increasing(games: seq<Game>) {
    forall m, n :: 0 <= m < n < |games| ==> games[m].index < games[n].index
  }

  /** Gathered games keep row order, all below the index of row `k`. */
  lemma {:induction false} GatherOrdered(x: Extractor, rs: seq<Option<Stats>>, k: nat, playerId: string,
                                         season: int, filename: string)
    requires k <= |rs|
    ensures Increasing(Gather(x, rs, k, playerId, season, filename))
    ensures forall g :: g in Gather(x, rs, k, playerId, season, filename) ==> g.index < RowIndex(x, k)
  {
    if k > 0 {
      GatherOrdered(x, rs, k - 1, playerId, season, filename);
      var prev := Gather(x, rs, k - 1, playerId, season, filename);
      assert RowIndex(x, k - 1) < RowIndex(x, k);
      if rs[k - 1].Some? {
        assert Gather(x, rs, k, playerId, season, filename)
               == prev + [Game(rs[k - 1].value, playerId, season, filename, RowIndex(x, k - 1))];
      }
    }
  }

  /** Game `g` is what row `i` of the first column yields, with the file's
      player, season and name. */
  predicate FromRow(x: Extractor, cells: seq<Option<string>>, seasonText: string, playerId: string,
                    season: int, filename: string, g: Game, i: int)
  {
    FirstRow(x) <= i < |cells| && RowStats(x, cells[i], i, seasonText) == Some(g.stats)
    && g == Game(g.stats, playerId, season, filename, RowIndex(x, i))
  }

  /** Game `m` comes from a row past the skipped header rows that parses to
      it, and carries that row's index, the player, the season and the
      file name. */
  lemma CollectSound(x: Extractor, cells: seq<Option<string>>, k: nat, playerId: string,
                     seasonText: string, season: int, filename: string, m: nat)
    requires k <= |cells|
    requires m < |Collect(x, cells, k, playerId, seasonText, season, filename)|
    ensures exists i :: i < k && FromRow(x, cells, seasonText, playerId, season, filename,
                                         Collect(x, cells, k, playerId, seasonText, season, filename)[m], i)
  {
    var rs := RowResults(x, cells, seasonText);
    var g := Gather(x, rs, k, playerId, season, filename)[m];
    GatherSound(x, rs, k, playerId, season, filename, m);
    var i :| i < k && GameOfRow(x, rs, playerId, season, filename, g, i);
    RowResultAt(x, cells, seasonText, i);
    assert FromRow(x, cells, seasonText, playerId, season, filename, g, i);
  }

  /** The games keep row order: their indices strictly increase, and all
      lie below the index of row `k`. */
  lemma CollectOrdered(x: Extractor, cells: seq<Option<string>>, k: nat, playerId: string,
                       seasonText: string, season: int, filename: string)
    requires k <= |cells|
    ensures Increasing(Collect(x, cells, k, playerId, seasonText, season, filename))
    ensures forall g :: g in Collect(x, cells, k, playerId, seasonText, season, filename) ==> g.index < RowIndex(x, k)
  {
    GatherOrdered(x, RowResults(x, cells, seasonText), k, playerId, season, filename);
  }

  /** Every row that parses yields a game. */
  lemma CollectComplete(x: Extractor, cells: seq<Option<string>>, k: nat, playerId: string,
                        seasonText: string, season: int, filename: string, i: nat)
    requires i < k <= |cells|
    requires RowStats(x, cells[i], i, seasonText).Some?
    ensures Game(RowStats(x, cells[i], i, seasonText).value, playerId, season, filename, RowIndex(x, i))
            in Collect(x, cells, k, playerId, seasonText, season, filename)
  {
    RowResultAt(x, cells, seasonText, i);
    GatherComplete(x, RowResults(x, cells, seasonText), k, playerId, season, filename, i);
  }

  /** No stats for a missing or "nan" cell or for fewer than ten tokens,
      and stats otherwise. */
  lemma ExtractStatsNone(cell: Option<string>)
    ensures ExtractStats(cell).None? <==>
      cell.None? || cell.value == "nan" || |SplitWhitespace(cell.value)| < 10
  {
  }

  /** The rushing fields exist exactly from 15 tokens on, the receiving
      fields exactly from 20 on; `opp` is the eighth token (the seventh,
      the home/away mark, is skipped). */
  lemma BlocksByLength(parts: seq<string>)
    requires |parts| >= 10
    ensures var st := RealStats(parts);
      (st.rushAtt.Some? <==> |parts| >= 15) && (st.rushYpa.Some? <==> |parts| >= 15)
      && (st.recRec.Some? <==> |parts| >= 20) && (st.recTd.Some? <==> |parts| >= 20)
      && st.opp == Some(parts[7])
  {
  }

  /** The number a count field is once it is made numeric and a missing
      field is filled with 0. */
  function CountValue(c: Option<Count>): nat {
    match c
    case None => 0
    case Some(Zero) => 0
    case Some(Digits(t)) => if AllDigits(t) then DigitsValue(t) else 0
  }

  /** A negative yardage token is not all digits and becomes 0. */
  lemma NegativeYardsBecomeZero()
    ensures CountAt(["-3"], 0) == Zero
  {
    assert ["-3"][0][0] == '-' && !IsDigit('-');
    assert !AllDigits(["-3"][0]);
  }

  /** `injured = (rushing_att == 0) & (receiving_rec == 0)`. */
  predicate Injured(st: Stats) {
    CountValue(st.rushAtt) == 0 && CountValue(st.recRec) == 0
  }

  /** A row too short to carry the rushing block is always marked
      injured. */
  lemma ShortRowInjured(parts: seq<string>, x: Extractor, seasonText: string)
    requires 10 <= |parts| < 15
    ensures Injured(RealStats(parts)) && Injured(ShortStats(x, parts, seasonText))
  {
  }

  /** Why the cleaning of the combined batch stops: a column the injury test
      reads does not exist (`KeyError`). */
  datatype ColumnError = MissingColumn(name: string)

  /** The `injured` column of the batch all files combine into. The
      `rushing_att` column exists only when some game carries the rushing
      block, and `receiving_rec` only when some game carries the receiving
      block; without either, the test raises `KeyError`. A game without a
      block has its count filled with 0. */
  function InjuredColumn(batch: seq<Game>): (r: Result<seq<bool>, ColumnError>)
    ensures r.Err? <==> (forall g :: g in batch ==> g.stats.rushAtt.None?)
                        || (forall g :: g in batch ==> g.stats.recRec.None?)
    ensures r == Err(MissingColumn("rushing_att")) <==> forall g :: g in batch ==> g.stats.rushAtt.None?
    ensures r.Ok? ==> |r.value| == |batch| && forall i :: 0 <= i < |batch| ==> (r.value[i] <==> Injured(batch[i].stats))
  {
    if forall g :: g in batch ==> g.stats.rushAtt.None? then Err(MissingColumn("rushing_att"))
    else if forall g :: g in batch ==> g.stats.recRec.None? then Err(MissingColumn("receiving_rec"))
    else Ok(seq(|batch|, i requires 0 <= i < |batch| => Injured(batch[i].stats)))
  }

  /** In a batch whose two count columns exist, a game from a row too short
      for the rushing block is flagged injured. */
  lemma ShortRowInjuredInBatch(batch: seq<Game>, i: nat, parts: seq<string>, x: Extractor, seasonText: string)
    requires i < |batch| && 10 <= |parts| < 15
    requires batch[i].stats == RealStats(parts) || batch[i].stats == ShortStats(x, parts, seasonText)
    requires InjuredColumn(batch).Ok?
    ensures InjuredColumn(batch).value[i]
  {
    ShortRowInjured(parts, x, seasonText);
  }

  /** A batch in which no game reaches 15 tokens has no `rushing_att`
      column, so the injury test fails instead of flagging its games. */
  lemma ShortBatchFails(batch: seq<Game>, parts: seq<seq<string>>, x: Extractor, seasonText: string)
    requires |parts| == |batch|
    requires forall i :: 0 <= i < |batch| ==>
      10 <= |parts[i]| < 15 && (batch[i].stats == RealStats(parts[i]) || batch[i].stats == ShortStats(x, parts[i], seasonText))
    ensures InjuredColumn(batch) == Err(MissingColumn("rushing_att"))
  {
    forall g | g in batch ensures g.stats.rushAtt.None? {
      var i :| 0 <= i < |batch| && batch[i] == g;
      assert |parts[i]| < 15;
    }
  }

  /** A game with a positive rushing attempt count is not injured. */
  lemma CarriesNotInjured(parts: seq<string>)
    requires |parts| >= 15 && IsDigitString(parts[10]) && DigitsValue(parts[10]) > 0
    ensures !Injured(RealStats(parts))
  {
    assert RealStats(parts).rushAtt == Some(Digits(parts[10]));
  }

  /** `extract_game_data` writes the date as the season text, a dash and
      the fifth token. */
  lemma ScanDate(parts: seq<string>, seasonText: string)
    requires |parts| >= 10
    ensures ShortStats(Scan, parts, seasonText).date == Some(seasonText + "-" + parts[4])
  {
  }
}
