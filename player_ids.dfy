/** Repairing the player ids of a roster file: the Pro-Football-Reference
    id is cut out of each player's page URL with the pattern
    `/players/[A-Z]/([A-Za-z0-9]+)\.htm$` and written over `player_id`. */
module PlayerIds {
  import opened Wrappers
  import opened Text
  import opened Tables

  predicate AllAlnum(s: string) {
    forall i :: 0 <= i < |s| ==> IsAlnum(s[i])
  }

  predicate EndsWith(s: string, t: string) {
    |t| <= |s| && s[|s| - |t|..] == t
  }

  /** The length of the longest suffix of `s` made of `[A-Za-z0-9]`. */
  function AlnumRun(s: string): (n: nat)
    ensures n <= |s|
    ensures AllAlnum(s[|s| - n..])
    ensures n < |s| ==> !IsAlnum(s[|s| - n - 1])
  {
    if |s| == 0 || !IsAlnum(s[|s| - 1]) then 0
    else
      var t := s[..|s| - 1];
      var m := AlnumRun(t);
      AlnumRunStep(s, t, m);
      m + 1
  }

  /** One more alphanumeric character extends the run at the end. */
  lemma AlnumRunStep(s: string, t: string, m: nat)
    requires |s| > 0 && t == s[..|s| - 1] && IsAlnum(s[|s| - 1])
    requires m <= |t| && AllAlnum(t[|t| - m..]) && (m < |t| ==> !IsAlnum(t[|t| - m - 1]))
    ensures AllAlnum(s[|s| - (m + 1)..])
    ensures m + 1 < |s| ==> !IsAlnum(s[|s| - (m + 1) - 1])
  {
    var u := s[|s| - (m + 1)..];
    forall i | 0 <= i < |u| ensures IsAlnum(u[i]) {
      if i < m {
        assert u[i] == t[|t| - m..][i];
      }
    }
  }

  /** A URL the pattern matches, with `id` as its group: any prefix, the
      directory of one upper-case letter, the id, `.htm`, and an optional
      final newline (where `$` also matches). */
  function PfrUrl(prefix: string, letter: char, id: string, tail: string): string {
    prefix + "/players/" + [letter] + "/" + id + ".htm" + tail
  }

  ghost predicate MatchesWith(url: string, id: string) {
    |id| > 0 && AllAlnum(id) &&
    exists prefix, letter, tail :: (tail == "" || tail == "\n") && IsUpper(letter)
                                   && url == PfrUrl(prefix, letter, id, tail)
  }

  /** The URL without one final newline (`$` matches before it). */
  function WithoutFinalNewline(url: string): string {
    if |url| > 0 && url[|url| - 1] == '\n' then url[..|url| - 1] else url
  }

  /** `head` ends with `/players/`, one upper-case letter and `/`. */
  predicate PlayerDirectory(head: string) {
    |head| >= 11 && head[|head| - 11..|head| - 2] == "/players/"
    && IsUpper(head[|head| - 2]) && head[|head| - 1] == '/'
  }

  /** The group, given the text before `.htm`: the whole run of
      `[A-Za-z0-9]` at its end, since the character before the group is a
      `/`, and it must follow the player directory. */
  function IdBeforeHtm(stem: string): Option<string> {
    var n := AlnumRun(stem);
    if n > 0 && PlayerDirectory(stem[..|stem| - n]) then Some(stem[|stem| - n..]) else None
  }

  /** `extract_pfr_id`: the group of the one place the pattern can match,
      which must end at `.htm` at the end of the URL or before a final
      newline. */
  function ExtractPfrId(url: string): (r: Option<string>)
    ensures r.Some? ==> |r.value| > 0 && AllAlnum(r.value)
  {
    var core := WithoutFinalNewline(url);
    if EndsWith(core, ".htm") then IdBeforeHtm(core[..|core| - 4]) else None
  }

  lemma {:induction false} AlnumRunAfterSlash(head: string, id: string)
    requires |head| > 0 && head[|head| - 1] == '/'
    requires AllAlnum(id)
    ensures AlnumRun(head + id) == |id|
  {
    if |id| > 0 {
      var s := head + id;
      assert s[..|s| - 1] == head + id[..|id| - 1];
      AlnumRunAfterSlash(head, id[..|id| - 1]);
    } else {
      assert head + id == head;
    }
  }

  lemma DirectoryOf(prefix: string, letter: char)
    ensures PlayerDirectory(prefix + "/players/" + [letter] + "/") <==> IsUpper(letter)
  {
    var head := prefix + "/players/" + [letter] + "/";
    assert head[|head| - 11..|head| - 2] == "/players/";
    assert head[|head| - 2] == letter;
  }

  lemma IdBeforeHtmOf(head: string, id: string)
    requires PlayerDirectory(head) && |id| > 0 && AllAlnum(id)
    ensures IdBeforeHtm(head + id) == Some(id)
  {
    var stem := head + id;
    AlnumRunAfterSlash(head, id);
    assert stem[..|stem| - |id|] == head;
    assert stem[|stem| - |id|..] == id;
  }

  lemma CoreOf(stem: string, tail: string)
    requires tail == "" || tail == "\n"
    ensures WithoutFinalNewline(stem + ".htm" + tail) == stem + ".htm"
  {
    var core := stem + ".htm";
    if tail == "" {
      assert core + tail == core;
      assert core[|core| - 1] == 'm';
    } else {
      assert (core + tail)[..|core|] == core;
    }
  }

  /** Every URL of the expected shape yields its id. */
  lemma ExtractComplete(prefix: string, letter: char, id: string, tail: string)
    requires |id| > 0 && AllAlnum(id) && IsUpper(letter)
    requires tail == "" || tail == "\n"
    ensures ExtractPfrId(PfrUrl(prefix, letter, id, tail)) == Some(id)
  {
    var head := prefix + "/players/" + [letter] + "/";
    var stem := head + id;
    var core := stem + ".htm";
    assert PfrUrl(prefix, letter, id, tail) == core + tail;
    CoreOf(stem, tail);
    assert core[..|core| - 4] == stem;
    assert core[|core| - 4..] == ".htm";
    DirectoryOf(prefix, letter);
    IdBeforeHtmOf(head, id);
  }

  lemma StemSplits(stem: string)
    requires IdBeforeHtm(stem).Some?
    ensures var n := AlnumRun(stem);
      var head := stem[..|stem| - n];
      head == head[..|head| - 11] + "/players/" + [head[|head| - 2]] + "/"
      && stem == head + IdBeforeHtm(stem).value
  {
    var n := AlnumRun(stem);
    var head := stem[..|stem| - n];
    assert head == head[..|head| - 11] + head[|head| - 11..|head| - 2] + [head[|head| - 2]] + [head[|head| - 1]];
  }

  lemma UrlSplits(url: string)
    ensures var core := WithoutFinalNewline(url);
      var tail := url[|core|..];
      (tail == "" || tail == "\n") && url == core + tail
  {
  }

  /** A URL with an id is the text before `.htm`, `.htm`, and an optional
      final newline. */
  lemma CoreParts(url: string) returns (stem: string, tail: string)
    requires ExtractPfrId(url).Some?
    ensures tail == "" || tail == "\n"
    ensures url == stem + ".htm" + tail
    ensures IdBeforeHtm(stem) == ExtractPfrId(url)
  {
    var core := WithoutFinalNewline(url);
    UrlSplits(url);
    tail := url[|core|..];
    stem := core[..|core| - 4];
    assert core == stem + ".htm";
  }

  /** The text before `.htm` of a URL with an id is a prefix, the player
      directory and the id. */
  lemma StemParts(stem: string) returns (prefix: string, letter: char)
    requires IdBeforeHtm(stem).Some?
    ensures IsUpper(letter)
    ensures stem == prefix + "/players/" + [letter] + "/" + IdBeforeHtm(stem).value
  {
    StemSplits(stem);
    var head := stem[..|stem| - AlnumRun(stem)];
    prefix := head[..|head| - 11];
    letter := head[|head| - 2];
  }

  /** Every id returned comes from a URL of the expected shape. */
  lemma ExtractSound(url: string)
    requires ExtractPfrId(url).Some?
    ensures MatchesWith(url, ExtractPfrId(url).value)
  {
    var stem, tail := CoreParts(url);
    var prefix, letter := StemParts(stem);
    var id := ExtractPfrId(url).value;
    assert url == PfrUrl(prefix, letter, id, tail);
  }

  /** The function is exactly the pattern: it returns `id` iff the URL has
      the expected shape with `id` as its group. */
  lemma ExtractIff(url: string, id: string)
    ensures ExtractPfrId(url) == Some(id) <==> MatchesWith(url, id)
  {
    if ExtractPfrId(url) == Some(id) {
      ExtractSound(url);
    }
    if MatchesWith(url, id) {
      var prefix, letter, tail :| (tail == "" || tail == "\n") && IsUpper(letter)
                                  && url == PfrUrl(prefix, letter, id, tail);
      ExtractComplete(prefix, letter, id, tail);
    }
  }

  /** A directory letter outside `[A-Z]`, a lower-case one say, does not
      match, whatever the rest of the URL. */
  lemma LowercaseDirectoryRejected(prefix: string, letter: char, id: string, tail: string)
    requires AllAlnum(id) && !IsUpper(letter)
    requires tail == "" || tail == "\n"
    ensures ExtractPfrId(PfrUrl(prefix, letter, id, tail)) == None
  {
    var head := prefix + "/players/" + [letter] + "/";
    var stem := head + id;
    var core := stem + ".htm";
    assert PfrUrl(prefix, letter, id, tail) == core + tail;
    CoreOf(stem, tail);
    assert core[..|core| - 4] == stem;
    assert core[|core| - 4..] == ".htm";
    DirectoryOf(prefix, letter);
    AlnumRunAfterSlash(head, id);
    assert stem[..|stem| - |id|] == head;
  }

  /** A trailing `/` after `.htm` does not match. */
  lemma TrailingSlashRejected()
    ensures ExtractPfrId("/players/T/TaylJo02.htm/") == None
  {
    var url := "/players/T/TaylJo02.htm/";
    assert url[|url| - 1] == '/';
    assert url[|url| - 4..] != ".htm";
  }

  /** Why `fix_player_ids` fails: no `pfr_url` column, a URL cell that is
      not text, or a row without an id reported through a `player` column
      the frame does not have. */
  datatype FixError = NoUrlColumn | UrlNotText(row: nat) | NoPlayerColumn(row: nat)

  /** The new `player_id` cell of a row: the extracted id, or null. */
  function IdCell(url: string): (c: Cell)
    ensures c.Text? <==> ExtractPfrId(url).Some?
  {
    match ExtractPfrId(url)
    case Some(id) => Text(id)
    case None => Null
  }

  /** The column order after `df['pfr_id'] = ...`, `df['player_id'] = ...`
      and `df.drop('pfr_id')`: `player_id` is appended when new, and a
      `pfr_id` column of the input disappears with the temporary one. */
  function FixedColumns(columns: seq<string>): seq<string> {
    var withId := if "player_id" in columns then columns else columns + ["player_id"];
    RemoveColumn(withId, "pfr_id")
  }

  function RemoveColumn(columns: seq<string>, c: string): (r: seq<string>)
    ensures forall x :: x in r <==> x in columns && x != c
  {
    if |columns| == 0 then []
    else if columns[0] == c then RemoveColumn(columns[1..], c)
    else [columns[0]] + RemoveColumn(columns[1..], c)
  }

  /** The index of the first row whose URL cell is not text, where
      `re.search` raises. */
  function FirstNonText(rows: seq<Row>): (k: nat)
    ensures k <= |rows|
    ensures forall j :: 0 <= j < k ==> "pfr_url" in rows[j] && rows[j]["pfr_url"].Text?
    ensures k < |rows| ==> !("pfr_url" in rows[k] && rows[k]["pfr_url"].Text?)
  {
    if |rows| == 0 then 0
    else if !("pfr_url" in rows[0] && rows[0]["pfr_url"].Text?) then 0
    else 1 + FirstNonText(rows[1..])
  }

  /** A row whose URL is text but yields no id. */
  predicate MissingId(r: Row) {
    "pfr_url" in r && r["pfr_url"].Text? && ExtractPfrId(r["pfr_url"].s).None?
  }

  /** The index of the first row without an id, the first one the warning
      loop prints. */
  function FirstMissingId(rows: seq<Row>): (k: nat)
    ensures k <= |rows|
    ensures forall j :: 0 <= j < k ==> !MissingId(rows[j])
    ensures k < |rows| ==> MissingId(rows[k])
  {
    if |rows| == 0 then 0
    else if MissingId(rows[0]) then 0
    else 1 + FirstMissingId(rows[1..])
  }

  /** `fix_player_ids` on the frame `read_csv` returns: a missing `pfr_url`
      column is a `KeyError`, a URL cell that is not text (a blank cell
      is NaN) makes `re.search` raise, a row without an id is printed by
      its `player` cell, which is a `KeyError` without that column, and
      otherwise each row's `player_id` is replaced and `pfr_id` dropped. */
  function FixPlayerIds(f: Frame): (r: Result<Frame, FixError>)
  {
    if "pfr_url" !in f.columns then Err(NoUrlColumn)
    else
      var k := FirstNonText(f.rows);
      if k < |f.rows| then Err(UrlNotText(k))
      else if "player" !in f.columns && FirstMissingId(f.rows) < |f.rows| then Err(NoPlayerColumn(FirstMissingId(f.rows)))
      else
        Ok(Frame(FixedColumns(f.columns), seq(|f.rows|, j requires 0 <= j < |f.rows| => FixRow(f.rows[j]))))
  }

  /** One row after `df['player_id'] = df['pfr_id']` and the drop. */
  function FixRow(r: Row): Row
    requires "pfr_url" in r && r["pfr_url"].Text?
  {
    r["player_id" := IdCell(r["pfr_url"].s)] - {"pfr_id"}
  }

  /** A repaired row holds the extracted id (or null), no `pfr_id`, and every
      other cell as it was. */
  lemma FixRowCells(r: Row)
    requires "pfr_url" in r && r["pfr_url"].Text?
    ensures var g := FixRow(r);
      "player_id" in g && "pfr_id" !in g
      && (g["player_id"] == Text(ExtractPfrId(r["pfr_url"].s).value) <== ExtractPfrId(r["pfr_url"].s).Some?)
      && (g["player_id"] == Null <== ExtractPfrId(r["pfr_url"].s).None?)
      && (forall c :: c in r && c != "player_id" && c != "pfr_id" ==> c in g && g[c] == r[c])
  {
  }

  /** The repair keeps every row, sets `player_id` to the extracted id (or
      null), drops `pfr_id` and leaves every other cell as it was. */
  lemma FixPlayerIdsRows(f: Frame)
    requires FixPlayerIds(f).Ok?
    ensures "player" !in f.columns ==> forall j :: 0 <= j < |f.rows| ==> !MissingId(f.rows[j])
    ensures var g := FixPlayerIds(f).value;
      |g.rows| == |f.rows|
      && (forall j :: 0 <= j < |g.rows| ==>
            "pfr_url" in f.rows[j] && f.rows[j]["pfr_url"].Text?
            && "player_id" in g.rows[j] && "pfr_id" !in g.rows[j]
            && (g.rows[j]["player_id"] == Text(ExtractPfrId(f.rows[j]["pfr_url"].s).value)
                  <== ExtractPfrId(f.rows[j]["pfr_url"].s).Some?)
            && (g.rows[j]["player_id"] == Null <== ExtractPfrId(f.rows[j]["pfr_url"].s).None?)
            && (forall c :: c in f.rows[j] && c != "player_id" && c != "pfr_id" ==>
                  c in g.rows[j] && g.rows[j][c] == f.rows[j][c]))
  {
    var g := FixPlayerIds(f).value;
    forall j | 0 <= j < |f.rows| ensures "pfr_url" in f.rows[j] && f.rows[j]["pfr_url"].Text? && g.rows[j] == FixRow(f.rows[j]) {
    }
    forall j | 0 <= j < |f.rows| ensures "pfr_url" in f.rows[j] && f.rows[j]["pfr_url"].Text? {
    }
    forall j | 0 <= j < |f.rows| ensures var r := f.rows[j]; var h := FixRow(r);
      "player_id" in h && "pfr_id" !in h
      && (h["player_id"] == Text(ExtractPfrId(r["pfr_url"].s).value) <== ExtractPfrId(r["pfr_url"].s).Some?)
      && (h["player_id"] == Null <== ExtractPfrId(r["pfr_url"].s).None?)
      && (forall c :: c in r && c != "player_id" && c != "pfr_id" ==> c in h && h[c] == r[c])
    {
      FixRowCells(f.rows[j]);
    }
  }

  /** The repaired frame has `player_id` and never `pfr_id`, and keeps
      every other input column. */
  lemma FixPlayerIdsColumns(f: Frame)
    requires FixPlayerIds(f).Ok?
    ensures var g := FixPlayerIds(f).value;
      "player_id" in g.columns && "pfr_id" !in g.columns
      && forall c :: c in f.columns && c != "pfr_id" ==> c in g.columns
  {
    assert FixPlayerIds(f).value.columns == FixedColumns(f.columns);
    FixedColumnsKeeps(f.columns);
  }

  lemma FixedColumnsKeeps(columns: seq<string>)
    ensures "player_id" in FixedColumns(columns) && "pfr_id" !in FixedColumns(columns)
    ensures forall c :: c in columns && c != "pfr_id" ==> c in FixedColumns(columns)
  {
    var withId := if "player_id" in columns then columns else columns + ["player_id"];
    assert "player_id" in withId;
    assert forall c :: c in columns ==> c in withId;
  }

  /** The repair fails exactly on a missing URL column, a URL cell that is
      not text, or a row without an id in a frame without a `player`
      column, naming the first such row. */
  lemma FixPlayerIdsFails(f: Frame)
    ensures FixPlayerIds(f).Err? <==>
      "pfr_url" !in f.columns
      || (exists j :: 0 <= j < |f.rows| && !("pfr_url" in f.rows[j] && f.rows[j]["pfr_url"].Text?))
      || ("player" !in f.columns && exists j :: 0 <= j < |f.rows| && MissingId(f.rows[j]))
    ensures FixPlayerIds(f) == Err(NoUrlColumn) <==> "pfr_url" !in f.columns
    ensures (FixPlayerIds(f).Err? && FixPlayerIds(f).error.UrlNotText?) ==>
      var k := FixPlayerIds(f).error.row;
      k < |f.rows| && !("pfr_url" in f.rows[k] && f.rows[k]["pfr_url"].Text?)
      && forall j :: 0 <= j < k ==> "pfr_url" in f.rows[j] && f.rows[j]["pfr_url"].Text?
    ensures (FixPlayerIds(f).Err? && FixPlayerIds(f).error.NoPlayerColumn?) ==>
      var k := FixPlayerIds(f).error.row;
      "player" !in f.columns && k < |f.rows| && MissingId(f.rows[k])
      && forall j :: 0 <= j < k ==> !MissingId(f.rows[j])
  {
    if "pfr_url" in f.columns && FirstNonText(f.rows) == |f.rows| && "player" !in f.columns
       && exists j :: 0 <= j < |f.rows| && MissingId(f.rows[j]) {
      var j :| 0 <= j < |f.rows| && MissingId(f.rows[j]);
      assert FirstMissingId(f.rows) <= j;
    }
  }
}
