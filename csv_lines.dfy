/** The hand-written line reader of `parse_2023_robust`: a quote-aware
    split of one data line and the padding of short rows. */
module CsvLines {
  import opened Text

  /** The reader's state between characters. */
  datatype ScanState = ScanState(values: seq<string>, current: string, inQuotes: bool)

  /** One character: a quote toggles quote mode and is dropped, a comma
      outside quotes closes the current value, anything else is kept. */
  function Step(st: ScanState, c: char): ScanState {
    if c == '"' then st.(inQuotes := !st.inQuotes)
    else if c == ',' && !st.inQuotes then ScanState(st.values + [StripQuotes(st.current)], "", st.inQuotes)
    else st.(current := st.current + [c])
  }

  /** The state after the first `k` characters. */
  function ScanPrefix(line: string, k: nat): ScanState
    requires k <= |line|
  {
    if k == 0 then ScanState([], "", false) else Step(ScanPrefix(line, k - 1), line[k - 1])
  }

  /** The last value is added only when it is not empty. */
  function Finish(st: ScanState): seq<string> {
    if st.current != "" then st.values + [StripQuotes(st.current)] else st.values
  }

  /** The values of one line. */
  function QuotedSplit(line: string): seq<string> {
    Finish(ScanPrefix(line, |line|))
  }

  /** The character loop with `current_value` and `in_quotes`. */
  method SplitQuoted(line: string) returns (values: seq<string>)
    ensures values == QuotedSplit(line)
  {
    values := [];
    var current := "";
    var inQuotes := false;
    for k := 0 to |line|
      invariant ScanPrefix(line, k) == ScanState(values, current, inQuotes)
    {
      var c := line[k];
      if c == '"' {
        inQuotes := !inQuotes;
      } else if c == ',' && !inQuotes {
        values := values + [StripQuotes(current)];
        current := "";
      } else {
        current := current + [c];
      }
    }
    if current != "" {
      values := values + [StripQuotes(current)];
    }
  }

  predicate QuoteFree(st: ScanState) {
    '"' !in st.current && forall v :: v in st.values ==> '"' !in v
  }

  lemma StepQuoteFree(st: ScanState, c: char)
    requires QuoteFree(st)
    ensures QuoteFree(Step(st, c))
  {
    if c != '"' && c == ',' && !st.inQuotes {
      StripQuotesNoQuote(st.current);
    }
  }

  lemma {:induction false} ScanHasNoQuotes(line: string, k: nat)
    requires k <= |line|
    ensures QuoteFree(ScanPrefix(line, k))
  {
    if k > 0 {
      ScanHasNoQuotes(line, k - 1);
      StepQuoteFree(ScanPrefix(line, k - 1), line[k - 1]);
    }
  }

  /** No value keeps a quote character. */
  lemma NoQuotesInValues(line: string)
    ensures forall v :: v in QuotedSplit(line) ==> '"' !in v
  {
    var st := ScanPrefix(line, |line|);
    ScanHasNoQuotes(line, |line|);
    StripQuotesNoQuote(st.current);
  }

  /** `fields` without a final empty field. */
  function DropEmptyLast(fields: seq<string>): seq<string> {
    if |fields| > 0 && fields[|fields| - 1] == "" then fields[..|fields| - 1] else fields
  }

  /** One character of a quote-free line moves the reader exactly as it
      moves the fields of `split(',')`. */
  lemma ScanSplitStep(st: ScanState, f: seq<string>, g: seq<string>, c: char)
    requires !st.inQuotes && '"' !in st.current && c != '"'
    requires st.values + [st.current] == f
    requires c == ',' ==> g == f + [""]
    requires c != ',' ==> g == f[..|f| - 1] + [f[|f| - 1] + [c]]
    ensures !Step(st, c).inQuotes && Step(st, c).values + [Step(st, c).current] == g
  {
    assert f[..|f| - 1] == st.values && f[|f| - 1] == st.current;
    if c == ',' {
      StripQuotesNoQuote(st.current);
    }
  }

  /** The step of `ScanIsSplit`: one more character of a quote-free line. */
  lemma ScanSplitSnoc(st: ScanState, prefix: string, c: char)
    requires !st.inQuotes && '"' !in st.current && c != '"'
    requires st.values + [st.current] == Split(prefix, ',')
    ensures !Step(st, c).inQuotes && Step(st, c).values + [Step(st, c).current] == Split(prefix + [c], ',')
  {
    if c == ',' {
      SplitSnocSep(prefix, ',');
    } else {
      SplitSnocOther(prefix, c, ',');
    }
    ScanSplitStep(st, Split(prefix, ','), Split(prefix + [c], ','), c);
  }

  lemma {:induction false} ScanIsSplit(line: string, k: nat)
    requires k <= |line| && '"' !in line
    ensures var st := ScanPrefix(line, k);
      !st.inQuotes && st.values + [st.current] == Split(line[..k], ',')
  {
    if k == 0 {
      assert line[..0] == "";
    } else {
      ScanIsSplit(line, k - 1);
      ScanHasNoQuotes(line, k - 1);
      ScanSplitSnoc(ScanPrefix(line, k - 1), line[..k - 1], line[k - 1]);
      assert line[..k] == line[..k - 1] + [line[k - 1]];
    }
  }

  /** Without quotes in the line the reader is `line.split(',')` minus a
      trailing empty field. */
  lemma SplitWithoutQuotes(line: string)
    requires '"' !in line
    ensures QuotedSplit(line) == DropEmptyLast(Split(line, ','))
  {
    var st := ScanPrefix(line, |line|);
    ScanIsSplit(line, |line|);
    assert line[..|line|] == line;
    ScanHasNoQuotes(line, |line|);
    StripQuotesNoQuote(st.current);
    var f := Split(line, ',');
    assert f[..|f| - 1] == st.values;
  }

  /** A comma outside quotes closes a quote-free value unchanged. */
  lemma CommaClosesValue(st: ScanState)
    requires !st.inQuotes && '"' !in st.current
    ensures Step(st, ',') == ScanState(st.values + [st.current], "", false)
  {
    StripQuotesNoQuote(st.current);
  }

  /** A non-empty quote-free last value is kept unchanged. */
  lemma FinishKeepsValue(line: string, st: ScanState)
    requires ScanPrefix(line, |line|) == st
    requires st.current != "" && '"' !in st.current
    ensures QuotedSplit(line) == st.values + [st.current]
  {
    StripQuotesNoQuote(st.current);
  }

  /** Plain characters: neither a quote nor a comma. */
  predicate Plain(c: char) {
    c != '"' && c != ','
  }

  /** The first five characters of `"x,y",z`: the quoted value, read
      whole with its comma. */
  lemma QuotedValueRead(x: char, y: char, z: char)
    requires Plain(x) && Plain(y)
    ensures ScanPrefix(['"', x, ',', y, '"', ',', z], 5) == ScanState([], [x, ',', y], false)
  {
    var line := ['"', x, ',', y, '"', ',', z];
    assert ScanPrefix(line, 1) == ScanState([], "", true);
    assert ScanPrefix(line, 2) == ScanState([], [x], true);
    assert ScanPrefix(line, 3) == ScanState([], [x, ','], true);
    assert ScanPrefix(line, 4) == ScanState([], [x, ',', y], true);
  }

  /** The last two characters of `"x,y",z`: the comma closes `x,y` and
      `z` starts the next value. */
  lemma SecondValueRead(x: char, y: char, z: char)
    requires Plain(x) && Plain(y) && Plain(z)
    ensures ScanPrefix(['"', x, ',', y, '"', ',', z], 7) == ScanState([[x, ',', y]], [z], false)
  {
    var line := ['"', x, ',', y, '"', ',', z];
    var s5 := ScanState([], [x, ',', y], false);
    var s6 := ScanState([[x, ',', y]], "", false);
    QuotedValueRead(x, y, z);
    assert ScanPrefix(line, 6) == Step(s5, line[5]) && line[5] == ',';
    CommaClosesValue(s5);
    assert ScanPrefix(line, 7) == Step(s6, line[6]) && line[6] == z;
    assert s6.current + [z] == [z];
  }

  /** A comma inside quotes does not split: `"x,y",z` gives the two
      values `x,y` and `z`. */
  lemma QuotedCommaKept(x: char, y: char, z: char)
    requires Plain(x) && Plain(y) && Plain(z)
    ensures QuotedSplit(['"', x, ',', y, '"', ',', z]) == [[x, ',', y], [z]]
  {
    var line := ['"', x, ',', y, '"', ',', z];
    var s7 := ScanState([[x, ',', y]], [z], false);
    assert ScanPrefix(line, |line|) == s7 by {
      SecondValueRead(x, y, z);
    }
    FinishKeepsValue(line, s7);
    PairDisplay(s7.values[0], s7.current);
  }

  /** Two singletons concatenated are the two-element display. */
  lemma PairDisplay(a: string, b: string)
    ensures [a] + [b] == [a, b]
  {
  }

  /** A row padded with '' up to `width` cells; as written a longer row is
      left as it is. */
  function Padded(row: seq<string>, width: nat): (r: seq<string>)
    ensures |r| == if |row| < width then width else |row|
    ensures r[..|row|] == row
    ensures forall j :: |row| <= j < |r| ==> r[j] == ""
  {
    if |row| >= width then row else row + seq(width - |row|, _ => "")
  }

  /** The padding loop: rows shorter than the header count are extended in
      place with ''. */
  method PadRows(rows: seq<seq<string>>, width: nat) returns (out: seq<seq<string>>)
    ensures |out| == |rows| && forall k :: 0 <= k < |rows| ==> out[k] == Padded(rows[k], width)
  {
    out := [];
    for k := 0 to |rows|
      invariant |out| == k && forall m :: 0 <= m < k ==> out[m] == Padded(rows[m], width)
    {
      var row := rows[k];
      while |row| < width
        invariant |rows[k]| <= |row| && row[..|rows[k]|] == rows[k]
        invariant |rows[k]| < width ==> |row| <= width
        invariant |rows[k]| >= width ==> row == rows[k]
        invariant forall j :: |rows[k]| <= j < |row| ==> row[j] == ""
        decreases width - |row|
      {
        row := row + [""];
      }
      assert |row| == |Padded(rows[k], width)|;
      assert row == Padded(rows[k], width);
      out := out + [row];
    }
  }

  /** The truncation meant for longer rows does not happen: a row with one
      more cell than there are headers keeps it. */
  lemma LongRowNotCut()
    ensures |Padded(["1", "2", "3"], 2)| == 3
  {
  }

  /** A row made exactly `width` cells wide: padded with '' or cut. */
  function Fitted(row: seq<string>, width: nat): (r: seq<string>)
    ensures |r| == width
    ensures forall j :: 0 <= j < width && j < |row| ==> r[j] == row[j]
    ensures forall j :: |row| <= j < width ==> r[j] == ""
  {
    if |row| >= width then row[..width] else Padded(row, width)
  }

  /** The intended fitting differs from the padding only on rows that are
      too long. */
  lemma FittedAgreesWhenShort(row: seq<string>, width: nat)
    requires |row| <= width
    ensures Fitted(row, width) == Padded(row, width)
  {
  }
}
