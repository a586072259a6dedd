/** Column names of a Pro-Football-Reference game log. The file starts with
    two header rows, a category row ("Rushing", "Receiving", ...) and a row
    of specific names ("Att", "Yds", ...). The three 2023 parsers flatten
    them into one name per column, rename repeated names and, when the data
    is wider or narrower, make the name list fit it. */
module Headers {
  import opened Wrappers
  import opened Text

  /** The three parsers differ in what starts a category, in what counts as
      a missing name and in which categories prefix their names.
      `Robust` is `parse_2023_robust`, `Data` is `parse_single_file` of
      `process_2023_data`, `Fixed` is `parse_2023_file`. */
  datatype Dialect = Robust | Data | Fixed

  /** Categories `process_2023_data` never uses as a prefix. */
  const Unprefixed: seq<string> := ["Unnamed: 0", "Fumbles", "Snap Counts", "Kick Returns", "Punt Returns", "Passing"]

  /** The category cell at position `i`; a category row shorter than the
      name row reads as empty there. */
  function CellAt(cats: seq<string>, i: nat): string {
    if i < |cats| then cats[i] else ""
  }

  /** The category the cell starts, if it starts one. */
  function CategoryStart(d: Dialect, cell: string): Option<string> {
    match d
    case Robust => if cell != "" then Some(cell) else None
    case Data => if cell != "" && cell != "nan" && cell != "Unnamed: 0" then Some(Strip(cell)) else None
    case Fixed => if cell != "" && cell != "nan" then Some(Strip(cell)) else None
  }

  /** The category each cell of the category row starts, if any, for the
      first `n` positions. */
  function Starts(d: Dialect, cats: seq<string>, n: nat): (starts: seq<Option<string>>)
    ensures |starts| == n
  {
    seq(n, i requires 0 <= i < n => CategoryStart(d, CellAt(cats, i)))
  }

  /** Position `i` of `Starts` is what cell `i` starts. */
  lemma StartAt(d: Dialect, cats: seq<string>, n: nat, i: nat)
    requires i < n
    ensures Starts(d, cats, n)[i] == CategoryStart(d, CellAt(cats, i))
  {
  }

  /** `current_category` once position `i` has been read: the category of
      the last position at or before `i` that starts one, or empty. */
  function Carried(starts: seq<Option<string>>, i: nat): string
    requires i < |starts|
  {
    match starts[i]
    case Some(c) => c
    case None => if i == 0 then "" else Carried(starts, i - 1)
  }

  /** The specific name as the dialect reads it. */
  function Specific(d: Dialect, cell: string): string {
    if d == Robust then cell else Strip(cell)
  }

  /** A specific name that gets the placeholder `col_i`. */
  predicate Blank(d: Dialect, name: string) {
    name == "" || (d != Robust && name == "nan")
  }

  /** Whether a non-blank name under `category` is prefixed with it. */
  predicate Prefixes(d: Dialect, category: string) {
    match d
    case Robust => category != ""
    case Data => category != "" && category !in Unprefixed
    case Fixed => category != "" && category != "nan"
  }

  /** The flattened name of position `i`. */
  function FlatName(d: Dialect, category: string, cell: string, i: nat): string {
    var name := Specific(d, cell);
    if Blank(d, name) then "col_" + NatToString(i)
    else if Prefixes(d, category) && !(category <= name) then category + "_" + name
    else name
  }

  /** The flattened header row. */
  function Flatten(d: Dialect, cats: seq<string>, specs: seq<string>): (names: seq<string>)
    ensures |names| == |specs|
  {
    var starts := Starts(d, cats, |specs|);
    seq(|specs|, i requires 0 <= i < |specs| => FlatName(d, Carried(starts, i), specs[i], i))
  }

  /** `[f(0), ..., f(n - 1)]`, built one position at a time. */
  function Prefix<T>(f: nat -> T, n: nat): (r: seq<T>)
    ensures |r| == n
  {
    if n == 0 then [] else Prefix(f, n - 1) + [f(n - 1)]
  }

  lemma {:induction false} PrefixAt<T>(f: nat -> T, n: nat, k: nat)
    requires k < n
    ensures Prefix(f, n)[k] == f(k)
  {
    if k < n - 1 {
      PrefixAt(f, n - 1, k);
    }
  }

  /** The flattened name of each position, with the category carried to it. */
  function NameAt(d: Dialect, starts: seq<Option<string>>, specs: seq<string>): nat -> string {
    (k: nat) => if k < |specs| && k < |starts| then FlatName(d, Carried(starts, k), specs[k], k) else ""
  }

  /** Position `k` built one at a time is position `k` of the header row. */
  lemma PrefixAtFlatten(d: Dialect, cats: seq<string>, specs: seq<string>, k: nat)
    requires k < |specs|
    ensures Prefix(NameAt(d, Starts(d, cats, |specs|), specs), |specs|)[k] == Flatten(d, cats, specs)[k]
  {
    var f := NameAt(d, Starts(d, cats, |specs|), specs);
    PrefixAt(f, |specs|, k);
  }

  /** Built one position at a time, the names are the flattened header row. */
  lemma PrefixIsFlatten(d: Dialect, cats: seq<string>, specs: seq<string>)
    ensures Prefix(NameAt(d, Starts(d, cats, |specs|), specs), |specs|) == Flatten(d, cats, specs)
  {
    forall k | 0 <= k < |specs|
      ensures Prefix(NameAt(d, Starts(d, cats, |specs|), specs), |specs|)[k] == Flatten(d, cats, specs)[k]
    {
      PrefixAtFlatten(d, cats, specs, k);
    }
  }

  /** The header loop with its `current_category`. */
  method FlattenHeaders(d: Dialect, cats: seq<string>, specs: seq<string>) returns (names: seq<string>)
    ensures names == Flatten(d, cats, specs)
  {
    ghost var starts := Starts(d, cats, |specs|);
    ghost var f := NameAt(d, starts, specs);
    names := [];
    var current := "";
    for i := 0 to |specs|
      invariant names == Prefix(f, i)
      invariant i > 0 ==> current == Carried(starts, i - 1)
      invariant i == 0 ==> current == ""
    {
      var start := CategoryStart(d, CellAt(cats, i));
      StartAt(d, cats, |specs|, i);
      if start.Some? {
        current := start.value;
      }
      assert current == Carried(starts, i);
      assert f(i) == FlatName(d, current, specs[i], i);
      names := names + [FlatName(d, current, specs[i], i)];
    }
    PrefixIsFlatten(d, cats, specs);
  }

  /** A category stays current from the position that starts it up to the
      next position that starts another. */
  lemma {:induction false} CategoryCarried(starts: seq<Option<string>>, i: nat, j: nat, c: string)
    requires i <= j < |starts|
    requires starts[i] == Some(c)
    requires forall k :: i < k <= j ==> starts[k].None?
    ensures Carried(starts, j) == c
    decreases j
  {
    if j > i {
      CategoryCarried(starts, i, j - 1, c);
    }
  }

  /** Before the first position that starts a category there is none. */
  lemma {:induction false} NoCategoryYet(starts: seq<Option<string>>, j: nat)
    requires j < |starts|
    requires forall k :: 0 <= k <= j ==> starts[k].None?
    ensures Carried(starts, j) == ""
  {
    if j > 0 {
      NoCategoryYet(starts, j - 1);
    }
  }

  /** What a flattened name looks like: a blank name becomes `col_` and
      digits; any other name ends with the specific name, starts with the
      category when the category prefixes, and is the specific name alone
      when it does not. No flattened name is empty. */
  lemma FlatNameShape(d: Dialect, category: string, cell: string, i: nat)
    ensures var r := FlatName(d, category, cell, i);
      var name := Specific(d, cell);
      |r| > 0
      && (Blank(d, name) ==> r == "col_" + NatToString(i))
      && (!Blank(d, name) ==> name <= r[|r| - |name|..] && |name| <= |r|)
      && (!Blank(d, name) && Prefixes(d, category) ==> category <= r)
      && (!Blank(d, name) && !Prefixes(d, category) ==> r == name)
  {
    var r := FlatName(d, category, cell, i);
    var name := Specific(d, cell);
    if !Blank(d, name) && Prefixes(d, category) && !(category <= name) {
      assert r == category + "_" + name;
      assert r[|r| - |name|..] == name;
    }
  }

  /** `process_2023_data` never prefixes under its excluded categories. */
  lemma ExcludedCategoriesKeepNames(category: string, cell: string, i: nat)
    requires category in Unprefixed
    requires !Blank(Data, Strip(cell))
    ensures FlatName(Data, category, cell, i) == Strip(cell)
  {
    assert !Prefixes(Data, category);
  }

  /** How often `x` occurs in `s`. */
  function Count(s: seq<string>, x: string): nat {
    if |s| == 0 then 0 else Count(s[..|s| - 1], x) + (if s[|s| - 1] == x then 1 else 0)
  }

  lemma {:induction false} CountPositive(s: seq<string>, x: string)
    ensures Count(s, x) > 0 <==> x in s
  {
    if |s| > 0 {
      CountPositive(s[..|s| - 1], x);
      assert s == s[..|s| - 1] + [s[|s| - 1]];
    }
  }

  lemma CountStep(s: seq<string>, i: nat, x: string)
    requires i < |s|
    ensures Count(s[..i + 1], x) == Count(s[..i], x) + (if s[i] == x then 1 else 0)
  {
    assert s[..i + 1][..i] == s[..i];
  }

  /** A later occurrence of a name has seen more earlier copies of it. */
  lemma CountGrows(s: seq<string>, i: nat, j: nat)
    requires i < j < |s| && s[i] == s[j]
    ensures Count(s[..i], s[i]) < Count(s[..j], s[i])
  {
    CountStep(s, i, s[i]);
    CountMonotone(s, i + 1, j, s[i]);
  }

  lemma {:induction false} CountMonotone(s: seq<string>, i: nat, j: nat, x: string)
    requires i <= j <= |s|
    ensures Count(s[..i], x) <= Count(s[..j], x)
    decreases j - i
  {
    if i < j {
      CountMonotone(s, i, j - 1, x);
      CountStep(s, j - 1, x);
    }
  }

  /** The de-duplicated name of position `i`: the first occurrence keeps its
      name, the n-th becomes `name_n`. */
  function DedupAt(names: seq<string>, i: nat): string
    requires i < |names|
  {
    var before := Count(names[..i], names[i]);
    if before == 0 then names[i] else names[i] + "_" + NatToString(before + 1)
  }

  function Dedup(names: seq<string>): (r: seq<string>)
    ensures |r| == |names|
  {
    seq(|names|, i requires 0 <= i < |names| => DedupAt(names, i))
  }

  /** The loop with the `seen` dictionary. */
  method Deduplicate(names: seq<string>) returns (out: seq<string>)
    ensures out == Dedup(names)
  {
    var seen: map<string, nat> := map[];
    out := names;
    for i := 0 to |names|
      invariant |out| == |names|
      invariant forall x :: x in seen <==> x in names[..i]
      invariant forall x :: x in seen ==> seen[x] == Count(names[..i], x)
      invariant forall k :: 0 <= k < i ==> out[k] == DedupAt(names, k)
      invariant forall k :: i <= k < |names| ==> out[k] == names[k]
    {
      var header := out[i];
      assert names[..i + 1] == names[..i] + [names[i]];
      forall x ensures Count(names[..i + 1], x) == Count(names[..i], x) + (if names[i] == x then 1 else 0) {
        CountStep(names, i, x);
      }
      CountPositive(names[..i], header);
      if header in seen {
        seen := seen[header := seen[header] + 1];
        out := out[i := header + "_" + NatToString(seen[header])];
      } else {
        seen := seen[header := 1];
      }
    }
  }

  /** A position keeps its name exactly when the name has not occurred
      before it. */
  lemma FirstOccurrenceKept(names: seq<string>, i: nat)
    requires i < |names|
    ensures Dedup(names)[i] == names[i] <==> names[i] !in names[..i]
  {
    CountPositive(names[..i], names[i]);
  }

  /** The name in front of the first `_`, and the number after it minus one
      (0 without a `_`, -1 when the rest is not a number). */
  function Decode(s: string): (string, int) {
    var k := IndexOf(s, '_');
    if k == |s| then (s, 0)
    else if AllDigits(s[k + 1..]) then (s[..k], DigitsValue(s[k + 1..]) - 1)
    else (s[..k], -1)
  }

  lemma DecodePlain(x: string)
    requires '_' !in x
    ensures Decode(x) == (x, 0)
  {
    assert IndexOf(x, '_') == |x|;
  }

  lemma DecodeSuffixed(x: string, n: nat)
    requires '_' !in x
    ensures Decode(x + "_" + NatToString(n)) == (x, n - 1)
  {
    var t := "_" + NatToString(n);
    var r := x + t;
    assert x + "_" + NatToString(n) == r;
    IndexOfAfter(x, t, '_');
    assert IndexOf(r, '_') == |x|;
    assert r[..|x|] == x && r[|x| + 1..] == NatToString(n);
    NatToStringRoundTrip(n);
  }

  lemma DecodeDedup(names: seq<string>, i: nat)
    requires i < |names| && '_' !in names[i]
    ensures Decode(DedupAt(names, i)) == (names[i], Count(names[..i], names[i]) as int)
  {
    var before := Count(names[..i], names[i]);
    if before > 0 {
      DecodeSuffixed(names[i], before + 1);
    } else {
      DecodePlain(names[i]);
    }
  }

  /** Names without `_` come out pairwise distinct. */
  lemma DedupDistinct(names: seq<string>, i: nat, j: nat)
    requires i < j < |names|
    requires '_' !in names[i] && '_' !in names[j]
    ensures Dedup(names)[i] != Dedup(names)[j]
  {
    DecodeDedup(names, i);
    DecodeDedup(names, j);
    assert Dedup(names)[i] == DedupAt(names, i) && Dedup(names)[j] == DedupAt(names, j);
    if names[i] == names[j] {
      CountGrows(names, i, j);
    }
  }

  /** With a `_` in the input the result can repeat: `a, a, a_2` gives
      `a, a_2, a_2`. */
  lemma DedupCanRepeat()
    ensures Dedup(["a", "a", "a_2"]) == ["a", "a_2", "a_2"]
  {
    var names := ["a", "a", "a_2"];
    assert names[..0] == [] && names[..1] == ["a"] && names[..2] == ["a", "a"];
    assert ["a", "a"][..1] == ["a"] && ["a"][..0] == [];
    assert Count(names[..1], "a") == 1;
    assert Count(names[..2], "a_2") == 0;
    assert NatToString(2) == "2";
    var r := Dedup(names);
    assert r[0] == "a" && r[1] == "a_2" && r[2] == "a_2";
  }

  /** `extra_col_j` for the `j`-th column the header rows did not name. */
  function ExtraName(j: nat): string {
    "extra_col_" + NatToString(j)
  }

  /** The names fitted to a data table `width` columns wide: cut when too
      many, padded with `extra_col_j` when too few. */
  function Reconcile(names: seq<string>, width: nat): (r: seq<string>)
    ensures |r| == width
    ensures forall k :: 0 <= k < width && k < |names| ==> r[k] == names[k]
    ensures forall k :: |names| <= k < width ==> r[k] == ExtraName(k - |names|)
  {
    if |names| == width then names
    else if |names| > width then names[..width]
    else names + seq(width - |names|, j requires 0 <= j < width - |names| => ExtraName(j))
  }

  /** Reconciling a list that already fits changes nothing. */
  lemma ReconcileFits(names: seq<string>)
    ensures Reconcile(names, |names|) == names
  {
  }
}
