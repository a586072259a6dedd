/** Scoring one player: the feature frame built from the player's JSON
    object (four required features, three defaults) and the banding of the
    predicted probability into a risk level. */
module Scoring {
  import opened Wrappers
  import opened Tables

  /** A JSON object as `json.loads` returns it: its keys in order, each
      once, and their values. */
  datatype PlayerData = PlayerData(keys: seq<string>, values: map<string, Cell>)

  predicate WellFormed(d: PlayerData) {
    (forall i, j :: 0 <= i < j < |d.keys| ==> d.keys[i] != d.keys[j])
    && d.values.Keys == set k | k in d.keys
  }

  const Required: seq<string> := ["age", "touches_prev", "career_touches_prior", "prior_multiweek_prev"]

  /** The features added when absent, with their default values. */
  const Defaults: seq<(string, Cell)> := [("position_RB", Int(1)), ("yards_per_touch", Real(4.5)), ("injury_history", Int(0))]

  datatype FeatureError = MissingFeature(name: string)

  /** The first of `names` that is not among `keys`. */
  function FirstMissing(names: seq<string>, keys: seq<string>): (r: Option<string>)
    ensures r.None? <==> forall n :: n in names ==> n in keys
    ensures r.Some? ==> r.value in names && r.value !in keys
  {
    if |names| == 0 then None
    else if names[0] !in keys then Some(names[0])
    else FirstMissing(names[1..], keys)
  }

  /** Adds one default column unless the frame already has it. */
  function WithDefault(columns: seq<string>, row: Row, name: string, value: Cell): (seq<string>, Row) {
    if name in columns then (columns, row) else (columns + [name], row[name := value])
  }

  /** The one-row frame after the three defaults. */
  function WithDefaults(d: PlayerData): Frame {
    var (c1, r1) := WithDefault(d.keys, d.values, Defaults[0].0, Defaults[0].1);
    var (c2, r2) := WithDefault(c1, r1, Defaults[1].0, Defaults[1].1);
    var (c3, r3) := WithDefault(c2, r2, Defaults[2].0, Defaults[2].1);
    Frame(c3, [r3])
  }

  /** `prepare_player_features`: the first missing required feature is an
      error; otherwise the frame with the defaults. */
  function Prepare(d: PlayerData): Result<Frame, FeatureError> {
    match FirstMissing(Required, d.keys)
    case Some(name) => Err(MissingFeature(name))
    case None => Ok(WithDefaults(d))
  }

  /** The check loop and the column additions of `prepare_player_features`. */
  method PrepareFeatures(d: PlayerData) returns (r: Result<Frame, FeatureError>)
    ensures r == Prepare(d)
  {
    for i := 0 to |Required|
      invariant FirstMissing(Required, d.keys) == FirstMissing(Required[i..], d.keys)
    {
      assert Required[i..][1..] == Required[i + 1..];
      if Required[i] !in d.keys {
        return Err(MissingFeature(Required[i]));
      }
    }
    var columns, row := d.keys, d.values;
    if "position_RB" !in columns {
      columns, row := columns + ["position_RB"], row["position_RB" := Int(1)];
    }
    if "yards_per_touch" !in columns {
      columns, row := columns + ["yards_per_touch"], row["yards_per_touch" := Real(4.5)];
    }
    if "injury_history" !in columns {
      columns, row := columns + ["injury_history"], row["injury_history" := Int(0)];
    }
    r := Ok(Frame(columns, [row]));
  }

  /** The features are rejected exactly when a required one is missing, and
      the error names the first missing one in the checking order. A
      present feature whose value is null passes the check. */
  lemma PrepareRejects(d: PlayerData)
    ensures Prepare(d).Err? <==> exists n :: n in Required && n !in d.keys
    ensures Prepare(d).Err? ==>
      exists i :: 0 <= i < |Required| && Prepare(d).error.name == Required[i] && Required[i] !in d.keys
                  && forall j :: 0 <= j < i ==> Required[j] in d.keys
  {
    if Prepare(d).Err? {
      FirstMissingIsFirst(Required, d.keys);
    }
  }

  lemma {:induction false} FirstMissingIsFirst(names: seq<string>, keys: seq<string>)
    requires FirstMissing(names, keys).Some?
    ensures exists i :: 0 <= i < |names| && FirstMissing(names, keys).value == names[i]
                        && forall j :: 0 <= j < i ==> names[j] in keys
  {
    if names[0] in keys {
      FirstMissingIsFirst(names[1..], keys);
      var i :| 0 <= i < |names[1..]| && FirstMissing(names[1..], keys).value == names[1..][i]
               && forall j :: 0 <= j < i ==> names[1..][j] in keys;
      assert forall j :: 0 < j <= i ==> names[j] == names[1..][j - 1];
      assert FirstMissing(names, keys).value == names[i + 1];
    } else {
      assert FirstMissing(names, keys).value == names[0];
    }
  }

  /** `(cs, r)` is `(columns, row)` with column `name` added unless it is
      there: the earlier columns and cells are kept, the column holds the
      supplied value if there is one and `value` otherwise, and nothing
      else is added. */
  predicate AddsDefault(columns: seq<string>, row: Row, cs: seq<string>, r: Row, name: string, value: Cell) {
    |columns| <= |cs| && cs[..|columns|] == columns
    && (set c | c in cs) == r.Keys
    && (forall k :: k in row ==> k in r && r[k] == row[k])
    && name in r
    && (name !in columns ==> r[name] == value)
    && (forall c :: c in cs ==> c in columns || c == name)
  }

  lemma WithDefaultStep(columns: seq<string>, row: Row, name: string, value: Cell)
    requires (set c | c in columns) == row.Keys
    ensures AddsDefault(columns, row, WithDefault(columns, row, name, value).0,
                        WithDefault(columns, row, name, value).1, name, value)
  {
    var (cs, r) := WithDefault(columns, row, name, value);
    assert cs[..|columns|] == columns;
  }

  /** Three defaults with distinct names added in turn. */
  lemma {:induction false} AddsThreeDefaults(c0: seq<string>, r0: Row, c1: seq<string>, r1: Row,
                                             c2: seq<string>, r2: Row, c3: seq<string>, r3: Row,
                                             n1: string, v1: Cell, n2: string, v2: Cell, n3: string, v3: Cell)
    requires n1 != n2 && n1 != n3 && n2 != n3
    requires (set c | c in c0) == r0.Keys
    requires AddsDefault(c0, r0, c1, r1, n1, v1)
    requires AddsDefault(c1, r1, c2, r2, n2, v2)
    requires AddsDefault(c2, r2, c3, r3, n3, v3)
    ensures |c0| <= |c3| && c3[..|c0|] == c0
    ensures (set c | c in c3) == r3.Keys
    ensures forall k :: k in r0 ==> k in r3 && r3[k] == r0[k]
    ensures n1 in r3 && (n1 !in c0 ==> r3[n1] == v1)
    ensures n2 in r3 && (n2 !in c0 ==> r3[n2] == v2)
    ensures n3 in r3 && (n3 !in c0 ==> r3[n3] == v3)
    ensures forall c :: c in c3 ==> c in c0 || c == n1 || c == n2 || c == n3
  {
    assert c3[..|c0|] == c3[..|c2|][..|c1|][..|c0|];
    assert n1 in r1 && n1 in r2;
    assert n2 !in c0 ==> n2 !in c1;
    assert n3 !in c0 ==> n3 !in c2;
  }

  /** Feature `name` of the frame is the supplied value, or `default`
      when none was supplied. */
  predicate FeatureOrDefault(d: PlayerData, f: Frame, name: string, default: Cell)
    requires |f.rows| == 1
  {
    name in f.rows[0] && f.rows[0][name] == if name in d.values then d.values[name] else default
  }

  /** An accepted frame has one row; the supplied features keep their
      place and value; each default column exists and holds the supplied
      value when there is one, the default otherwise; nothing else is
      added. */
  lemma PrepareAccepts(d: PlayerData)
    requires WellFormed(d)
    requires Prepare(d).Ok?
    ensures |Prepare(d).value.rows| == 1
    ensures Prepare(d).value.columns[..|d.keys|] == d.keys
    ensures forall k :: k in d.keys ==> k in Prepare(d).value.rows[0] && Prepare(d).value.rows[0][k] == d.values[k]
    ensures FeatureOrDefault(d, Prepare(d).value, "position_RB", Int(1))
    ensures FeatureOrDefault(d, Prepare(d).value, "yards_per_touch", Real(4.5))
    ensures FeatureOrDefault(d, Prepare(d).value, "injury_history", Int(0))
    ensures (set c | c in Prepare(d).value.columns) == Prepare(d).value.rows[0].Keys
    ensures forall c :: c in Prepare(d).value.columns ==>
              c in d.keys || c == "position_RB" || c == "yards_per_touch" || c == "injury_history"
  {
    assert Prepare(d) == Ok(WithDefaults(d));
    WithDefaultsShape(d);
  }

  lemma WithDefaultsShape(d: PlayerData)
    requires WellFormed(d)
    ensures var f := WithDefaults(d);
      |f.rows| == 1
      && f.columns[..|d.keys|] == d.keys
      && (forall k :: k in d.keys ==> k in f.rows[0] && f.rows[0][k] == d.values[k])
      && FeatureOrDefault(d, f, "position_RB", Int(1))
      && FeatureOrDefault(d, f, "yards_per_touch", Real(4.5))
      && FeatureOrDefault(d, f, "injury_history", Int(0))
      && (set c | c in f.columns) == f.rows[0].Keys
      && (forall c :: c in f.columns ==>
            c in d.keys || c == "position_RB" || c == "yards_per_touch" || c == "injury_history")
  {
    var (n1, v1) := Defaults[0];
    var (n2, v2) := Defaults[1];
    var (n3, v3) := Defaults[2];
    var (c1, r1) := WithDefault(d.keys, d.values, n1, v1);
    var (c2, r2) := WithDefault(c1, r1, n2, v2);
    var (c3, r3) := WithDefault(c2, r2, n3, v3);
    WithDefaultStep(d.keys, d.values, n1, v1);
    WithDefaultStep(c1, r1, n2, v2);
    WithDefaultStep(c2, r2, n3, v3);
    AddsThreeDefaults(d.keys, d.values, c1, r1, c2, r2, c3, r3, n1, v1, n2, v2, n3, v3);
    assert WithDefaults(d) == Frame(c3, [r3]);
  }

  /** The defaults never change a supplied value: a player who supplies all
      seven features gets exactly their own frame. */
  lemma SuppliedDefaultsKept(d: PlayerData)
    requires forall i :: 0 <= i < |Defaults| ==> Defaults[i].0 in d.keys
    requires Prepare(d).Ok?
    ensures Prepare(d).value == Frame(d.keys, [d.values])
  {
    assert Defaults[0].0 in d.keys && Defaults[1].0 in d.keys && Defaults[2].0 in d.keys;
  }

  datatype RiskLevel = Low | Medium | High

  /** The banding of `main`. */
  function Band(p: real): RiskLevel {
    if p < 0.3 then Low else if p < 0.6 then Medium else High
  }

  function Rank(level: RiskLevel): nat {
    match level
    case Low => 0
    case Medium => 1
    case High => 2
  }

  /** The three bands partition the reals at 0.3 and 0.6: each level holds
      for exactly one interval. */
  lemma BandsPartition(p: real)
    ensures Band(p) == Low <==> p < 0.3
    ensures Band(p) == Medium <==> 0.3 <= p < 0.6
    ensures Band(p) == High <==> 0.6 <= p
  {
  }

  /** A higher probability never gets a lower level. */
  lemma BandMonotone(p: real, q: real)
    requires p <= q
    ensures Rank(Band(p)) <= Rank(Band(q))
  {
  }
}
