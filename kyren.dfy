/** `clean_kyren_2022`: Kyren Williams' 2022 rookie games are dropped from
    the three-season table and his remaining games get their workload
    features recomputed over what is left; every other game keeps the
    feature values it already had. */
module Kyren {
  import opened Wrappers
  import opened Weeks
  import opened SimpleCombine

  const KyrenId: string := "willky02"
  const RookieSeason: int := 2022

  /** One game of the table with the feature columns it carries. */
  datatype Game = Game(row: WeekRow, features: Features)

  /** The removal mask; a NaN player id or season compares unequal, so such
      rows are kept. */
  predicate IsRookieGame(r: WeekRow) {
    r.playerId == Some(KyrenId) && r.season == Some(RookieSeason)
  }

  function RookieCount(games: seq<Game>): nat {
    if |games| == 0 then 0
    else RookieCount(games[..|games| - 1]) + (if IsRookieGame(games[|games| - 1].row) then 1 else 0)
  }

  /** `df[~mask]`: the games outside the mask, in their original order. */
  function Kept(games: seq<Game>): (k: seq<Game>)
    ensures forall g :: g in k <==> g in games && !IsRookieGame(g.row)
    ensures |k| + RookieCount(games) == |games|
  {
    if |games| == 0 then []
    else
      var init := games[..|games| - 1];
      var last := games[|games| - 1];
      assert games == init + [last];
      Kept(init) + (if IsRookieGame(last.row) then [] else [last])
  }

  function Rows(games: seq<Game>): (r: seq<WeekRow>)
    ensures |r| == |games| && forall i :: 0 <= i < |games| ==> r[i] == games[i].row
  {
    seq(|games|, i requires 0 <= i < |games| => games[i].row)
  }

  function FeatureColumn(games: seq<Game>): (f: seq<Features>)
    ensures |f| == |games| && forall i :: 0 <= i < |games| ==> f[i] == games[i].features
  {
    seq(|games|, i requires 0 <= i < |games| => games[i].features)
  }

  /** The cleaned table: the kept games in order, Kyren's with features
      recomputed from his kept history, everyone else's untouched. */
  method CleanKyren(games: seq<Game>) returns (out: seq<Game>)
    ensures |out| == |Kept(games)| == |games| - RookieCount(games)
    ensures forall i :: 0 <= i < |out| ==> out[i].row == Kept(games)[i].row
    ensures forall i :: 0 <= i < |out| && out[i].row.playerId == Some(KyrenId) ==>
      out[i].features == PerPlayer(Rows(Kept(games)), i)
    ensures forall i :: 0 <= i < |out| && out[i].row.playerId != Some(KyrenId) ==>
      out[i].features == Kept(games)[i].features
  {
    var kept := Kept(games);
    var rows := Rows(kept);
    var feats := FeatureColumn(kept);
    if |PlayerRows(rows, KyrenId)| > 0 {
      feats := UpdatePlayer(rows, feats, KyrenId);
    } else {
      forall i | 0 <= i < |rows| && rows[i].playerId == Some(KyrenId) ensures false {
        PlayerRowsPosition(rows, i, KyrenId);
      }
    }
    out := seq(|kept|, i requires 0 <= i < |kept| => Game(kept[i].row, feats[i]));
  }

  /** After cleaning, no 2022 game enters Kyren's recomputed features: every
      row in the history of one of his kept games is from another season. */
  lemma HistoryWithoutRookieSeason(games: seq<Game>, i: nat)
    requires i < |Kept(games)| && Kept(games)[i].row.playerId == Some(KyrenId)
    ensures forall x :: x in Before(Rows(Kept(games)), i) ==> x.season != Some(RookieSeason)
  {
    var kept := Kept(games);
    var rows := Rows(kept);
    forall x | x in Before(rows, i) ensures x.season != Some(RookieSeason) {
      assert x in rows[..i] && x.playerId == Some(KyrenId);
      var j :| 0 <= j < i && rows[..i][j] == x;
      assert kept[j] in kept;
    }
  }
}
