/** `last15_features` and `head_to_head_over_rate`: summaries of a player's
    most recent records, with the missing sentinel (`None`) whenever the
    selection is empty. */
module FeatureEngine {
  import opened Optional
  import opened Records
  import Recency
  import Statistics

  /** `.head(15)` in `last15_features`. */
  const RecentGames := 15

  /** The sort key: the match date. */
  function Date(r: Record): int { r.date }

  /** What `last15_features` returns.  `variance` is the square of the
      source's `std` (so it is 0 exactly when `std` is 0). */
  datatype Last15 = Last15(count: nat, mean: Option<real>, median: Option<real>, variance: Option<real>)

  /** The rows `last15_features` summarises: the player's 15 newest. */
  function Last15Selection(records: seq<Record>, player: string): seq<Record> {
    Recency.Newest(OfPlayer(records, player), Date, RecentGames)
  }

  /** `last15_features(player_maps, player)`. */
  function Last15Features(records: seq<Record>, player: string): (r: Last15)
    ensures r.count == |Last15Selection(records, player)|
    ensures r.count == 0 ==> r.mean == None && r.median == None && r.variance == None
    ensures r.count > 0 ==> r.mean.Some? && r.median.Some? && r.variance.Some?
    ensures r.count == 1 ==> r.variance == Some(0.0)
    ensures r.variance.Some? ==> r.variance.value >= 0.0
  {
    var selected := Last15Selection(records, player);
    if selected == [] then Last15(0, None, None, None)
    else
      var xs := Stats(selected);
      Last15(|selected|, Some(Statistics.Mean(xs)), Some(Statistics.Median(xs)),
             Some(if |selected| > 1 then Statistics.SampleVariance(xs) else 0.0))
  }

  /** With no record of the player every field is missing, and with some
      record none is: the summary is missing exactly when the player has no
      history, and never zero in its place. */
  lemma Last15MissingIffNoHistory(records: seq<Record>, player: string)
    ensures var r := Last15Features(records, player);
      (r.count == 0 <==> forall x :: x in records ==> x.player != player) &&
      (r.count == 0 <==> r.mean.None?) &&
      (r.count == 0 <==> r.median.None?) &&
      (r.count == 0 <==> r.variance.None?)
  {
    var mine := OfPlayer(records, player);
    Recency.NewestSelects(mine, Date, RecentGames);
    if mine != [] {
      assert mine[0] in mine;
    }
  }

  /** The selection: min(15, number of the player's records) rows, each a
      record of the player taken from the table, and no record of the player
      left out is newer than one kept. */
  lemma Last15SelectsNewest(records: seq<Record>, player: string)
    ensures var mine := OfPlayer(records, player);
      var selected := Last15Selection(records, player);
      |selected| == (if |mine| < RecentGames then |mine| else RecentGames) &&
      (forall x :: x in selected ==> x in records && x.player == player) &&
      multiset(selected) <= multiset(mine) &&
      (forall x, y :: x in selected && y in multiset(mine) - multiset(selected) ==> x.date >= y.date)
  {
    var mine := OfPlayer(records, player);
    var selected := Last15Selection(records, player);
    Recency.NewestSelects(mine, Date, RecentGames);
    forall x | x in selected ensures x in records && x.player == player {
      assert x in multiset(selected);
      assert x in multiset(mine);
    }
    forall x, y | x in selected && y in multiset(mine) - multiset(selected) ensures x.date >= y.date {
      assert Date(x) >= Date(y);
    }
  }

  /** The mean is the arithmetic mean of the selected stats (their total
      over their number), and it lies between the smallest and the largest of
      them. */
  lemma Last15Mean(records: seq<Record>, player: string)
    requires Last15Features(records, player).count > 0
    ensures var r := Last15Features(records, player);
      var xs := Stats(Last15Selection(records, player));
      r.mean == Some(Statistics.Sum(xs) as real / |xs| as real) &&
      Statistics.Min(xs) as real <= r.mean.value <= Statistics.Max(xs) as real
  {
    Statistics.MeanWithinRange(Stats(Last15Selection(records, player)));
  }

  /** The median lies between the smallest and the largest selected stat and
      splits the selected stats in halves. */
  lemma Last15Median(records: seq<Record>, player: string)
    requires Last15Features(records, player).count > 0
    ensures var r := Last15Features(records, player);
      var xs := Stats(Last15Selection(records, player));
      Statistics.Min(xs) as real <= r.median.value <= Statistics.Max(xs) as real &&
      2 * Statistics.Count(xs, x => x as real <= r.median.value) >= |xs| &&
      2 * Statistics.Count(xs, x => x as real >= r.median.value) >= |xs|
  {
    Statistics.MedianSplits(Stats(Last15Selection(records, player)));
  }

  /** The spread is zero exactly when every selected stat is the same: always
      for a single record, and for two or more exactly when the Bessel-corrected
      variance vanishes. */
  lemma Last15SpreadZeroIffConstant(records: seq<Record>, player: string)
    requires Last15Features(records, player).count > 0
    ensures var xs := Stats(Last15Selection(records, player));
      Last15Features(records, player).variance == Some(0.0) <==>
        forall i, j :: 0 <= i < |xs| && 0 <= j < |xs| ==> xs[i] == xs[j]
  {
    var xs := Stats(Last15Selection(records, player));
    if |xs| > 1 {
      Statistics.VarianceZeroIffConstant(xs);
    }
  }

  /** For two or more records the spread is the Bessel-corrected sample
      variance: times `count - 1` it is the sum of the squared deviations of
      the selected stats from their mean. */
  lemma Last15SpreadIsSampleVariance(records: seq<Record>, player: string)
    requires Last15Features(records, player).count >= 2
    ensures var r := Last15Features(records, player);
      r.variance == Some(Statistics.SquaredDeviations(Stats(Last15Selection(records, player)), r.mean.value) / (r.count - 1) as real)
  {
  }

  /** What `head_to_head_over_rate` returns. */
  datatype HeadToHead = HeadToHead(count: nat, overRate: Option<real>)

  /** The rows `head_to_head_over_rate` looks at: the `window` newest records
      of the player against the opponent. */
  function HeadToHeadSelection(records: seq<Record>, player: string, opponent: string, window: int): seq<Record> {
    Recency.Newest(OfPairing(records, player, opponent), Date, window)
  }

  /** How many of `selected` have a stat strictly over `line`. */
  function OverCount(selected: seq<Record>, line: real): (c: nat)
    ensures c <= |selected|
  {
    Statistics.Count(Stats(selected), x => x as real > line)
  }

  /** `head_to_head_over_rate(player_maps, player, opponent, line, window=window)`. */
  function HeadToHeadOverRate(records: seq<Record>, player: string, opponent: string, line: real, window: int): (r: HeadToHead)
    ensures r.count == |HeadToHeadSelection(records, player, opponent, window)|
    ensures r.overRate.None? <==> r.count == 0
    ensures r.overRate.Some? ==> 0.0 <= r.overRate.value <= 1.0
  {
    var selected := HeadToHeadSelection(records, player, opponent, window);
    if selected == [] then HeadToHead(0, None)
    else
      HeadToHead(|selected|, Some(Statistics.Fraction(OverCount(selected, line), |selected|)))
  }

  /** The count is how many rows `head(window)` keeps of the matching
      records (min(window, matches) for a non-negative window); with a
      positive window the rate is missing exactly when no record matches both
      player and opponent.  The selection holds only such records, and no
      matching record left out is newer than one kept. */
  lemma HeadToHeadSelects(records: seq<Record>, player: string, opponent: string, line: real, window: int)
    ensures var matches := OfPairing(records, player, opponent);
      var selected := HeadToHeadSelection(records, player, opponent, window);
      var r := HeadToHeadOverRate(records, player, opponent, line, window);
      r.count == Recency.HeadLength(|matches|, window) &&
      (window > 0 ==> (r.overRate.None? <==> forall x :: x in records ==> !(x.player == player && x.opponent == opponent))) &&
      (forall x :: x in selected ==> x in records && x.player == player && x.opponent == opponent) &&
      multiset(selected) <= multiset(matches) &&
      (forall x, y :: x in selected && y in multiset(matches) - multiset(selected) ==> x.date >= y.date)
  {
    var matches := OfPairing(records, player, opponent);
    var selected := HeadToHeadSelection(records, player, opponent, window);
    Recency.NewestSelects(matches, Date, window);
    if matches != [] {
      assert matches[0] in matches;
    }
    forall x | x in selected ensures x in records && x.player == player && x.opponent == opponent {
      assert x in multiset(selected);
      assert x in multiset(matches);
    }
    forall x, y | x in selected && y in multiset(matches) - multiset(selected) ensures x.date >= y.date {
      assert Date(x) >= Date(y);
    }
  }

  /** The rate is the share of the selected records whose stat is strictly
      over the line: their number over the count (what `mean()` of the
      boolean column computes). */
  lemma HeadToHeadRateIsOverShare(records: seq<Record>, player: string, opponent: string, line: real, window: int)
    ensures var r := HeadToHeadOverRate(records, player, opponent, line, window);
      r.overRate.Some? ==>
        r.overRate.value == OverCount(HeadToHeadSelection(records, player, opponent, window), line) as real / r.count as real
  {
  }

  /** The rate is 0 exactly when no selected record is strictly over the
      line (a record equal to the line is not over), and 1 exactly when every
      one is. */
  lemma HeadToHeadRateExtremes(records: seq<Record>, player: string, opponent: string, line: real, window: int)
    requires HeadToHeadOverRate(records, player, opponent, line, window).count > 0
    ensures var selected := HeadToHeadSelection(records, player, opponent, window);
      var r := HeadToHeadOverRate(records, player, opponent, line, window);
      (r.overRate == Some(0.0) <==> forall i :: 0 <= i < |selected| ==> selected[i].stat as real <= line) &&
      (r.overRate == Some(1.0) <==> forall i :: 0 <= i < |selected| ==> selected[i].stat as real > line)
  {
    var selected := HeadToHeadSelection(records, player, opponent, window);
    Statistics.CountZeroIff(Stats(selected), x => x as real > line);
    Statistics.CountFullIff(Stats(selected), x => x as real > line);
  }

  /** For the same records and window, raising the line never raises the
      over-rate: the selection does not depend on the line, and every stat
      over the higher line is over the lower one. */
  lemma HeadToHeadRateFallsWithLine(records: seq<Record>, player: string, opponent: string, low: real, high: real, window: int)
    requires low <= high
    ensures var a := HeadToHeadOverRate(records, player, opponent, low, window);
      var b := HeadToHeadOverRate(records, player, opponent, high, window);
      a.count == b.count && (a.overRate.Some? ==> b.overRate.value <= a.overRate.value)
  {
    var selected := HeadToHeadSelection(records, player, opponent, window);
    if selected != [] {
      var xs := Stats(selected);
      Statistics.CountMonotone(xs, x => x as real > high, x => x as real > low);
      Statistics.FractionMonotone(OverCount(selected, high), OverCount(selected, low), |selected|);
    }
  }
}
