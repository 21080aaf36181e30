# VantagePoint feature engine, in Dafny

This project models the feature engine of VantagePoint (`src/features/engine.py`). The engine turns a table of per-map player records into the numbers an over/under prediction uses. It has three functions:

- `last15_features`: count, mean, median and sample standard deviation of a player's stat over their 15 most recent records.
- `head_to_head_over_rate`: the share of a player's most recent records against one opponent whose stat is strictly over a betting line.
- `map_mixture_expectation`: a walk over a map-pool row (map name to pick probability). It builds the per-map breakdown `{p, mu}` and accumulates `p * mu` and `p` over the maps where the player has a mean.

How the model represents the source:

- A record is `Records.Record(player, opponent, mapName, date, stat)`.
  - `date` is the timestamp as an integer.
  - `stat` is the column the caller picks (kills by default).
- The table is a sequence of records.
- pandas' NaN as a result is `Option.None`.
- Means, rates and probabilities are exact `real`s.
- The two summaries are pure, so they are functions with lemmas.
  - `sort_values('date', ascending=False).head(n)` is an insertion sort followed by pandas' `head` (including its negative-`n` reading).
  - The selection is specified only by properties that hold for any order among equal dates.
- `map_mixture_expectation` is a method `MapMixture.MapMixtureExpectation`.
  - Its loop updates the `results` map and the two accumulators in the source's order.
  - It skips what the source skips: the identifier columns, text that `float()` rejects, and numbers at most 0. It also skips NaN cells, which the source lets through; "## Findings" says why, and `MapMixture.RunAsWritten` models the loop as written.
  - The loop is proved against a fold `MapMixture.Run` of the row.
  - Lemmas then relate `Run` to a reference reading: the list of kept maps, with `WeightedSum` and `UsedMass` over it.

Modules:

- `Optional`: the option type.
- `Records`: the record and the three filters.
- `Recency`: sort and `head`.
- `Statistics`: sum, min/max, mean, median, count, fraction, variance.
- `FeatureEngine`: `last15_features` and `head_to_head_over_rate`.
- `DecimalText`: `float()` on a text cell.
- `MapMixture`: the mixture loop, its reference reading, and the loop as written with NaN cells.

The mixture result is not normalised. The code (engine.py:46-48) returns `exp_val`, Σ p·mu, and uses `total_p` only to detect that no map contributed. A probability-weighted mean would divide by `total_p`. `MapMixture.MixtureNotNormalised` shows the difference: 12 rather than 20.

## Model

| member | source | states |
|---|---|---|
| Records.OfPlayer | src/features/engine.py:6 | the player's rows are exactly the table's rows with that player, each with its multiplicity |
| Records.OfPairing | src/features/engine.py:19 | the rows kept are exactly those with both that player and that opponent, each with its multiplicity |
| Records.OnMap | src/features/engine.py:40 | the rows kept are exactly those with that player on that map |
| Recency.SortDescendingCorrect | src/features/engine.py:7 | sorting by date descending is a permutation of its input and is non-increasing in the date |
| Recency.Head | src/features/engine.py:7 | `head(n)` is the prefix of the length pandas keeps: min(n, len) rows for n >= 0, all but the last -n for n < 0 |
| Recency.NewestSelects | src/features/engine.py:7 | the sort-then-head selection has `head`'s length, is a sub-multiset of the input, and no row left out has a later date than a row kept, whatever the tie order |
| Statistics.MeanWithinRange | src/features/engine.py:12 | the mean of a non-empty column lies between its minimum and its maximum |
| Statistics.MeanTimesCount | src/features/engine.py:12 | the mean times the number of values is their total |
| Statistics.Median | src/features/engine.py:13 | the median (the middle value, or the average of the two middle values) lies between the minimum and the maximum |
| Statistics.MedianSplits | src/features/engine.py:13 | at least half of the values are at most the median, and at least half are at least the median |
| Statistics.SampleVariance | src/features/engine.py:14 | the Bessel-corrected variance, Σ(x − mean)² / (n − 1), is never negative |
| Statistics.VarianceTimesDegrees | src/features/engine.py:14 | the sample variance times n − 1 is the sum of the squared deviations from the mean (ddof=1) |
| Statistics.VariancePositive | src/features/engine.py:14 | one value away from the mean makes the sample variance positive |
| Statistics.VarianceZeroIffConstant | src/features/engine.py:14 | the sample variance is zero exactly when every value is the same |
| Statistics.Fraction | src/features/engine.py:23 | `part / whole` is in [0, 1], is 0 exactly when part is 0, and is 1 exactly when part is whole |
| Statistics.FractionTimesWhole | src/features/engine.py:23 | the fraction times the whole is the part |
| Statistics.FractionMonotone | src/features/engine.py:23 | a smaller part gives a smaller fraction of the same whole |
| Statistics.CountMonotone | src/features/engine.py:23 | a predicate implied by another holds for at least as many values |
| FeatureEngine.Last15Features | src/features/engine.py:5-16 | count is the size of the selection; with no rows every statistic is missing and with rows none is; one row gives spread exactly 0; the spread is never negative |
| FeatureEngine.Last15MissingIffNoHistory | src/features/engine.py:6-9 | count is 0, and each of mean, median and spread is missing, exactly when the player has no record; it is never 0 in place of missing |
| FeatureEngine.Last15SelectsNewest | src/features/engine.py:6-7 | the selection has min(15, player's records) rows, each of them one of the player's rows from the table, and none of the player's rows left out is newer than one kept |
| FeatureEngine.Last15Mean | src/features/engine.py:12 | the mean is the total of the selected stats over their number and lies between their minimum and maximum |
| FeatureEngine.Last15Median | src/features/engine.py:13 | the median lies between the selected minimum and maximum and splits the selected stats in halves |
| FeatureEngine.Last15SpreadZeroIffConstant | src/features/engine.py:14 | the spread is 0 exactly when every selected stat is equal (always for one row) |
| FeatureEngine.Last15SpreadIsSampleVariance | src/features/engine.py:14 | for two or more rows the spread is the sum of the squared deviations of the selected stats from their mean, divided by count − 1 |
| FeatureEngine.OverCount | src/features/engine.py:23 | the number of selected rows strictly over the line is at most the number selected |
| FeatureEngine.HeadToHeadOverRate | src/features/engine.py:18-24 | count is the size of the selection; the rate is missing exactly when the count is 0; a present rate is in [0, 1] |
| FeatureEngine.HeadToHeadSelects | src/features/engine.py:19-22 | count is what `head(window)` keeps of the matches; with a positive window the rate is missing exactly when nothing matches both player and opponent; kept rows match both; no match left out is newer than one kept |
| FeatureEngine.HeadToHeadRateIsOverShare | src/features/engine.py:23 | a present rate is the number of selected rows whose stat is strictly over the line, divided by the count |
| FeatureEngine.HeadToHeadRateExtremes | src/features/engine.py:23 | the rate is 0 exactly when no selected stat is strictly over the line (equal counts as not over), and 1 exactly when every one is |
| FeatureEngine.HeadToHeadRateFallsWithLine | src/features/engine.py:23 | raising the line keeps the count and never raises the rate |
| DecimalText.FractionValue | src/features/engine.py:35 | the digits after a decimal point are worth at least 0 and less than 1 |
| DecimalText.ParseShow | src/features/engine.py:35 | `float()` of a whole number's decimal notation is that number, and with a leading '-' its negation |
| DecimalText.NoDigitNoValue | src/features/engine.py:34-37 | a text without any digit (empty, a lone sign or point, a word) makes the model's `float()` raise, so the cell is skipped (the spellings `nan` and `inf` are not modelled; see "## Left out") |
| DecimalText.ParseUnsigned | src/features/engine.py:35 | a text without a sign never parses to a negative number |
| DecimalText.ParseDecimal | src/features/engine.py:35-39 | only a text with a leading '-' parses to a negative number, which the `p <= 0` guard then skips |
| MapMixture.ToFloat | src/features/engine.py:34-37 | the model's `float()` raises only on text that is not a decimal number; only an empty (NaN) cell gives NaN (the text `nan` is not modelled; see "## Left out"); a negative value comes from a number cell or from text with a leading '-' |
| MapMixture.Probability | src/features/engine.py:34-39 | a cell is kept exactly when `float()` succeeds and gives a finite value above 0, and the kept value is that value |
| MapMixture.MapMean | src/features/engine.py:40-41 | the per-map mean is missing exactly when the player has no record on that map |
| MapMixture.Step | src/features/engine.py:31-45 | a skipped item changes nothing; a kept one sets its name's entry to its `p` and the player's mean, leaves every other entry, and never lowers `total_p` |
| MapMixture.Run | src/features/engine.py:28-45 | after any prefix of the row `total_p` is not negative and every `per_map` key is a map name with a positive `p` |
| MapMixture.Accumulate | src/features/engine.py:43-45 | a present mean adds `p * mu` to `exp_val` and `p` to `total_p`; a missing one adds nothing |
| MapMixture.MapMixtureExpectation | src/features/engine.py:26-48 | the loop's `per_map` and result are those of the fold `Run` over the row; every `per_map` key is a map name (not `match_id`/`team`) with a positive `p` |
| MapMixture.RunSums | src/features/engine.py:43-45 | after the loop `exp_val` is Σ p·mu and `total_p` is Σ p, both over the kept maps whose mean is present |
| MapMixture.RunPerMap | src/features/engine.py:42 | `per_map` holds exactly the names of the kept maps, each with one of that name's kept entries |
| MapMixture.KeptMapsAre | src/features/engine.py:31-42 | a map is kept exactly when its name is not `match_id`/`team` and its cell is a positive number; its entry is that number and the player's mean on the map |
| MapMixture.RunKeepsEntries | src/features/engine.py:32-42 | no `per_map` entry has an identifier key or a probability <= 0, and each entry's `mu` is the player's mean on that map |
| MapMixture.PerMapKeys | src/features/engine.py:31-42 | a name is a `per_map` key exactly when it is not an identifier and some item of the row carries it with a kept cell |
| MapMixture.PerMapLastWins | src/features/engine.py:42 | a kept item's name maps to that item's `p` and the player's mean on the map unless a later item of the same name is kept; so a repeated name keeps its last entry |
| MapMixture.UsedMassPositive | src/features/engine.py:45-46 | with positive probabilities the accumulated probability is not negative, and is 0 exactly when no entry has a mean |
| MapMixture.MixtureIsUnnormalisedSum | src/features/engine.py:43-48 | the result is missing exactly when no `per_map` entry has a mean; otherwise it is Σ p·mu over the kept maps with a mean, not divided by Σ p |
| MapMixture.MixtureNotNormalised | src/features/engine.py:46-48 | {Ascent: 0.6, Bind: 0.4} with one Ascent record of 20 gives 12, whereas dividing by `total_p` would give 20 |
| MapMixture.GuardAsWritten | src/features/engine.py:34-39 | the guard as written keeps every cell `Probability` keeps, and NaN cells besides; only the NaN cell parses to NaN |
| MapMixture.StepAsWritten | src/features/engine.py:31-45 | NaN accumulators stay NaN; a clean state meets NaN exactly at a NaN cell on a map where the player has a mean; every other cell is handled as `Step` handles it |
| MapMixture.RunAsWritten | src/features/engine.py:28-45 | while the accumulators are not NaN the state is the model's tally; they become NaN only through a NaN cell on a map where the player has a mean |
| MapMixture.PoisonedIffNaNOnPlayedMap | src/features/engine.py:38-45 | as written the accumulators end NaN exactly when the row has a NaN cell on a map where the player has a mean |
| MapMixture.RunAsWrittenWithoutNaN | src/features/engine.py:31-45 | on a row without NaN cells the loop as written goes through the same states as the model's loop |
| MapMixture.AsWrittenAgreesWithoutNaN | src/features/engine.py:31-48 | on a row without NaN cells the result as written is the model's result |
| MapMixture.NaNCellPoisons | src/features/engine.py:38-45 | as written, one NaN cell on a map where the player has a mean makes both accumulators NaN |
| MapMixture.NaNCellHidesMixture | src/features/engine.py:38-48 | as written, {Ascent: 0.6, Bind: NaN} with records on both maps gives a missing result, whereas skipping the NaN cell gives 0.6 · 20 = 12 |

## Left out

- Floating point: means, rates, probabilities and the accumulators are exact reals, so rounding and the order of float additions are not modelled. The only float value kept is NaN in a map-pool cell, for the finding below.
- Last15Features: gives the spread as the sample variance, because the square root is not modelled. The variance is the square of `std(ddof=1)`, so it is 0 exactly when `std` is 0.
- The `stat` argument is folded into the record: each record carries the selected column's value as an integer. NaN inside the stat column, which pandas' `mean` would skip, is not modelled.
- Tie order: pandas does not fix the order of rows with equal dates. The model sorts with its own tie order, and every selection property is stated so that it holds for any tie order. Null dates, which pandas sorts last, are not modelled: dates are integers.
- Last15Features: the empty-history result of the source also carries an `'over_rate': NaN` key that the non-empty result lacks; the model's result has no such field.
- Dictionary keys: the `h2h_count`/`h2h_over_rate` and `count`/`mean`/`median`/`std` key names become datatype fields. The insertion order of `per_map` is not modelled: it is a map.
- `float()` on text: the model parses an optional sign, digits and an optional decimal point. Surrounding whitespace, exponents, underscores and the spellings `inf` and `nan` are not modelled. Infinite numeric cells are not modelled either.
- Pandas Series: `map_pool_row` is a sequence of (name, cell) pairs. A cell is a number, NaN or text.
- MapMixture.StepAsWritten: the as-written state models the accumulators, not the source's `per_map`. A NaN cell adds an entry with `p` NaN to the source's `per_map`, which the as-written state leaves out.
- MapMixture.RunAsWritten: once the accumulators are NaN the as-written state keeps no `per_map` at all, although the source goes on adding entries for later maps. Only the result is compared with the model's.
- Defaults: `stat='kills'` and `window=10` are the callers' defaults. The model takes the window as an argument; the caller picks the stat when building the records, whose `stat` field holds that column.
- The rest of the repository is not part of this model: the dashboard (`src/app/streamlit_app.py`), training (`src/models/train.py`), CSV loading (`src/ingest/vlr.py`, `src/ingest/prizepicks.py`) and the alias tables (`src/utils/aliases.py`).

## Findings

| source | as written | input that shows it | evidently intended | confidence | as-written member | corrected member |
|---|---|---|---|---|---|---|
| src/features/engine.py:38-45 | `if p <= 0: continue` lets a NaN probability through, because a comparison with NaN is false; `exp_val += p * mu` and `total_p += p` then become NaN, `total_p == 0` is false, and NaN is returned | map-pool row {Ascent: 0.6, Bind: empty cell (NaN)}, player with a record on each map: the result is NaN (missing) although Ascent contributed | a cell without a probability is skipped like a non-positive one, so the result is Σ p·mu over the maps that have a probability (0.6 · 20 = 12 here) | medium, not executed | MapMixture.NaNCellHidesMixture | MapMixture.MapMixtureExpectation |
