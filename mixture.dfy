/** `map_mixture_expectation`: walk a map-pool row (map name to pick
    probability), record each kept map's probability and the player's mean on
    it, and accumulate `p * mu` and `p` over the maps where that mean exists.
    The result is the accumulated sum itself, not divided by the accumulated
    probability, which only decides whether any map contributed. */
module MapMixture {
  import opened Optional
  import opened Records
  import Statistics
  import DecimalText

  /** A value of the map-pool row as pandas holds it: a number, NaN (an
      empty cell of the table), or text. */
  datatype Cell = Number(x: real) | NotANumber | Text(s: string)

  /** A Python float: a finite value or NaN. */
  datatype Float = Finite(v: real) | NaN

  /** One item of `map_pool_row.items()`. */
  type Row = seq<(string, Cell)>

  /** `float(p)`, or `None` where it raises: only text that is not a
      decimal number raises, and only an empty cell is NaN. */
  function ToFloat(c: Cell): (r: Option<Float>)
    ensures r.None? <==> c.Text? && DecimalText.ParseDecimal(c.s).None?
    ensures r == Some(NaN) <==> c.NotANumber?
    ensures r.Some? && r.value.Finite? && r.value.v < 0.0 ==> c.Number? || c.s[0] == '-'
  {
    match c
    case Number(x) => Some(Finite(x))
    case NotANumber => Some(NaN)
    case Text(s) =>
      match DecimalText.ParseDecimal(s)
      case Some(x) => Some(Finite(x))
      case None => None
  }

  /** The identifier columns the loop skips. */
  predicate IsReserved(key: string) { key == "match_id" || key == "team" }

  /** The probability the loop keeps for a cell, `None` for a cell it skips:
      one that does not parse, or that is not a positive number. */
  function Probability(c: Cell): (p: Option<real>)
    ensures p.Some? <==> ToFloat(c).Some? && ToFloat(c).value.Finite? && ToFloat(c).value.v > 0.0
    ensures p.Some? ==> ToFloat(c) == Some(Finite(p.value))
  {
    match ToFloat(c)
    case Some(Finite(x)) => if x > 0.0 then Some(x) else None
    case _ => None
  }

  /** The player's mean stat on a map over the whole table, missing when the
      player has no record there. */
  function MapMean(records: seq<Record>, player: string, mapName: string): (mu: Option<real>)
    ensures mu.None? <==> forall x :: x in records ==> !(x.player == player && x.mapName == mapName)
  {
    var onMap := OnMap(records, player, mapName);
    if onMap == [] then None
    else
      assert onMap[0] in onMap;
      Some(Statistics.Mean(Stats(onMap)))
  }

  /** One entry of `per_map`. */
  datatype MapEntry = MapEntry(p: real, mu: Option<real>)

  /** What an entry adds to `exp_val`: `p * mu`, or nothing when `mu` is missing. */
  function Weight(e: MapEntry): real {
    if e.mu.Some? then e.p * e.mu.value else 0.0
  }

  /** What an entry adds to `total_p`: `p`, or nothing when `mu` is missing. */
  function Mass(e: MapEntry): real {
    if e.mu.Some? then e.p else 0.0
  }

  /** The loop's state: the `results` dict and the accumulators `exp_val`
      and `total_p`. */
  datatype Tally = Tally(perMap: map<string, MapEntry>, expVal: real, totalP: real)

  const Start := Tally(map[], 0.0, 0.0)

  /** One iteration of the loop: a skipped item changes nothing; a kept one
      sets its name's entry to its probability and the player's mean on the
      map, leaves every other entry as it was, and never lowers `total_p`. */
  function Step(records: seq<Record>, player: string, t: Tally, item: (string, Cell)): (r: Tally)
    ensures IsReserved(item.0) || Probability(item.1).None? ==> r == t
    ensures !IsReserved(item.0) && Probability(item.1).Some? ==>
      r.perMap == t.perMap[item.0 := MapEntry(Probability(item.1).value, MapMean(records, player, item.0))]
    ensures r.totalP >= t.totalP
  {
    var (key, cell) := item;
    if IsReserved(key) then t
    else
      match Probability(cell)
      case None => t
      case Some(p) =>
        var e := MapEntry(p, MapMean(records, player, key));
        Tally(t.perMap[key := e], t.expVal + Weight(e), t.totalP + Mass(e))
  }

  /** The state after the loop has walked `row`: `total_p` is never
      negative, and every `per_map` entry is a map name with a positive
      probability. */
  function Run(records: seq<Record>, player: string, row: Row): (t: Tally)
    ensures t.totalP >= 0.0
    ensures forall k :: k in t.perMap ==> !IsReserved(k) && t.perMap[k].p > 0.0
  {
    if row == [] then Start
    else Step(records, player, Run(records, player, row[..|row| - 1]), row[|row| - 1])
  }

  /** The function's `map_mixture_mu`: missing when no map contributed. */
  function Mixture(t: Tally): Option<real> {
    if t.totalP == 0.0 then None else Some(t.expVal)
  }

  /** `if not np.isnan(mu): exp_val += p * mu; total_p += p`. */
  method Accumulate(expVal: real, totalP: real, p: real, mu: Option<real>) returns (expVal': real, totalP': real)
    ensures expVal' == expVal + Weight(MapEntry(p, mu))
    ensures totalP' == totalP + Mass(MapEntry(p, mu))
  {
    expVal', totalP' := expVal, totalP;
    if mu.Some? {
      expVal' := expVal + p * mu.value;
      totalP' := totalP + p;
    }
  }

  /** `map_mixture_expectation(player_maps, player, map_pool_row)`: the
      mixture value and `per_map`. */
  method MapMixtureExpectation(records: seq<Record>, player: string, row: Row)
    returns (mixture: Option<real>, perMap: map<string, MapEntry>)
    ensures perMap == Run(records, player, row).perMap
    ensures mixture == Mixture(Run(records, player, row))
    ensures forall k :: k in perMap ==> !IsReserved(k) && perMap[k].p > 0.0
  {
    var results: map<string, MapEntry> := map[];
    var expVal := 0.0;
    var totalP := 0.0;
    for i := 0 to |row|
      invariant Tally(results, expVal, totalP) == Run(records, player, row[..i])
    {
      assert row[..i + 1][..i] == row[..i];
      var (key, cell) := row[i];
      if IsReserved(key) {
        continue;
      }
      var p := Probability(cell);
      if p.None? {
        continue;
      }
      var mu := MapMean(records, player, key);
      results := results[key := MapEntry(p.value, mu)];
      expVal, totalP := Accumulate(expVal, totalP, p.value, mu);
    }
    assert row[..|row|] == row;
    if totalP == 0.0 {
      mixture := None;
    } else {
      mixture := Some(expVal);
    }
    perMap := results;
    RunKeepsEntries(records, player, row);
  }

  // ---------------------------------------------------------------------
  // A reference reading of the loop: the list of the row's kept maps, and
  // the two sums over it.

  /** The `per_map` entry an item of the row contributes: none for a skipped item. */
  function Kept(records: seq<Record>, player: string, item: (string, Cell)): seq<(string, MapEntry)> {
    if IsReserved(item.0) then []
    else
      match Probability(item.1)
      case None => []
      case Some(p) => [(item.0, MapEntry(p, MapMean(records, player, item.0)))]
  }

  /** The kept maps of a row, in row order. */
  function KeptMaps(records: seq<Record>, player: string, row: Row): seq<(string, MapEntry)> {
    if row == [] then [] else Kept(records, player, row[0]) + KeptMaps(records, player, row[1..])
  }

  /** The sum of `p * mu` over the entries whose `mu` is present. */
  function WeightedSum(entries: seq<(string, MapEntry)>): real {
    if entries == [] then 0.0 else Weight(entries[0].1) + WeightedSum(entries[1..])
  }

  /** The sum of `p` over the entries whose `mu` is present. */
  function UsedMass(entries: seq<(string, MapEntry)>): real {
    if entries == [] then 0.0 else Mass(entries[0].1) + UsedMass(entries[1..])
  }

  lemma {:induction false} KeptMapsAppend(records: seq<Record>, player: string, row: Row, item: (string, Cell))
    ensures KeptMaps(records, player, row + [item]) == KeptMaps(records, player, row) + Kept(records, player, item)
  {
    if row == [] {
      assert [item][1..] == [];
    } else {
      assert (row + [item])[1..] == row[1..] + [item];
      KeptMapsAppend(records, player, row[1..], item);
    }
  }

  lemma {:induction false} SumsAppend(a: seq<(string, MapEntry)>, b: seq<(string, MapEntry)>)
    ensures WeightedSum(a + b) == WeightedSum(a) + WeightedSum(b)
    ensures UsedMass(a + b) == UsedMass(a) + UsedMass(b)
  {
    if a == [] {
      assert a + b == b;
    } else {
      assert (a + b)[0] == a[0];
      assert (a + b)[1..] == a[1..] + b;
      SumsAppend(a[1..], b);
    }
  }

  /** The accumulators are the two sums over the kept maps. */
  lemma {:induction false} RunSums(records: seq<Record>, player: string, row: Row)
    ensures Run(records, player, row).expVal == WeightedSum(KeptMaps(records, player, row))
    ensures Run(records, player, row).totalP == UsedMass(KeptMaps(records, player, row))
  {
    if row != [] {
      var front, last := row[..|row| - 1], row[|row| - 1];
      assert row == front + [last];
      RunSums(records, player, front);
      KeptMapsAppend(records, player, front, last);
      var more := Kept(records, player, last);
      SumsAppend(KeptMaps(records, player, front), more);
      if more != [] {
        assert more[1..] == [];
      }
    }
  }

  /** `per_map` holds exactly the kept maps' names, each with one of its kept
      entries (`PerMapLastWins` says which). */
  lemma {:induction false} RunPerMap(records: seq<Record>, player: string, row: Row)
    ensures forall k :: k in Run(records, player, row).perMap <==>
      exists e :: e in KeptMaps(records, player, row) && e.0 == k
    ensures forall k :: k in Run(records, player, row).perMap ==>
      (k, Run(records, player, row).perMap[k]) in KeptMaps(records, player, row)
  {
    if row != [] {
      var front, last := row[..|row| - 1], row[|row| - 1];
      assert row == front + [last];
      RunPerMap(records, player, front);
      KeptMapsAppend(records, player, front, last);
      var before := Run(records, player, front).perMap;
      var earlier := KeptMaps(records, player, front);
      var more := Kept(records, player, last);
      var perMap := Run(records, player, row).perMap;
      var kept := KeptMaps(records, player, row);
      assert kept == earlier + more;
      if more == [] {
        assert perMap == before;
        assert kept == earlier;
      } else {
        var added := more[0];
        assert more == [added];
        assert perMap == before[added.0 := added.1];
        assert added in kept;
        forall k | k in perMap ensures (k, perMap[k]) in kept {
          if k != added.0 {
            assert k in before;
            assert (k, before[k]) in earlier;
          }
        }
        forall k | exists e :: e in kept && e.0 == k ensures k in perMap {
          var e :| e in kept && e.0 == k;
          if e != added {
            assert e in earlier;
            assert k in before;
          }
        }
        forall k | k in perMap ensures exists e :: e in kept && e.0 == k {
          assert (k, perMap[k]) in kept;
        }
      }
    }
  }

  /** Item `i` of the row is kept, with entry `e`. */
  predicate KeptAt(records: seq<Record>, player: string, row: Row, i: int, e: (string, MapEntry)) {
    0 <= i < |row| && row[i].0 == e.0 && !IsReserved(e.0) &&
    Probability(row[i].1) == Some(e.1.p) && e.1.mu == MapMean(records, player, e.0)
  }

  /** Which maps are kept: an item is kept exactly when its name is not an
      identifier column and its cell is a positive number, and its entry is
      that number and the player's mean on the map. */
  lemma {:induction false} KeptMapsAre(records: seq<Record>, player: string, row: Row, e: (string, MapEntry))
    ensures e in KeptMaps(records, player, row) <==> exists i :: KeptAt(records, player, row, i, e)
  {
    if row != [] {
      KeptMapsAre(records, player, row[1..], e);
      var rest := KeptMaps(records, player, row[1..]);
      assert KeptMaps(records, player, row) == Kept(records, player, row[0]) + rest;
      if exists i :: KeptAt(records, player, row, i, e) {
        var i :| KeptAt(records, player, row, i, e);
        if i > 0 {
          assert row[1..][i - 1] == row[i];
          assert KeptAt(records, player, row[1..], i - 1, e);
        } else {
          assert Kept(records, player, row[0]) == [(e.0, MapEntry(e.1.p, e.1.mu))];
        }
      }
      if e in Kept(records, player, row[0]) {
        assert KeptAt(records, player, row, 0, e);
      }
      if e in rest {
        var i :| KeptAt(records, player, row[1..], i, e);
        assert row[i + 1] == row[1..][i];
        assert KeptAt(records, player, row, i + 1, e);
      }
    }
  }

  /** Every `per_map` entry belongs to a kept map: its name is not an
      identifier column, its probability is positive, and its mean is the
      player's mean on that map. */
  lemma RunKeepsEntries(records: seq<Record>, player: string, row: Row)
    ensures var perMap := Run(records, player, row).perMap;
      forall k :: k in perMap ==> !IsReserved(k) && perMap[k].p > 0.0 && perMap[k].mu == MapMean(records, player, k)
  {
    var perMap := Run(records, player, row).perMap;
    RunPerMap(records, player, row);
    forall k | k in perMap ensures !IsReserved(k) && perMap[k].p > 0.0 && perMap[k].mu == MapMean(records, player, k) {
      KeptMapsAre(records, player, row, (k, perMap[k]));
      var i :| KeptAt(records, player, row, i, (k, perMap[k]));
    }
  }

  /** A map name is in `per_map` exactly when some item of the row carries it
      with a cell that is a positive number, and it is not an identifier
      column. */
  lemma PerMapKeys(records: seq<Record>, player: string, row: Row, k: string)
    ensures k in Run(records, player, row).perMap <==>
      !IsReserved(k) && exists i :: 0 <= i < |row| && row[i].0 == k && Probability(row[i].1).Some?
  {
    RunPerMap(records, player, row);
    var kept := KeptMaps(records, player, row);
    if k in Run(records, player, row).perMap {
      var e :| e in kept && e.0 == k;
      KeptMapsAre(records, player, row, e);
      var i :| KeptAt(records, player, row, i, e);
    }
    if !IsReserved(k) && exists i :: 0 <= i < |row| && row[i].0 == k && Probability(row[i].1).Some? {
      var i :| 0 <= i < |row| && row[i].0 == k && Probability(row[i].1).Some?;
      var e := (k, MapEntry(Probability(row[i].1).value, MapMean(records, player, k)));
      assert KeptAt(records, player, row, i, e);
      KeptMapsAre(records, player, row, e);
    }
  }

  /** A repeated map name keeps its last entry: the `per_map` entry of a
      kept item's name is that item's probability and the player's mean on
      the map, unless a later item of the same name is kept too. */
  lemma {:induction false} PerMapLastWins(records: seq<Record>, player: string, row: Row, i: nat)
    requires i < |row| && !IsReserved(row[i].0) && Probability(row[i].1).Some?
    requires forall j :: i < j < |row| && row[j].0 == row[i].0 ==> Probability(row[j].1).None?
    ensures var perMap := Run(records, player, row).perMap;
      row[i].0 in perMap &&
      perMap[row[i].0] == MapEntry(Probability(row[i].1).value, MapMean(records, player, row[i].0))
  {
    var front := row[..|row| - 1];
    if i < |row| - 1 {
      assert front[i] == row[i];
      forall j | i < j < |front| && front[j].0 == front[i].0 ensures Probability(front[j].1).None? {
        assert front[j] == row[j];
      }
      PerMapLastWins(records, player, front, i);
    }
  }

  lemma {:induction false} UsedMassPositive(entries: seq<(string, MapEntry)>)
    requires forall e :: e in entries ==> e.1.p > 0.0
    ensures UsedMass(entries) >= 0.0
    ensures UsedMass(entries) == 0.0 <==> forall e :: e in entries ==> e.1.mu.None?
  {
    if entries != [] {
      assert forall e :: e in entries[1..] ==> e in entries;
      UsedMassPositive(entries[1..]);
      assert forall e :: e in entries ==> e == entries[0] || e in entries[1..];
    }
  }

  /** The mixture is missing exactly when no kept map has a mean for the
      player; otherwise it is the sum of `p * mu` over the kept maps that
      have one, with no division by their total probability. */
  lemma MixtureIsUnnormalisedSum(records: seq<Record>, player: string, row: Row)
    ensures var t := Run(records, player, row);
      var kept := KeptMaps(records, player, row);
      (Mixture(t).None? <==> forall k :: k in t.perMap ==> t.perMap[k].mu.None?) &&
      (Mixture(t).Some? ==> Mixture(t).value == WeightedSum(kept))
  {
    var t := Run(records, player, row);
    var kept := KeptMaps(records, player, row);
    RunPerMap(records, player, row);
    RunSums(records, player, row);
    forall e | e in kept ensures e.1.p > 0.0 {
      KeptMapsAre(records, player, row, e);
      var i :| KeptAt(records, player, row, i, e);
    }
    UsedMassPositive(kept);
    if forall k :: k in t.perMap ==> t.perMap[k].mu.None? {
      forall e | e in kept ensures e.1.mu.None? {
        KeptMapsAre(records, player, row, e);
        var i :| KeptAt(records, player, row, i, e);
        assert e.0 in t.perMap;
        assert t.perMap[e.0].mu == MapMean(records, player, e.0) by {
          RunKeepsEntries(records, player, row);
        }
      }
    }
  }

  // ---------------------------------------------------------------------
  // The loop as written. A NaN cell (an empty cell of the map-pool table)
  // passes `if p <= 0: continue`, because every comparison with NaN is
  // false; on a map where the player has a mean, `exp_val += p * mu` and
  // `total_p += p` then make both accumulators NaN, and NaN stays NaN under
  // every later addition.

  /** The cells the loop as written keeps: `float(p)` does not raise, and
      `p <= 0` is false. */
  predicate PassesGuardAsWritten(c: Cell) {
    ToFloat(c).Some? && !(ToFloat(c).value.Finite? && ToFloat(c).value.v <= 0.0)
  }

  /** The guard as written keeps what `Probability` keeps, and NaN besides. */
  lemma GuardAsWritten(c: Cell)
    ensures PassesGuardAsWritten(c) <==> Probability(c).Some? || ToFloat(c) == Some(NaN)
    ensures ToFloat(c) == Some(NaN) <==> c.NotANumber?
  {
    if c.Text? {
      match DecimalText.ParseDecimal(c.s)
      case Some(x) =>
      case None =>
    }
  }

  /** The loop's state as written: the model's tally, or NaN accumulators
      once a NaN probability has met a map with a mean. */
  datatype StateAsWritten = Clean(t: Tally) | Poisoned

  /** One iteration of the loop as written. A kept NaN cell on a map where
      the player has a mean makes `exp_val` and `total_p` NaN; NaN stays NaN
      under every later addition; every other cell is handled as `Step`
      handles it. */
  function StepAsWritten(records: seq<Record>, player: string, s: StateAsWritten, item: (string, Cell)): (r: StateAsWritten)
    ensures s.Poisoned? ==> r.Poisoned?
    ensures s.Clean? && !item.1.NotANumber? ==> r == Clean(Step(records, player, s.t, item))
    ensures s.Clean? && r.Poisoned? <==>
      s.Clean? && item.1.NotANumber? && !IsReserved(item.0) && MapMean(records, player, item.0).Some?
    ensures r.Clean? ==> r.t == Step(records, player, s.t, item)
  {
    var (key, cell) := item;
    match s
    case Poisoned => Poisoned
    case Clean(t) =>
      if !IsReserved(key) && ToFloat(cell) == Some(NaN) then
        if MapMean(records, player, key).Some? then Poisoned else s
      else Clean(Step(records, player, t, item))
  }

  /** The state after the loop as written has walked `row`: while it is not
      poisoned it is the model's tally, and it is poisoned only by a NaN
      cell on a map where the player has a mean. */
  function RunAsWritten(records: seq<Record>, player: string, row: Row): (r: StateAsWritten)
    ensures r.Clean? ==> r.t == Run(records, player, row)
    ensures r.Poisoned? ==> exists i :: 0 <= i < |row| && PoisonsAt(records, player, row, i)
  {
    if row == [] then Clean(Start)
    else
      var front := row[..|row| - 1];
      var before := RunAsWritten(records, player, front);
      var r := StepAsWritten(records, player, before, row[|row| - 1]);
      assert r.Poisoned? && before.Poisoned? ==> exists i :: 0 <= i < |row| && PoisonsAt(records, player, row, i) by {
        if r.Poisoned? && before.Poisoned? {
          var i :| 0 <= i < |front| && PoisonsAt(records, player, front, i);
          assert front[i] == row[i];
          assert PoisonsAt(records, player, row, i);
        }
      }
      assert r.Poisoned? && before.Clean? ==> PoisonsAt(records, player, row, |row| - 1);
      r
  }

  /** Item `i` of the row is a NaN cell on a map where the player has a mean. */
  predicate PoisonsAt(records: seq<Record>, player: string, row: Row, i: int) {
    0 <= i < |row| && row[i].1.NotANumber? && !IsReserved(row[i].0) && MapMean(records, player, row[i].0).Some?
  }

  /** The result as written: `total_p == 0` is false for a NaN `total_p`, so
      the NaN `exp_val` is returned, and NaN is the missing value. */
  function MixtureAsWritten(s: StateAsWritten): Option<real> {
    match s
    case Poisoned => None
    case Clean(t) => Mixture(t)
  }

  /** Without NaN cells the loop as written computes what the model does. */
  lemma RunAsWrittenWithoutNaN(records: seq<Record>, player: string, row: Row)
    requires forall i :: 0 <= i < |row| ==> row[i].1 != NotANumber
    ensures RunAsWritten(records, player, row) == Clean(Run(records, player, row))
  {
  }

  /** A NaN cell on a map where the player has a mean makes the result as
      written missing, whatever the other maps contribute. */
  lemma {:induction false} NaNCellPoisons(records: seq<Record>, player: string, row: Row, i: nat)
    requires i < |row| && row[i].1 == NotANumber && !IsReserved(row[i].0)
    requires MapMean(records, player, row[i].0).Some?
    ensures RunAsWritten(records, player, row) == Poisoned
  {
    var front := row[..|row| - 1];
    if i < |row| - 1 {
      assert front[i] == row[i];
      NaNCellPoisons(records, player, front, i);
    }
  }

  /** The loop as written ends poisoned exactly when the row has a NaN cell
      on a map where the player has a mean. */
  lemma PoisonedIffNaNOnPlayedMap(records: seq<Record>, player: string, row: Row)
    ensures RunAsWritten(records, player, row).Poisoned? <==>
      exists i :: 0 <= i < |row| && PoisonsAt(records, player, row, i)
  {
    if exists i :: 0 <= i < |row| && PoisonsAt(records, player, row, i) {
      var i :| 0 <= i < |row| && PoisonsAt(records, player, row, i);
      NaNCellPoisons(records, player, row, i);
    }
  }

  lemma AsWrittenAgreesWithoutNaN(records: seq<Record>, player: string, row: Row)
    requires forall i :: 0 <= i < |row| ==> row[i].1 != NotANumber
    ensures MixtureAsWritten(RunAsWritten(records, player, row)) == Mixture(Run(records, player, row))
  {
    RunAsWrittenWithoutNaN(records, player, row);
  }

  lemma MeanOfOne(x: int)
    ensures Statistics.Mean([x]) == x as real
  {
    assert Statistics.Sum([x]) == x;
  }

  /** A NaN cell hides every other map's contribution: as written the result
      is missing, while skipping the NaN cell gives `0.6 * 20`. */
  lemma NaNCellHidesMixture()
    ensures var records := [Record("ana", "rival", "Ascent", 1, 20), Record("ana", "rival", "Bind", 2, 10)];
      var row := [("Ascent", Number(0.6)), ("Bind", NotANumber)];
      MixtureAsWritten(RunAsWritten(records, "ana", row)) == None &&
      Mixture(Run(records, "ana", row)) == Some(12.0)
  {
    var records := [Record("ana", "rival", "Ascent", 1, 20), Record("ana", "rival", "Bind", 2, 10)];
    var row := [("Ascent", Number(0.6)), ("Bind", NotANumber)];
    assert OnMap(records, "ana", "Ascent") == [records[0]];
    assert OnMap(records, "ana", "Bind") == [records[1]];
    assert Stats([records[0]]) == [20];
    assert Stats([records[1]]) == [10];
    MeanOfOne(20);
    MeanOfOne(10);
    assert MapMean(records, "ana", "Ascent") == Some(20.0);
    assert MapMean(records, "ana", "Bind") == Some(10.0);
    assert row[..1] == [row[0]];
    assert [row[0]][..0] == [];
    var first := Tally(map["Ascent" := MapEntry(0.6, Some(20.0))], 12.0, 0.6);
    assert Run(records, "ana", row[..1]) == first;
    assert Run(records, "ana", row) == first;
    assert RunAsWritten(records, "ana", row[..1]) == Clean(first);
    NaNCellPoisons(records, "ana", row, 1);
  }

  /** The result is not the probability-weighted mean of the per-map means:
      a player seen only on Ascent, at 20, gets `0.6 * 20 = 12`, although
      dividing by `total_p` would give 20. */
  lemma MixtureNotNormalised()
    ensures var records := [Record("ana", "rival", "Ascent", 1, 20)];
      var row := [("Ascent", Number(0.6)), ("Bind", Number(0.4))];
      var t := Run(records, "ana", row);
      Mixture(t) == Some(12.0) && t.expVal / t.totalP == 20.0
  {
    var records := [Record("ana", "rival", "Ascent", 1, 20)];
    var row := [("Ascent", Number(0.6)), ("Bind", Number(0.4))];
    assert OnMap(records, "ana", "Ascent") == records;
    assert OnMap(records, "ana", "Bind") == [];
    assert Stats(records) == [20];
    MeanOfOne(20);
    assert MapMean(records, "ana", "Ascent") == Some(20.0);
    assert MapMean(records, "ana", "Bind") == None;
    assert row[..1] == [row[0]];
    assert [row[0]][..0] == [];
    var first := Tally(map["Ascent" := MapEntry(0.6, Some(20.0))], 12.0, 0.6);
    assert Run(records, "ana", row[..1]) == first;
    var t := Run(records, "ana", row);
    assert t.expVal == 12.0 && t.totalP == 0.6;
  }
}
