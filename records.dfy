/** The per-map player records the feature engine reads (one row of the
    player-map table), and the record selections shared by its functions. */
module Records {

  /** One player's statistic on one map of one match. `stat` is the column the
      caller selects (kills by default); `date` is the match timestamp. */
  datatype Record = Record(player: string, opponent: string, mapName: string, date: int, stat: int)

  /** `player_maps['player'] == player`, keeping table order. */
  function OfPlayer(records: seq<Record>, player: string): (r: seq<Record>)
    ensures |r| <= |records|
    ensures forall x :: x in r <==> x in records && x.player == player
    ensures forall x :: multiset(r)[x] == if x.player == player then multiset(records)[x] else 0
  {
    if records == [] then []
    else
      assert records == [records[0]] + records[1..];
      (if records[0].player == player then [records[0]] else []) + OfPlayer(records[1..], player)
  }

  /** `(player == player) & (opponent == opponent)`, keeping table order. */
  function OfPairing(records: seq<Record>, player: string, opponent: string): (r: seq<Record>)
    ensures |r| <= |records|
    ensures forall x :: x in r <==> x in records && x.player == player && x.opponent == opponent
    ensures forall x :: multiset(r)[x] ==
              if x.player == player && x.opponent == opponent then multiset(records)[x] else 0
  {
    if records == [] then []
    else
      assert records == [records[0]] + records[1..];
      (if records[0].player == player && records[0].opponent == opponent then [records[0]] else [])
      + OfPairing(records[1..], player, opponent)
  }

  /** `(player == player) & (map_name == map_name)`, keeping table order. */
  function OnMap(records: seq<Record>, player: string, mapName: string): (r: seq<Record>)
    ensures |r| <= |records|
    ensures forall x :: x in r <==> x in records && x.player == player && x.mapName == mapName
    ensures forall x :: multiset(r)[x] ==
              if x.player == player && x.mapName == mapName then multiset(records)[x] else 0
  {
    if records == [] then []
    else
      assert records == [records[0]] + records[1..];
      (if records[0].player == player && records[0].mapName == mapName then [records[0]] else [])
      + OnMap(records[1..], player, mapName)
  }

  /** The selected stat column of a selection, in the same order. */
  function Stats(records: seq<Record>): (xs: seq<int>)
    ensures |xs| == |records|
    ensures forall i :: 0 <= i < |records| ==> xs[i] == records[i].stat
  {
    if records == [] then [] else [records[0].stat] + Stats(records[1..])
  }
}
