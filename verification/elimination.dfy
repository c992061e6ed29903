/**
 * The elimination end condition: a table of how many pieces of each (team, kind)
 * remain to be eliminated, and a snapshot of the pieces seen at the last
 * evaluation. A team loses once its remaining counts add up to zero or less.
 */
module EndConditions {
  import opened Pieces

  /** The result of an evaluation; the source's `null` is `Running`. */
  datatype GameState = Running | Ended(loser: string)

  /** A key of the table, (team, kind); the source writes it as "team_kind". */
  type Key = (string, string)

  function KeyOf(p: Piece): Key
  {
    (p.team, p.name)
  }

  /** The teams of the given pieces. */
  function TeamsOf(pieces: seq<Piece>): set<string>
  {
    set p | p in pieces :: p.team
  }

  /** The teams that own a key of the table. */
  function Teams(table: map<Key, int>): set<string>
  {
    set k | k in table :: k.0
  }

  /** `p` is among `alive`, by identity. */
  predicate Present(p: Piece, alive: seq<Piece>)
  {
    exists q :: q in alive && SamePiece(p, q)
  }

  /** Table after one missing piece is logged: its own key loses one, if the key is tracked. */
  function Decrement(table: map<Key, int>, missing: Piece): (r: map<Key, int>)
    ensures r.Keys == table.Keys
    ensures forall k :: k in r ==> r[k] == table[k] - (if k == KeyOf(missing) then 1 else 0)
  {
    var key := KeyOf(missing);
    if key in table then table[key := table[key] - 1] else table
  }

  /** Table after every piece of `previous` that is absent from `alive` is logged, in order. */
  function RecordLosses(table: map<Key, int>, previous: seq<Piece>, alive: seq<Piece>): (r: map<Key, int>)
    ensures r.Keys == table.Keys
  {
    if previous == [] then table
    else
      var last := previous[|previous| - 1];
      var t := RecordLosses(table, previous[..|previous| - 1], alive);
      if Present(last, alive) then t else Decrement(t, last)
  }

  /** The positions of `previous` holding a piece with key `key` that is absent from `alive`. */
  ghost function Losses(previous: seq<Piece>, alive: seq<Piece>, key: Key): set<int>
  {
    set i | 0 <= i < |previous| && KeyOf(previous[i]) == key && !Present(previous[i], alive)
  }

  lemma LossesSnoc(previous: seq<Piece>, alive: seq<Piece>, key: Key)
    requires previous != []
    ensures var n := |previous| - 1;
      Losses(previous, alive, key) ==
        Losses(previous[..n], alive, key) +
        (if KeyOf(previous[n]) == key && !Present(previous[n], alive) then {n} else {})
  {
    var n := |previous| - 1;
    assert forall i :: 0 <= i < n ==> previous[..n][i] == previous[i];
  }

  /**
   * Each tracked key loses exactly one for every previously seen piece with
   * that key that is no longer alive; nothing else changes.
   */
  lemma {:induction false} RecordLossesCount(table: map<Key, int>, previous: seq<Piece>, alive: seq<Piece>, key: Key)
    requires key in table
    ensures RecordLosses(table, previous, alive)[key] == table[key] - |Losses(previous, alive, key)|
    decreases |previous|
  {
    if previous == [] {
      assert Losses(previous, alive, key) == {};
    } else {
      var n := |previous| - 1;
      RecordLossesCount(table, previous[..n], alive, key);
      LossesSnoc(previous, alive, key);
      assert n !in Losses(previous[..n], alive, key);
    }
  }

  /** Counts never increase, and a key no missing piece carries keeps its value. */
  lemma RecordLossesNeverIncrease(table: map<Key, int>, previous: seq<Piece>, alive: seq<Piece>, key: Key)
    requires key in table
    ensures RecordLosses(table, previous, alive)[key] <= table[key]
    ensures (forall p :: p in previous && KeyOf(p) == key ==> Present(p, alive)) ==>
      RecordLosses(table, previous, alive)[key] == table[key]
  {
    RecordLossesCount(table, previous, alive, key);
    if forall p :: p in previous && KeyOf(p) == key ==> Present(p, alive) {
      assert Losses(previous, alive, key) == {};
    }
  }

  /** What key `k` adds to the total of `team`. */
  function Share(table: map<Key, int>, k: Key, team: string): int
    requires k in table
  {
    if k.0 == team then table[k] else 0
  }

  /** The sum, over the given keys, of the entries that belong to `team`. */
  ghost function SumOver(table: map<Key, int>, keys: set<Key>, team: string): int
    requires keys <= table.Keys
    decreases keys
  {
    if keys == {} then 0
    else
      var k :| k in keys;
      Share(table, k, team) + SumOver(table, keys - {k}, team)
  }

  /** The sum does not depend on the order keys are taken in: any key may be taken first. */
  lemma {:induction false} SumOverRemove(table: map<Key, int>, keys: set<Key>, team: string, x: Key)
    requires keys <= table.Keys && x in keys
    ensures SumOver(table, keys, team) == Share(table, x, team) + SumOver(table, keys - {x}, team)
    decreases keys
  {
    var k :| k in keys && SumOver(table, keys, team) == Share(table, k, team) + SumOver(table, keys - {k}, team);
    if k != x {
      SumOverRemove(table, keys - {k}, team, x);
      assert keys - {k} - {x} == keys - {x} - {k};
      SumOverRemove(table, keys - {x}, team, k);
    }
  }

  /** Lowering entries never raises a sum. */
  lemma {:induction false} SumOverMonotone(low: map<Key, int>, high: map<Key, int>, keys: set<Key>, team: string)
    requires keys <= low.Keys && keys <= high.Keys
    requires forall k :: k in keys ==> low[k] <= high[k]
    ensures SumOver(low, keys, team) <= SumOver(high, keys, team)
    decreases keys
  {
    if keys != {} {
      var k :| k in keys && SumOver(low, keys, team) == Share(low, k, team) + SumOver(low, keys - {k}, team);
      SumOverRemove(high, keys, team, k);
      SumOverMonotone(low, high, keys - {k}, team);
      assert Share(low, k, team) <= Share(high, k, team);
    }
  }

  /** The total a team still has to lose: the sum of the entries whose key belongs to it. */
  ghost function TeamTotal(table: map<Key, int>, team: string): int
  {
    SumOver(table, table.Keys, team)
  }

  /** Logging losses never raises a team's total, so a team at zero or below stays there. */
  lemma RecordLossesTotalNeverIncreases(table: map<Key, int>, previous: seq<Piece>, alive: seq<Piece>, team: string)
    ensures TeamTotal(RecordLosses(table, previous, alive), team) <= TeamTotal(table, team)
  {
    var r := RecordLosses(table, previous, alive);
    forall k | k in table ensures r[k] <= table[k] {
      RecordLossesNeverIncrease(table, previous, alive, k);
    }
    SumOverMonotone(r, table, table.Keys, team);
  }

  /** Maps that agree on the summed keys give the same sum. */
  lemma SumOverSame(a: map<Key, int>, b: map<Key, int>, keys: set<Key>, team: string)
    requires keys <= a.Keys && keys <= b.Keys
    requires forall k :: k in keys ==> a[k] == b[k]
    ensures SumOver(a, keys, team) == SumOver(b, keys, team)
  {
    SumOverMonotone(a, b, keys, team);
    SumOverMonotone(b, a, keys, team);
  }

  /** Logging one missing piece lowers its own team's total by one when its key is tracked, and no other total. */
  lemma DecrementTotal(table: map<Key, int>, missing: Piece, team: string)
    ensures TeamTotal(Decrement(table, missing), team) ==
      TeamTotal(table, team) - (if KeyOf(missing) in table && missing.team == team then 1 else 0)
  {
    var r := Decrement(table, missing);
    var k := KeyOf(missing);
    if k in table {
      SumOverRemove(r, table.Keys, team, k);
      SumOverRemove(table, table.Keys, team, k);
      SumOverSame(r, table, table.Keys - {k}, team);
    }
  }

  /** The positions of `previous` holding a tracked piece of `team` that is absent from `alive`. */
  ghost function TeamLosses(table: map<Key, int>, previous: seq<Piece>, alive: seq<Piece>, team: string): set<int>
  {
    set i | 0 <= i < |previous| && KeyOf(previous[i]) in table && previous[i].team == team && !Present(previous[i], alive)
  }

  lemma TeamLossesSnoc(table: map<Key, int>, previous: seq<Piece>, alive: seq<Piece>, team: string)
    requires previous != []
    ensures var n := |previous| - 1;
      var last := previous[n];
      TeamLosses(table, previous, alive, team) ==
        TeamLosses(table, previous[..n], alive, team) +
        (if KeyOf(last) in table && last.team == team && !Present(last, alive) then {n} else {})
  {
    var n := |previous| - 1;
    assert forall i :: 0 <= i < n ==> previous[..n][i] == previous[i];
  }

  /**
   * A team's total drops by exactly the number of its tracked pieces that went
   * missing, so it reaches zero or below once the tracked pieces it has lost
   * number at least its configured total.
   */
  lemma {:induction false} RecordLossesTeamTotal(table: map<Key, int>, previous: seq<Piece>, alive: seq<Piece>, team: string)
    ensures TeamTotal(RecordLosses(table, previous, alive), team) ==
      TeamTotal(table, team) - |TeamLosses(table, previous, alive, team)|
    decreases |previous|
  {
    if previous == [] {
      assert TeamLosses(table, previous, alive, team) == {};
    } else {
      var n := |previous| - 1;
      var last := previous[n];
      RecordLossesTeamTotal(table, previous[..n], alive, team);
      var t := RecordLosses(table, previous[..n], alive);
      if !Present(last, alive) {
        DecrementTotal(t, last, team);
      }
      TeamLossesSnoc(table, previous, alive, team);
      assert n !in TeamLosses(table, previous[..n], alive, team);
    }
  }

  /** The per-team totals of the keys in `done`, for the teams that own one of them. */
  ghost function PartialTotals(table: map<Key, int>, done: set<Key>): map<string, int>
    requires done <= table.Keys
  {
    map t | t in (set k | k in done :: k.0) :: SumOver(table, done, t)
  }

  /** A key owned by no piece of `team` adds nothing to the team's sum. */
  lemma {:induction false} SumOverOtherTeams(table: map<Key, int>, keys: set<Key>, team: string)
    requires keys <= table.Keys
    requires forall k :: k in keys ==> k.0 != team
    ensures SumOver(table, keys, team) == 0
    decreases keys
  {
    if keys != {} {
      var k :| k in keys && SumOver(table, keys, team) == Share(table, k, team) + SumOver(table, keys - {k}, team);
      SumOverOtherTeams(table, keys - {k}, team);
      assert Share(table, k, team) == 0;
    }
  }

  /** `p` is among `alive`, found by a scan that stops at the first match. */
  method Contains(alive: seq<Piece>, p: Piece) returns (found: bool)
    ensures found <==> Present(p, alive)
  {
    found := false;
    var j := 0;
    while j < |alive|
      invariant 0 <= j <= |alive|
      invariant forall i :: 0 <= i < j ==> !SamePiece(p, alive[i])
    {
      if SamePiece(p, alive[j]) {
        found := true;
        break;
      }
      j := j + 1;
    }
  }

  /** The first loop of the constructor: the teams of the initial pieces, and a copy of them. */
  method CollectTeams(allPieces: seq<Piece>) returns (teams: set<string>, snapshot: seq<Piece>)
    ensures teams == TeamsOf(allPieces)
    ensures snapshot == allPieces
  {
    teams, snapshot := {}, [];
    var i := 0;
    while i < |allPieces|
      invariant 0 <= i <= |allPieces|
      invariant snapshot == allPieces[..i]
      invariant teams == TeamsOf(allPieces[..i])
    {
      assert allPieces[..i + 1] == allPieces[..i] + [allPieces[i]];
      teams := teams + {allPieces[i].team};
      snapshot := snapshot + [allPieces[i]];
      i := i + 1;
    }
    assert allPieces[..i] == allPieces;
  }

  /** One pass of the constructor's inner loop: every team gets one more of `pieceType` to eliminate. */
  method AddPieceType(table: map<Key, int>, teams: set<string>, pieceType: string) returns (r: map<Key, int>)
    ensures forall k :: k in r <==> k in table || (k.0 in teams && k.1 == pieceType)
    ensures forall k :: k in r ==>
      r[k] == (if k in table then table[k] else 0) + (if k.0 in teams && k.1 == pieceType then 1 else 0)
  {
    r := table;
    var unvisited := teams;
    while unvisited != {}
      invariant unvisited <= teams
      invariant forall k :: k in r <==> k in table || (k.0 in teams - unvisited && k.1 == pieceType)
      invariant forall k :: k in r ==>
        r[k] == (if k in table then table[k] else 0) + (if k.0 in teams - unvisited && k.1 == pieceType then 1 else 0)
      decreases unvisited
    {
      var team :| team in unvisited;
      var key := (team, pieceType);
      var count := if key in r then r[key] else 0;
      r := r[key := count + 1];
      unvisited := unvisited - {team};
    }
  }

  /**
   * The constructor's table: a key for every team and configured kind, counting
   * how often the kind occurs in the configured list.
   */
  method BuildTargets(pieceTypes: seq<string>, teams: set<string>) returns (table: map<Key, int>)
    ensures forall k :: k in table <==> k.0 in teams && k.1 in pieceTypes
    ensures forall k :: k in table ==> table[k] == multiset(pieceTypes)[k.1]
  {
    table := map[];
    var n := 0;
    while n < |pieceTypes|
      invariant 0 <= n <= |pieceTypes|
      invariant forall k :: k in table <==> k.0 in teams && k.1 in pieceTypes[..n]
      invariant forall k :: k in table ==> table[k] == multiset(pieceTypes[..n])[k.1]
    {
      assert pieceTypes[..n + 1] == pieceTypes[..n] + [pieceTypes[n]];
      table := AddPieceType(table, teams, pieceTypes[n]);
      n := n + 1;
    }
    assert pieceTypes[..n] == pieceTypes;
  }

  class EliminationEndCondition {
    /** The pieces owned at the last evaluation that looked at them. */
    var previousTurnPieces: seq<Piece>
    /** How many pieces of each (team, kind) are left to eliminate. */
    var piecesToEliminate: map<Key, int>
    /** The table as built at construction. */
    ghost const InitialTargets: map<Key, int>

    /** The key set is fixed at construction and no count has grown since. */
    ghost predicate Valid()
      reads this
    {
      && piecesToEliminate.Keys == InitialTargets.Keys
      && forall k :: k in piecesToEliminate ==> piecesToEliminate[k] <= InitialTargets[k]
    }

    /**
     * Every team owning an initial piece gets, for each kind in `pieceTypes`,
     * as many to eliminate as the kind occurs in `pieceTypes`.
     */
    constructor (pieceTypes: seq<string>, allPieces: seq<Piece>)
      ensures Valid()
      ensures previousTurnPieces == allPieces
      ensures forall k :: k in piecesToEliminate <==> k.0 in TeamsOf(allPieces) && k.1 in pieceTypes
      ensures forall k :: k in piecesToEliminate ==> piecesToEliminate[k] == multiset(pieceTypes)[k.1]
      ensures InitialTargets == piecesToEliminate
    {
      var teams, snapshot := CollectTeams(allPieces);
      var table := BuildTargets(pieceTypes, teams);
      previousTurnPieces := snapshot;
      piecesToEliminate := table;
      InitialTargets := table;
    }

    /**
     * Evaluates the condition against the players' current pieces. When their
     * number equals the snapshot's, nothing happens and the game runs on.
     * Otherwise every snapshot piece now missing is logged, the snapshot is
     * replaced, and some team whose total has reached zero or less loses.
     */
    method IsSatisfied(players: seq<Player>) returns (state: GameState)
      requires Valid()
      modifies this
      ensures Valid()
      ensures var alive := AllPieces(players);
        if |old(previousTurnPieces)| == |alive| then
          && state == Running
          && previousTurnPieces == old(previousTurnPieces)
          && piecesToEliminate == old(piecesToEliminate)
        else
          && previousTurnPieces == alive
          && piecesToEliminate == RecordLosses(old(piecesToEliminate), old(previousTurnPieces), alive)
          && (state.Ended? ==> state.loser in Teams(piecesToEliminate) && TeamTotal(piecesToEliminate, state.loser) <= 0)
          && (state.Running? ==> forall t :: t in Teams(piecesToEliminate) ==> TeamTotal(piecesToEliminate, t) > 0)
    {
      var alive: seq<Piece> := [];
      var i := 0;
      while i < |players|
        invariant 0 <= i <= |players|
        invariant alive == AllPieces(players[..i])
      {
        assert players[..i + 1][..i] == players[..i];
        alive := alive + players[i].pieces;
        i := i + 1;
      }
      assert players[..i] == players;
      if |previousTurnPieces| == |alive| {
        return Running;
      }
      FindMissingPiece(alive);
      previousTurnPieces := alive;
      state := EliminatedAllTargets();
    }

    /** Logs every snapshot piece that is absent from `alive`, in snapshot order. */
    method FindMissingPiece(alive: seq<Piece>)
      requires Valid()
      modifies this`piecesToEliminate
      ensures Valid()
      ensures piecesToEliminate == RecordLosses(old(piecesToEliminate), previousTurnPieces, alive)
    {
      var i := 0;
      while i < |previousTurnPieces|
        invariant 0 <= i <= |previousTurnPieces|
        invariant Valid()
        invariant piecesToEliminate == RecordLosses(old(piecesToEliminate), previousTurnPieces[..i], alive)
      {
        var p := previousTurnPieces[i];
        var found := Contains(alive, p);
        if !found {
          LogMissing(p);
        }
        assert previousTurnPieces[..i + 1][..i] == previousTurnPieces[..i];
        i := i + 1;
      }
      assert previousTurnPieces[..i] == previousTurnPieces;
    }

    /** Lowers by one the count of the missing piece's own (team, kind), if that key is tracked. */
    method LogMissing(missing: Piece)
      requires Valid()
      modifies this`piecesToEliminate
      ensures Valid()
      ensures piecesToEliminate == Decrement(old(piecesToEliminate), missing)
    {
      var key := KeyOf(missing);
      if key !in piecesToEliminate {
        return;
      }
      piecesToEliminate := piecesToEliminate[key := piecesToEliminate[key] - 1];
    }

    /** Each team owning a key, mapped to the sum of the counts of its keys. */
    method GetTargetPiecesRemaining() returns (remaining: map<string, int>)
      ensures remaining.Keys == Teams(piecesToEliminate)
      ensures forall t :: t in remaining ==> remaining[t] == TeamTotal(piecesToEliminate, t)
    {
      var table := piecesToEliminate;
      remaining := map[];
      var unvisited := table.Keys;
      ghost var done: set<Key> := {};
      while unvisited != {}
        invariant unvisited + done == table.Keys && unvisited !! done
        invariant remaining == PartialTotals(table, done)
        decreases unvisited
      {
        var key :| key in unvisited;
        var team := key.0;
        var sofar := if team in remaining then remaining[team] else 0;
        remaining := remaining[team := sofar + table[key]];
        AddKey(table, done, key);
        unvisited := unvisited - {key};
        done := done + {key};
      }
      assert done == table.Keys;
    }

    /** Some team whose total is zero or less has lost; when there is none, the game runs on. */
    method EliminatedAllTargets() returns (state: GameState)
      ensures state.Ended? ==> state.loser in Teams(piecesToEliminate) && TeamTotal(piecesToEliminate, state.loser) <= 0
      ensures state.Running? ==> forall t :: t in Teams(piecesToEliminate) ==> TeamTotal(piecesToEliminate, t) > 0
    {
      var remaining := GetTargetPiecesRemaining();
      var unvisited := remaining.Keys;
      while unvisited != {}
        invariant unvisited <= remaining.Keys
        invariant forall t :: t in remaining && t !in unvisited ==> remaining[t] > 0
        decreases unvisited
      {
        var team :| team in unvisited;
        if remaining[team] <= 0 {
          return Ended(team);
        }
        unvisited := unvisited - {team};
      }
      return Running;
    }
  }

  /** Adding one key to the summed keys adds its entry to its own team's total only. */
  lemma AddKey(table: map<Key, int>, done: set<Key>, key: Key)
    requires done <= table.Keys && key in table && key !in done
    ensures var before := PartialTotals(table, done);
      PartialTotals(table, done + {key}) ==
        before[key.0 := (if key.0 in before then before[key.0] else 0) + table[key]]
  {
    var before := PartialTotals(table, done);
    var after := PartialTotals(table, done + {key});
    var expected := before[key.0 := (if key.0 in before then before[key.0] else 0) + table[key]];
    forall t | t in after
      ensures t in expected && after[t] == expected[t]
    {
      SumOverRemove(table, done + {key}, t, key);
      assert done + {key} - {key} == done;
      if t != key.0 {
        var k :| k in done && k.0 == t;
      } else if key.0 !in before {
        SumOverOtherTeams(table, done, t);
      }
    }
    forall t | t in expected ensures t in after {
      if t != key.0 {
        var k :| k in done && k.0 == t;
      }
    }
  }

  /**
   * A second evaluation with the same players right after the first one reports
   * the game running; afterwards the snapshot holds as many pieces as the players own.
   */
  method EvaluateTwice(condition: EliminationEndCondition, players: seq<Player>) returns (first: GameState, second: GameState)
    requires condition.Valid()
    modifies condition
    ensures condition.Valid()
    ensures second == Running
    ensures |condition.previousTurnPieces| == |AllPieces(players)|
  {
    first := condition.IsSatisfied(players);
    ghost var snapshot, table := condition.previousTurnPieces, condition.piecesToEliminate;
    second := condition.IsSatisfied(players);
    assert condition.previousTurnPieces == snapshot && condition.piecesToEliminate == table;
  }
}
