/**
 * Check detection: is some player's king standing on a square that a piece of
 * another team reaches with one of its raw moves?
 */
module Check {
  import opened Pieces

  /** The name of the royal piece. */
  const KING: string := "K"

  datatype Option<T> = None | Some(value: T)

  /**
   * What `exists` produces: a verdict, or the team whose king lookup came back
   * empty, at which point the source dereferences null and fails.
   */
  datatype CheckResult = Verdict(inCheck: bool) | MissingKing(team: string)

  predicate IsKingOf(p: Piece, team: string)
  {
    p.team == team && p.name == KING
  }

  predicate HasKing(team: string, pieces: seq<Piece>)
  {
    exists p :: p in pieces && IsKingOf(p, team)
  }

  /** The first piece of `team` named "K", if there is one. */
  function FindKing(team: string, pieces: seq<Piece>): (r: Option<Piece>)
    ensures r.None? <==> !HasKing(team, pieces)
    ensures r.Some? ==>
      exists i :: 0 <= i < |pieces| && pieces[i] == r.value && IsKingOf(pieces[i], team) &&
        forall j :: 0 <= j < i ==> !IsKingOf(pieces[j], team)
  {
    if pieces == [] then None
    else if IsKingOf(pieces[0], team) then Some(pieces[0])
    else
      var r := FindKing(team, pieces[1..]);
      assert forall i :: 0 <= i < |pieces[1..]| ==> pieces[1..][i] == pieces[i + 1];
      r
  }

  /** The pieces of `all` that are not on `attackedTeam`, in their original order. */
  function AttackingPieces(attackedTeam: string, all: seq<Piece>): (attackers: seq<Piece>)
    ensures forall p :: p in attackers <==> p in all && p.team != attackedTeam
    ensures |attackers| <= |all|
  {
    if all == [] then []
    else (if all[0].team != attackedTeam then [all[0]] else []) + AttackingPieces(attackedTeam, all[1..])
  }

  /** Filtering attackers commutes with concatenation: the original order is kept. */
  lemma {:induction false} AttackingPiecesAppend(team: string, a: seq<Piece>, b: seq<Piece>)
    ensures AttackingPieces(team, a + b) == AttackingPieces(team, a) + AttackingPieces(team, b)
  {
    if a == [] {
      assert a + b == b;
    } else {
      assert (a + b)[0] == a[0];
      assert (a + b)[1..] == a[1..] + b;
      AttackingPiecesAppend(team, a[1..], b);
    }
  }

  /** A single piece is an attacker exactly when its team differs. */
  lemma AttackingPiecesSingle(team: string, p: Piece)
    ensures AttackingPieces(team, [p]) == if p.team != team then [p] else []
  {
    assert [p][1..] == [];
  }

  /** Does some move among `moves` of `piece` end on `target`? */
  function AnyMoveReaches(target: Location, piece: Piece, moves: seq<MoveRule>, all: seq<Piece>, geom: Geometry): (b: bool)
    ensures b <==> exists m :: m in moves && target in geom(m, piece, all)
  {
    if moves == [] then false
    else target in geom(moves[0], piece, all) || AnyMoveReaches(target, piece, moves[1..], all, geom)
  }

  /** Is `kingLocation` an end location of some move of some piece in `attackers`? */
  function UnderAttack(kingLocation: Location, attackers: seq<Piece>, all: seq<Piece>, geom: Geometry): (b: bool)
    ensures b <==> exists a, m :: a in attackers && m in a.moves && kingLocation in geom(m, a, all)
  {
    if attackers == [] then false
    else
      AnyMoveReaches(kingLocation, attackers[0], attackers[0].moves, all, geom) ||
      UnderAttack(kingLocation, attackers[1..], all, geom)
  }

  /**
   * The reference meaning of "the king of `team` is attacked": the king the
   * engine finds for `team` stands on an end location of some move of some
   * piece of another team.
   */
  ghost predicate KingAttacked(team: string, all: seq<Piece>, geom: Geometry)
  {
    match FindKing(team, all)
    case None => false
    case Some(king) => exists a, m :: a in all && a.team != team && m in a.moves && king.loc in geom(m, a, all)
  }

  /** The loop of `exists` over the players, with the collected pieces fixed; `Exists` delegates to it. */
  function ExistsFrom(players: seq<Player>, all: seq<Piece>, geom: Geometry): CheckResult
  {
    if players == [] then Verdict(false)
    else
      var team := players[0].team;
      match FindKing(team, all)
      case None => MissingKing(team)
      case Some(king) =>
        if UnderAttack(king.loc, AttackingPieces(team, all), all, geom) then Verdict(true)
        else ExistsFrom(players[1..], all, geom)
  }

  /** The loop's test for one player agrees with the reference meaning. */
  lemma PlayerTestIsKingAttacked(team: string, all: seq<Piece>, geom: Geometry)
    requires HasKing(team, all)
    ensures UnderAttack(FindKing(team, all).value.loc, AttackingPieces(team, all), all, geom) <==> KingAttacked(team, all, geom)
  {
  }

  /** Every player's team owns a "K" among `all`. */
  predicate AllHaveKings(players: seq<Player>, all: seq<Piece>)
  {
    forall i :: 0 <= i < |players| ==> HasKing(players[i].team, all)
  }

  /** Some player's king is attacked, in the reference sense. */
  ghost predicate SomeKingAttacked(players: seq<Player>, all: seq<Piece>, geom: Geometry)
  {
    exists i :: 0 <= i < |players| && KingAttacked(players[i].team, all, geom)
  }

  /** Dropping the first player leaves "some king attacked" to the others, unless the first one's is. */
  lemma SomeKingAttackedTail(players: seq<Player>, all: seq<Piece>, geom: Geometry)
    requires players != []
    ensures SomeKingAttacked(players, all, geom) <==>
      KingAttacked(players[0].team, all, geom) || SomeKingAttacked(players[1..], all, geom)
  {
    var rest := players[1..];
    if SomeKingAttacked(players, all, geom) && !KingAttacked(players[0].team, all, geom) {
      var i :| 0 <= i < |players| && KingAttacked(players[i].team, all, geom);
      assert rest[i - 1] == players[i];
    }
    if SomeKingAttacked(rest, all, geom) {
      var i :| 0 <= i < |rest| && KingAttacked(rest[i].team, all, geom);
      assert players[i + 1] == rest[i];
    }
  }

  /** When every player has a king, the loop answers whether some player's king is attacked. */
  lemma {:induction false} ExistsFromWithKings(players: seq<Player>, all: seq<Piece>, geom: Geometry)
    ensures AllHaveKings(players, all) ==> ExistsFrom(players, all, geom) == Verdict(SomeKingAttacked(players, all, geom))
  {
    if players != [] && AllHaveKings(players, all) {
      var team := players[0].team;
      var rest := players[1..];
      assert HasKing(team, all);
      PlayerTestIsKingAttacked(team, all, geom);
      assert AllHaveKings(rest, all) by {
        forall i | 0 <= i < |rest| ensures HasKing(rest[i].team, all) {
          assert rest[i] == players[i + 1];
        }
      }
      ExistsFromWithKings(rest, all, geom);
      SomeKingAttackedTail(players, all, geom);
    }
  }

  /**
   * The loop fails only at a player without a king, and only after every earlier
   * player was found to have a king that is not attacked.
   */
  lemma {:induction false} ExistsFromMissingKing(players: seq<Player>, all: seq<Piece>, geom: Geometry)
    ensures var r := ExistsFrom(players, all, geom);
      r.MissingKing? ==>
        exists i :: 0 <= i < |players| && players[i].team == r.team && !HasKing(players[i].team, all) &&
          forall j :: 0 <= j < i ==> HasKing(players[j].team, all) && !KingAttacked(players[j].team, all, geom)
  {
    if players != [] {
      var team := players[0].team;
      if HasKing(team, all) {
        PlayerTestIsKingAttacked(team, all, geom);
        if !KingAttacked(team, all, geom) {
          ExistsFromMissingKing(players[1..], all, geom);
          var r := ExistsFrom(players, all, geom);
          if r.MissingKing? {
            var i :| 0 <= i < |players[1..]| && players[1..][i].team == r.team && !HasKing(players[1..][i].team, all) &&
              forall j :: 0 <= j < i ==> HasKing(players[1..][j].team, all) && !KingAttacked(players[1..][j].team, all, geom);
            assert forall j :: 0 <= j < i + 1 ==> HasKing(players[j].team, all) && !KingAttacked(players[j].team, all, geom) by {
              forall j | 0 <= j < i + 1
                ensures HasKing(players[j].team, all) && !KingAttacked(players[j].team, all, geom)
              {
                if j > 0 {
                  assert players[j] == players[1..][j - 1];
                }
              }
            }
            assert players[i + 1] == players[1..][i];
          }
        }
      }
    }
  }

  /**
   * The converse: once the loop reaches a player without a king, every earlier
   * king having been found unattacked, the call fails naming that player's team.
   */
  lemma {:induction false} ExistsFromReachesMissing(players: seq<Player>, all: seq<Piece>, geom: Geometry, i: nat)
    requires i < |players| && !HasKing(players[i].team, all)
    requires forall j :: 0 <= j < i ==> HasKing(players[j].team, all) && !KingAttacked(players[j].team, all, geom)
    ensures ExistsFrom(players, all, geom) == MissingKing(players[i].team)
    decreases i
  {
    if i > 0 {
      PlayerTestIsKingAttacked(players[0].team, all, geom);
      assert forall j :: 0 <= j < |players[1..]| ==> players[1..][j] == players[j + 1];
      ExistsFromReachesMissing(players[1..], all, geom, i - 1);
    }
  }

  /** Without a king for every player, the loop never answers false: it finds a check first or fails. */
  lemma {:induction false} ExistsFromNeverFalseWithoutKings(players: seq<Player>, all: seq<Piece>, geom: Geometry)
    ensures !AllHaveKings(players, all) ==> ExistsFrom(players, all, geom) != Verdict(false)
  {
    if players != [] && !AllHaveKings(players, all) && HasKing(players[0].team, all) {
      var rest := players[1..];
      assert !AllHaveKings(rest, all) by {
        var i :| 0 <= i < |players| && !HasKing(players[i].team, all);
        assert rest[i - 1] == players[i];
      }
      ExistsFromNeverFalseWithoutKings(rest, all, geom);
    }
  }

  /**
   * Check.exists: is some player's king attacked by the pieces of the other
   * teams? Players are taken in order; the first king found attacked answers
   * true, and a player whose team owns no "K" makes the call fail.
   */
  function Exists(players: seq<Player>, geom: Geometry): (r: CheckResult)
    ensures players == [] ==> r == Verdict(false)
    ensures AllHaveKings(players, AllPieces(players)) ==> r == Verdict(SomeKingAttacked(players, AllPieces(players), geom))
    ensures !AllHaveKings(players, AllPieces(players)) ==> r != Verdict(false)
    ensures r.MissingKing? ==>
      exists i :: 0 <= i < |players| && players[i].team == r.team && !HasKing(players[i].team, AllPieces(players))
  {
    var all := AllPieces(players);
    ExistsFromWithKings(players, all, geom);
    ExistsFromNeverFalseWithoutKings(players, all, geom);
    ExistsFromMissingKing(players, all, geom);
    ExistsFrom(players, all, geom)
  }

  /**
   * Check consults the move geometry only through the raw end locations of the
   * moves of pieces on the board: two geometries that agree there give the same
   * answer, so no legality filtering (and no recursion into it) is involved.
   */
  lemma {:induction false} ExistsFromUsesRawMovesOnly(players: seq<Player>, all: seq<Piece>, g1: Geometry, g2: Geometry)
    requires forall a, m :: a in all && m in a.moves ==> g1(m, a, all) == g2(m, a, all)
    ensures ExistsFrom(players, all, g1) == ExistsFrom(players, all, g2)
  {
    if players != [] {
      var team := players[0].team;
      match FindKing(team, all)
      case None =>
      case Some(king) =>
        var attackers := AttackingPieces(team, all);
        assert UnderAttack(king.loc, attackers, all, g1) == UnderAttack(king.loc, attackers, all, g2);
        ExistsFromUsesRawMovesOnly(players[1..], all, g1, g2);
    }
  }
}
