/** Values the rules engine passes around: grid locations, pieces and players. */
module Pieces {

  /** A grid coordinate; two locations are equal exactly when row and column match. */
  datatype Location = Location(row: int, col: int)

  /** Names one movement pattern of a piece. What it expands to is given by a Geometry. */
  datatype MoveRule = MoveRule(rule: nat)

  /**
   * A piece on the board. Pieces are compared by identity in the engine, so
   * `id` stands for the object's identity: two pieces with the same team, name
   * and location but different ids are different pieces.
   */
  datatype Piece = Piece(id: nat, team: string, name: string, loc: Location, moves: seq<MoveRule>)

  /** A player: its team and the pieces it currently owns, in order. */
  datatype Player = Player(team: string, pieces: seq<Piece>)

  /**
   * The raw expansion of one move rule of a piece on a board (all pieces given):
   * every end location the rule reaches, before any legality filtering.
   * The movement geometry itself is supplied from outside the core.
   */
  type Geometry = (MoveRule, Piece, seq<Piece>) -> seq<Location>

  /** Identity of pieces, the `equals` the engine uses. */
  predicate SamePiece(p: Piece, q: Piece)
  {
    p.id == q.id
  }

  /** The pieces of all players, player by player, each player's pieces in their own order. */
  function AllPieces(players: seq<Player>): (all: seq<Piece>)
    ensures forall p :: p in all <==> exists i :: 0 <= i < |players| && p in players[i].pieces
  {
    if players == [] then []
    else
      var last := |players| - 1;
      var front := AllPieces(players[..last]);
      assert forall i :: 0 <= i < last ==> players[..last][i] == players[i];
      front + players[last].pieces
  }

  /** The number of pieces the players own, summed over the players. */
  function PieceCount(players: seq<Player>): nat
  {
    if players == [] then 0 else PieceCount(players[..|players| - 1]) + |players[|players| - 1].pieces|
  }

  /** Collecting the pieces distributes over the player list: it is a concatenation in player order. */
  lemma {:induction false} AllPiecesAppend(ps: seq<Player>, qs: seq<Player>)
    ensures AllPieces(ps + qs) == AllPieces(ps) + AllPieces(qs)
    decreases |qs|
  {
    if qs == [] {
      assert ps + qs == ps;
    } else {
      var last := |qs| - 1;
      assert (ps + qs)[..|ps + qs| - 1] == ps + qs[..last];
      AllPiecesAppend(ps, qs[..last]);
    }
  }

  /** One player's pieces are collected as they are. */
  lemma AllPiecesSingle(p: Player)
    ensures AllPieces([p]) == p.pieces
  {
    assert [p][..0] == [];
  }

  /** The collected list is as long as the players' piece counts added up. */
  lemma {:induction false} AllPiecesLength(players: seq<Player>)
    ensures |AllPieces(players)| == PieceCount(players)
    decreases |players|
  {
    if players != [] {
      AllPiecesLength(players[..|players| - 1]);
    }
  }
}
