/**
 * The glue between the game state and the target lists: the current
 * player's token, own jump-cell flag and own used-jump flag are what
 * `GetValidMoves` is asked about, and the result is stored until the next
 * state change, except once the game is over.
 */
module GameValidations {
  import opened GameTypes
  import opened GameUtils

  /** The target lists for the player whose turn it is. */
  function ValidMovesFor(s: GameState): (v: ValidMoves)
    ensures var cp := s.currentPlayer; var pos := PositionOf(s, cp);
      forall q :: q in v.moves <==>
        IsWithinBoard(q) && q !in WallCells(s.walls) &&
        (IsOrthogonalNeighbour(pos, q) ||
         (!UsedJumpOf(s, cp) && IsPlayerJumpZone(pos, cp) && IsPlayerJumpZone(q, cp) && q != pos))
  {
    var currentPlayerPosition := PositionOf(s, s.currentPlayer);
    var isJumpZone := IsPlayerJumpZone(currentPlayerPosition, s.currentPlayer);
    var usedJump := UsedJumpOf(s, s.currentPlayer);
    GetValidMoves(s, currentPlayerPosition, isJumpZone, usedJump)
  }

  /** Wall cells for the current player: free orthogonal neighbours off both tokens, the bases and every jump cell. */
  lemma WallPlacementsFor(s: GameState)
    ensures var pos := PositionOf(s, s.currentPlayer);
      forall q :: q in ValidMovesFor(s).wallPlacements <==>
        IsWithinBoard(q) && IsOrthogonalNeighbour(pos, q) && q !in WallCells(s.walls) &&
        q != s.redPosition && q != s.bluePosition && !IsBaseCell(q) && !IsAnyJumpZone(q)
  {
    var pos := PositionOf(s, s.currentPlayer);
    assert {pos, PositionOf(s, Opponent(s.currentPlayer))} == {s.redPosition, s.bluePosition};
  }

  /** Hit targets for the current player: the walled cells around its token. */
  lemma HitTargetsFor(s: GameState)
    ensures var pos := PositionOf(s, s.currentPlayer);
      forall q :: q in ValidMovesFor(s).hitTargets <==>
        IsWithinBoard(q) && IsSurrounding(pos, q) && q in WallCells(s.walls)
  {
  }

  /**
   * A move that is not a step is the jump: from one of the mover's own jump
   * cells to its partner, diagonally, while the jump is still unused.
   */
  lemma JumpGoesToPartner(s: GameState, q: Position)
    requires q in ValidMovesFor(s).moves
    requires !IsOrthogonalNeighbour(PositionOf(s, s.currentPlayer), q)
    ensures var cp, pos := s.currentPlayer, PositionOf(s, s.currentPlayer);
      && !UsedJumpOf(s, cp)
      && IsPlayerJumpZone(pos, cp) && IsPlayerJumpZone(q, cp)
      && IsDiagonalNeighbour(pos, q)
      && JumpDiagonalPositions(pos, cp) == [q]
  {
    JumpPartner(PositionOf(s, s.currentPlayer), q, s.currentPlayer);
  }

  /** Two different jump cells of one colour are diagonal neighbours, and each is the other's only jump target. */
  lemma JumpPartner(pos: Position, q: Position, p: Player)
    requires IsPlayerJumpZone(pos, p) && IsPlayerJumpZone(q, p) && q != pos
    ensures IsDiagonalNeighbour(pos, q) && JumpDiagonalPositions(pos, p) == [q]
  {
    JumpPartnerIsDiagonal(pos, q, p);
    JumpPartnerIsTarget(pos, q, p);
  }

  lemma JumpPartnerIsDiagonal(pos: Position, q: Position, p: Player)
    requires IsPlayerJumpZone(pos, p) && IsPlayerJumpZone(q, p) && q != pos
    ensures IsDiagonalNeighbour(pos, q)
  {
    var zones := JumpZones(p);
    var a, b := zones[0], zones[1];
    assert (pos == a && q == b) || (pos == b && q == a);
    JumpZonesGeometry(p);
    assert IsDiagonalNeighbour(a, b) && IsDiagonalNeighbour(b, a);
  }

  lemma JumpPartnerIsTarget(pos: Position, q: Position, p: Player)
    requires IsPlayerJumpZone(pos, p) && IsPlayerJumpZone(q, p) && q != pos
    ensures JumpDiagonalPositions(pos, p) == [q]
  {
    var zones := JumpZones(p);
    var r := JumpDiagonalPositions(pos, p);
    assert q == r[0] by {
      assert q == zones[0] || q == zones[1];
      assert r[0] == zones[0] || r[0] == zones[1];
    }
    OneElement(r);
  }

  lemma OneElement<T>(r: seq<T>)
    requires |r| == 1
    ensures r == [r[0]]
  {
  }

  /** The opponent's jump cells never open a diagonal for the current player. */
  lemma OpponentJumpCellsGiveNoJump(s: GameState, q: Position)
    requires IsPlayerJumpZone(PositionOf(s, s.currentPlayer), Opponent(s.currentPlayer))
    requires !IsOrthogonalNeighbour(PositionOf(s, s.currentPlayer), q)
    ensures q !in ValidMovesFor(s).moves
  {
    var cp := s.currentPlayer;
    var mine, theirs := JumpZones(cp), JumpZones(Opponent(cp));
    assert theirs[0] != mine[0] && theirs[0] != mine[1] && theirs[1] != mine[0] && theirs[1] != mine[1];
    assert !IsPlayerJumpZone(PositionOf(s, cp), cp);
  }

  /** The opponent's token does not block a move: an adjacent opponent can always be captured. */
  lemma CaptureIsOffered(s: GameState)
    requires WellFormed(s)
    requires IsOrthogonalNeighbour(PositionOf(s, s.currentPlayer), PositionOf(s, Opponent(s.currentPlayer)))
    ensures PositionOf(s, Opponent(s.currentPlayer)) in ValidMovesFor(s).moves
  {
    var opponent := PositionOf(s, Opponent(s.currentPlayer));
    assert forall w :: w in s.walls ==> WallAllowed(s, w) && w.position != opponent;
  }

  /**
   * The stored target lists. They start empty, are recomputed from each new
   * state, and are left as they were once the game is over.
   */
  class MoveValidator {
    var validMoves: ValidMoves

    constructor()
      ensures validMoves == ValidMoves([], [], [])
    {
      validMoves := ValidMoves([], [], []);
    }

    method UpdateValidMoves(gameState: GameState)
      modifies this
      ensures gameState.gameOver ==> validMoves == old(validMoves)
      ensures !gameState.gameOver ==> validMoves == ValidMovesFor(gameState)
    {
      if gameState.gameOver {
        return;
      }
      var currentPlayerPosition := PositionOf(gameState, gameState.currentPlayer);
      var isJumpZone := IsPlayerJumpZone(currentPlayerPosition, gameState.currentPlayer);
      var usedJump := UsedJumpOf(gameState, gameState.currentPlayer);
      validMoves := GetValidMoves(gameState, currentPlayerPosition, isJumpZone, usedJump);
    }
  }
}
