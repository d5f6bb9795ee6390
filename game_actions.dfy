/**
 * The actions a player takes and the turn change, first as updates of the
 * game-state record, then as the methods of `GameEngine`, which also keeps
 * the two pieces of state that live outside the record: how many hits the
 * current player has used this turn and whether the last action was a hit.
 */
module GameActions {
  import opened GameTypes
  import opened GameUtils
  import opened HitResolution
  import opened GameValidations

  // ---------------------------------------------------------------------
  // Guards

  /**
   * Whether the current player may take `action`: nothing while actions are
   * disabled, a move or a wall costs one energy, and the number of hits per
   * turn is bounded by the energy.
   */
  function HasEnoughEnergy(s: GameState, hitUsedCount: int, action: ActionType): (ok: bool)
    ensures s.actionsDisabled ==> !ok
    ensures !s.actionsDisabled && (action == MoveAction || action == WallAction) ==> (ok <==> EnergyOf(s, s.currentPlayer) >= 1)
    ensures !s.actionsDisabled && action == HitAction ==> (ok <==> hitUsedCount < EnergyOf(s, s.currentPlayer))
  {
    var currentEnergy := EnergyOf(s, s.currentPlayer);
    if s.actionsDisabled then false
    else if action == MoveAction && currentEnergy < 1 then false
    else if action == WallAction && currentEnergy < 1 then false
    else if action == HitAction && hitUsedCount >= currentEnergy then false
    else true
  }

  /** The end-turn button is enabled on one's own turn once the energy is spent or a wall has been placed. */
  function CanEndTurn(s: GameState, isMyTurn: bool): (b: bool)
    ensures b ==> isMyTurn && forall h: nat, a: ActionType :: !HasEnoughEnergy(s, h, a)
    ensures isMyTurn && EnergyOf(s, s.currentPlayer) >= 0 && !HasEnoughEnergy(s, 0, MoveAction) ==> b
  {
    var currentEnergy := EnergyOf(s, s.currentPlayer);
    (currentEnergy == 0 || s.actionsDisabled) && isMyTurn
  }

  /** With no energy left a player can take no action, and may end the turn. */
  lemma NoEnergyOnlyEndTurn(s: GameState, hitUsedCount: nat, action: ActionType)
    requires WellFormed(s) && EnergyOf(s, s.currentPlayer) == 0
    ensures !HasEnoughEnergy(s, hitUsedCount, action) && CanEndTurn(s, true)
  {
  }

  // ---------------------------------------------------------------------
  // Updates of the game-state record

  /**
   * The turn passes to the opponent, who starts with one energy, or two
   * when the player before them ended the turn by placing a wall.
   */
  function NextTurn(prev: GameState): (s: GameState)
    ensures s.currentPlayer == Opponent(prev.currentPlayer)
    ensures EnergyOf(s, s.currentPlayer) == (if prev.lastActionWasWall then 2 else 1)
    ensures !UsedJumpOf(s, s.currentPlayer)
    ensures EnergyOf(s, prev.currentPlayer) == EnergyOf(prev, prev.currentPlayer)
    ensures UsedJumpOf(s, prev.currentPlayer) == UsedJumpOf(prev, prev.currentPlayer)
    ensures s.selectedAction == None && !s.lastActionWasWall && !s.actionsDisabled
    ensures s.redPosition == prev.redPosition && s.bluePosition == prev.bluePosition && s.walls == prev.walls
    ensures s.gameOver == prev.gameOver && s.winner == prev.winner
    ensures WellFormed(prev) ==> WellFormed(s)
  {
    var switchingTo := Opponent(prev.currentPlayer);
    var newEnergy := if prev.lastActionWasWall then 2 else 1;
    prev.(
      currentPlayer := switchingTo,
      selectedAction := None,
      lastActionWasWall := false,
      actionsDisabled := false,
      redUsedJump := if switchingTo == Red then false else prev.redUsedJump,
      blueUsedJump := if switchingTo == Blue then false else prev.blueUsedJump,
      redEnergy := if switchingTo == Red then newEnergy else prev.redEnergy,
      blueEnergy := if switchingTo == Blue then newEnergy else prev.blueEnergy)
  }

  /** Everything but the mover's token, energy and jump flag is as it was. */
  predicate OnlyMoverChanged(prev: GameState, s: GameState) {
    var opponent := Opponent(prev.currentPlayer);
    && s.currentPlayer == prev.currentPlayer
    && PositionOf(s, opponent) == PositionOf(prev, opponent)
    && EnergyOf(s, opponent) == EnergyOf(prev, opponent)
    && UsedJumpOf(s, opponent) == UsedJumpOf(prev, opponent)
    && s.walls == prev.walls && s.selectedAction == prev.selectedAction
    && s.gameOver == prev.gameOver && s.winner == prev.winner
    && s.lastActionWasWall == prev.lastActionWasWall && s.actionsDisabled == prev.actionsDisabled
  }

  /**
   * A move to `position`. Onto the opponent's token it ends the game with the
   * mover as winner and changes nothing else. Otherwise the token moves, one
   * energy is spent unless the cell is an energy cell, and a diagonal step
   * uses up the jump.
   */
  function MoveTo(prev: GameState, position: Position): (s: GameState)
    ensures var cp := prev.currentPlayer;
      position == PositionOf(prev, Opponent(cp)) ==> s == prev.(gameOver := true, winner := Some(cp))
    ensures var cp := prev.currentPlayer;
      position != PositionOf(prev, Opponent(cp)) ==>
        && PositionOf(s, cp) == position
        && EnergyOf(s, cp) == EnergyOf(prev, cp) - (if IsExtraEnergyCell(position) then 0 else 1)
        && UsedJumpOf(s, cp) == (UsedJumpOf(prev, cp) || IsDiagonalNeighbour(PositionOf(prev, cp), position))
        && OnlyMoverChanged(prev, s)
  {
    var opponentPosition := PositionOf(prev, Opponent(prev.currentPlayer));
    if position == opponentPosition then
      prev.(gameOver := true, winner := Some(prev.currentPlayer))
    else
      var currentPos := PositionOf(prev, prev.currentPlayer);
      var isDiagonal := Abs(position.row - currentPos.row) == 1 && Abs(position.col - currentPos.col) == 1;
      var gain := if IsExtraEnergyCell(position) then 1 else 0;
      var energy := EnergyOf(prev, prev.currentPlayer) - 1 + gain;
      var usedJump := UsedJumpOf(prev, prev.currentPlayer) || isDiagonal;
      if prev.currentPlayer == Red then
        prev.(redPosition := position, redEnergy := energy, redUsedJump := usedJump)
      else
        prev.(bluePosition := position, blueEnergy := energy, blueUsedJump := usedJump)
  }

  /**
   * A wall with two hit points on `position`, owned by the current player,
   * for one energy; afterwards the player can only end the turn.
   */
  function PlaceWallAt(prev: GameState, position: Position): (s: GameState)
    ensures s.walls == prev.walls + [Wall(position, 2, prev.currentPlayer)]
    ensures EnergyOf(s, prev.currentPlayer) == EnergyOf(prev, prev.currentPlayer) - 1
    ensures EnergyOf(s, Opponent(prev.currentPlayer)) == EnergyOf(prev, Opponent(prev.currentPlayer))
    ensures s.lastActionWasWall && s.actionsDisabled && s.selectedAction == None
    ensures s.currentPlayer == prev.currentPlayer
    ensures s.redPosition == prev.redPosition && s.bluePosition == prev.bluePosition
    ensures s.redUsedJump == prev.redUsedJump && s.blueUsedJump == prev.blueUsedJump
    ensures s.gameOver == prev.gameOver && s.winner == prev.winner
  {
    var newWall := Wall(position := position, hp := 2, owner := prev.currentPlayer);
    prev.(
      walls := prev.walls + [newWall],
      redEnergy := if prev.currentPlayer == Red then prev.redEnergy - 1 else prev.redEnergy,
      blueEnergy := if prev.currentPlayer == Blue then prev.blueEnergy - 1 else prev.blueEnergy,
      lastActionWasWall := true,
      actionsDisabled := true,
      selectedAction := None)
  }

  /** `Math.max(0, x)` */
  function AtLeastZero(x: int): (r: int)
    ensures r >= 0 && r >= x && (r == 0 || r == x)
  {
    if 0 > x then 0 else x
  }

  /**
   * The record after a hit: the damaged walls, and one energy lost (never
   * below zero) when the action before was a hit too.
   */
  function HitOutcome(prev: GameState, updatedWalls: seq<Wall>, shouldDeductEnergy: bool): (s: GameState)
    ensures s.walls == updatedWalls && s.selectedAction == None
    ensures var e := EnergyOf(prev, prev.currentPlayer);
      EnergyOf(s, prev.currentPlayer) == if shouldDeductEnergy && e >= 1 then e - 1 else if shouldDeductEnergy then 0 else e
    ensures EnergyOf(s, Opponent(prev.currentPlayer)) == EnergyOf(prev, Opponent(prev.currentPlayer))
    ensures s.currentPlayer == prev.currentPlayer
    ensures s.redPosition == prev.redPosition && s.bluePosition == prev.bluePosition
    ensures s.redUsedJump == prev.redUsedJump && s.blueUsedJump == prev.blueUsedJump
    ensures s.gameOver == prev.gameOver && s.winner == prev.winner
    ensures s.lastActionWasWall == prev.lastActionWasWall && s.actionsDisabled == prev.actionsDisabled
  {
    var updatedRedEnergy := if prev.currentPlayer == Red
      then (if shouldDeductEnergy then AtLeastZero(prev.redEnergy - 1) else prev.redEnergy)
      else prev.redEnergy;
    var updatedBlueEnergy := if prev.currentPlayer == Blue
      then (if shouldDeductEnergy then AtLeastZero(prev.blueEnergy - 1) else prev.blueEnergy)
      else prev.blueEnergy;
    prev.(walls := updatedWalls, selectedAction := None, redEnergy := updatedRedEnergy, blueEnergy := updatedBlueEnergy)
  }

  /** The walls after a hit from the current player's cell. */
  function WallsAfterHit(s: GameState): (r: seq<Wall>)
    ensures UniqueWallCells(s.walls) ==> r == DamageInRange(s.walls, SurroundingPositions(PositionOf(s, s.currentPlayer)))
  {
    var targets := SurroundingPositions(PositionOf(s, s.currentPlayer));
    if UniqueWallCells(s.walls) then
      ApplyHitsIsSimultaneous(s.walls, targets);
      ApplyHits(s.walls, targets)
    else
      ApplyHits(s.walls, targets)
  }

  /**
   * The hit itself, on the state alone: the walls around the current
   * player's token are damaged, and energy is spent only when the previous
   * action was a hit too. Returns how many walls were reached and how many destroyed.
   */
  method HitState(s: GameState, shouldDeductEnergy: bool) returns (next: GameState, hitCount: nat, destroyedCount: nat)
    ensures next == HitOutcome(s, WallsAfterHit(s), shouldDeductEnergy)
    ensures destroyedCount == |s.walls| - |next.walls|
    ensures destroyedCount <= hitCount <= 8
    ensures hitCount == 0 <==>
      forall p :: p in SurroundingPositions(PositionOf(s, s.currentPlayer)) ==> p !in WallCells(s.walls)
    ensures WellFormed(s) ==> WellFormed(next)
  {
    var currentPlayerPosition := PositionOf(s, s.currentPlayer);
    var surroundingPositions := SurroundingPositions(currentPlayerPosition);
    var updatedWalls;
    updatedWalls, hitCount, destroyedCount := DamageWalls(s.walls, surroundingPositions);
    if WellFormed(s) {
      HitKeepsWellFormed(s, shouldDeductEnergy);
    }
    next := HitOutcome(s, updatedWalls, shouldDeductEnergy);
  }

  // ---------------------------------------------------------------------
  // The invariant is kept

  /** A cell a token may enter: on the board and without a wall. */
  predicate OpenCell(s: GameState, p: Position) {
    IsWithinBoard(p) && p !in WallCells(s.walls)
  }

  /** A cell a wall may go on: open, off both tokens, off the bases and off every jump cell. */
  predicate WallSite(s: GameState, p: Position) {
    OpenCell(s, p) && p != s.redPosition && p != s.bluePosition && !IsBaseCell(p) && !IsAnyJumpZone(p)
  }

  /** Target lists that offer only open cells to move to and only wall sites to build on. */
  predicate SafeTargets(s: GameState, v: ValidMoves) {
    && (forall q :: q in v.moves ==> OpenCell(s, q))
    && (forall q :: q in v.wallPlacements ==> WallSite(s, q))
  }

  /** The lists the validation computes for a state are safe for it. */
  lemma ListedTargetsAreFree(s: GameState)
    ensures SafeTargets(s, ValidMovesFor(s))
  {
    WallPlacementsFor(s);
  }

  /** A paid move to an open cell keeps the state well formed. */
  lemma MoveKeepsWellFormed(s: GameState, position: Position)
    requires WellFormed(s) && OpenCell(s, position) && EnergyOf(s, s.currentPlayer) >= 1
    ensures WellFormed(MoveTo(s, position))
  {
    var t := MoveTo(s, position);
    assert forall w :: w in s.walls ==> w.position != position;
    if position != PositionOf(s, Opponent(s.currentPlayer)) {
      forall w | w in t.walls ensures WallAllowed(t, w) {
        assert WallAllowed(s, w);
      }
    }
  }

  /** A paid wall on a wall site keeps the state well formed. */
  lemma PlaceWallKeepsWellFormed(s: GameState, position: Position)
    requires WellFormed(s) && WallSite(s, position) && EnergyOf(s, s.currentPlayer) >= 1
    ensures WellFormed(PlaceWallAt(s, position))
  {
    var t := PlaceWallAt(s, position);
    var newWall := Wall(position, 2, s.currentPlayer);
    UniqueSnoc(s.walls, newWall);
    assert WallAllowed(t, newWall);
    forall w | w in t.walls ensures WallAllowed(t, w) {
      if w != newWall {
        assert w in s.walls && WallAllowed(s, w);
      }
    }
    assert 0 <= t.redEnergy <= 2 && 0 <= t.blueEnergy <= 2;
  }

  lemma UniqueSnoc(walls: seq<Wall>, newWall: Wall)
    requires UniqueWallCells(walls) && newWall.position !in WallCells(walls)
    ensures UniqueWallCells(walls + [newWall])
  {
    var r := walls + [newWall];
    forall i, j | 0 <= i < j < |r| ensures r[i].position != r[j].position {
      assert r[i] == walls[i];
      if j == |walls| {
        assert walls[i] in walls;
      } else {
        assert r[j] == walls[j];
      }
    }
  }

  /** A hit keeps the state well formed: walls only lose hit points or disappear. */
  lemma HitKeepsWellFormed(s: GameState, shouldDeductEnergy: bool)
    requires WellFormed(s)
    ensures WellFormed(HitOutcome(s, WallsAfterHit(s), shouldDeductEnergy))
  {
    var targets := SurroundingPositions(PositionOf(s, s.currentPlayer));
    ApplyHitsIsSimultaneous(s.walls, targets);
    DamageKeepsCellsUnique(s.walls, targets);
    DamageOrigin(s.walls, targets);
    var t := HitOutcome(s, WallsAfterHit(s), shouldDeductEnergy);
    forall x | x in t.walls ensures WallAllowed(t, x) {
      if x !in s.walls {
        assert WallAllowed(s, x.(hp := x.hp + 1));
      } else {
        assert WallAllowed(s, x);
      }
    }
  }

  // ---------------------------------------------------------------------
  // What the actions mean for the rules

  /** After the jump the mover cannot jump again this turn: every further move is a step. */
  lemma JumpOncePerTurn(s: GameState, position: Position)
    requires position in ValidMovesFor(s).moves
    requires !IsOrthogonalNeighbour(PositionOf(s, s.currentPlayer), position)
    requires position != PositionOf(s, Opponent(s.currentPlayer))
    ensures var t := MoveTo(s, position);
      forall q :: q in ValidMovesFor(t).moves ==> IsOrthogonalNeighbour(PositionOf(t, t.currentPlayer), q)
  {
    JumpGoesToPartner(s, position);
  }

  /** After a wall the turn is locked: no action is allowed and the turn can be ended. */
  lemma WallLocksTurn(s: GameState, position: Position, hitUsedCount: int, action: ActionType)
    ensures var t := PlaceWallAt(s, position);
      !HasEnoughEnergy(t, hitUsedCount, action) && CanEndTurn(t, true)
  {
  }

  /** The player after a wall owner's turn gets two energy, else one. */
  lemma WallGivesOpponentTwoEnergy(s: GameState, position: Position)
    ensures var t := NextTurn(PlaceWallAt(s, position));
      t.currentPlayer == Opponent(s.currentPlayer) && EnergyOf(t, t.currentPlayer) == 2
  {
  }

  /**
   * When no wall around the hitter is down to its last hit point, a hit
   * takes exactly one hit point from every wall around it and touches no other wall.
   */
  lemma HitWeakensWallsAround(s: GameState)
    requires WellFormed(s)
    requires forall w :: w in s.walls && IsSurrounding(PositionOf(s, s.currentPlayer), w.position) ==> w.hp > 1
    ensures var pos, r := PositionOf(s, s.currentPlayer), WallsAfterHit(s);
      |r| == |s.walls| &&
      forall i :: 0 <= i < |r| ==>
        r[i] == if IsSurrounding(pos, s.walls[i].position) then Weakened(s.walls[i]) else s.walls[i]
  {
    var pos := PositionOf(s, s.currentPlayer);
    var targets := SurroundingPositions(pos);
    ApplyHitsIsSimultaneous(s.walls, targets);
    assert forall w :: w in s.walls ==> WallAllowed(s, w) && (w.position in targets <==> IsSurrounding(pos, w.position));
    DamageWithoutRemoval(s.walls, targets);
  }

  /** The action selected before a hit does not change its outcome, and selecting one keeps the invariant. */
  lemma SelectionDoesNotAffectHit(s: GameState, selected: Option<ActionType>, shouldDeductEnergy: bool)
    ensures WallsAfterHit(s.(selectedAction := selected)) == WallsAfterHit(s)
    ensures HitOutcome(s.(selectedAction := selected), WallsAfterHit(s), shouldDeductEnergy)
         == HitOutcome(s, WallsAfterHit(s), shouldDeductEnergy)
    ensures WellFormed(s) ==> WellFormed(s.(selectedAction := selected))
  {
    var t := s.(selectedAction := selected);
    assert PositionOf(t, t.currentPlayer) == PositionOf(s, s.currentPlayer);
    assert forall w :: WallAllowed(t, w) == WallAllowed(s, w);
  }

  // ---------------------------------------------------------------------
  // The engine

  /**
   * The game state together with the two counters kept beside it. `Valid`
   * is the invariant every action keeps when it is driven through the game's
   * own controls.
   */
  class GameEngine {
    var state: GameState
    var hitUsedCount: int
    var lastActionWasHit: bool

    ghost predicate Valid()
      reads this
    {
      WellFormed(state) && 0 <= hitUsedCount <= 2
    }

    constructor(startingPlayer: Player)
      ensures state == InitializeGameState(startingPlayer) && hitUsedCount == 0 && !lastActionWasHit
      ensures Valid()
    {
      state := InitializeGameState(startingPlayer);
      hitUsedCount := 0;
      lastActionWasHit := false;
    }

    /** A fresh game; the colour that starts is chosen by the caller. */
    method ResetGame(startingPlayer: Player)
      modifies this
      ensures state == InitializeGameState(startingPlayer) && hitUsedCount == 0 && !lastActionWasHit
      ensures Valid()
    {
      state := InitializeGameState(startingPlayer);
      hitUsedCount := 0;
      lastActionWasHit := false;
    }

    method NextPlayer()
      modifies this
      ensures state == NextTurn(old(state)) && hitUsedCount == 0 && !lastActionWasHit
      ensures old(Valid()) ==> Valid()
    {
      state := NextTurn(state);
      hitUsedCount := 0;
      lastActionWasHit := false;
    }

    /**
     * A hit on every cell around the current player's token, refused once
     * the hits this turn reach the energy. Returns how many walls were
     * reached and how many destroyed.
     */
    method HitAllAdjacentCells() returns (hitCount: nat, destroyedCount: nat)
      modifies this
      ensures old(hitUsedCount) >= EnergyOf(old(state), old(state).currentPlayer) ==>
        state == old(state) && hitUsedCount == old(hitUsedCount) && lastActionWasHit == old(lastActionWasHit) &&
        hitCount == 0 && destroyedCount == 0
      ensures old(hitUsedCount) < EnergyOf(old(state), old(state).currentPlayer) ==>
        && state == HitOutcome(old(state), WallsAfterHit(old(state)), old(lastActionWasHit))
        && hitUsedCount == old(hitUsedCount) + 1 && lastActionWasHit
        && destroyedCount == |old(state).walls| - |state.walls|
        && destroyedCount <= hitCount <= 8
        && (hitCount == 0 <==>
            forall p :: p in SurroundingPositions(PositionOf(old(state), old(state).currentPlayer)) ==>
              p !in WallCells(old(state).walls))
      ensures old(Valid()) ==> Valid()
    {
      var currentEnergy := EnergyOf(state, state.currentPlayer);
      if hitUsedCount >= currentEnergy {
        return 0, 0;
      }
      var next;
      next, hitCount, destroyedCount := HitState(state, lastActionWasHit);
      assert WellFormed(state) ==> hitUsedCount + 1 <= 2;
      state, hitUsedCount, lastActionWasHit := next, hitUsedCount + 1, true;
    }

    /** Choosing an action; choosing the hit carries it out at once unless the hit limit is reached. */
    method SelectAction(action: ActionType)
      modifies this
      ensures action != HitAction ==>
        state == old(state).(selectedAction := Some(action)) && hitUsedCount == old(hitUsedCount) && !lastActionWasHit
      ensures action == HitAction && old(hitUsedCount) >= EnergyOf(old(state), old(state).currentPlayer) ==>
        state == old(state).(selectedAction := Some(HitAction)) &&
        hitUsedCount == old(hitUsedCount) && lastActionWasHit == old(lastActionWasHit)
      ensures action == HitAction && old(hitUsedCount) < EnergyOf(old(state), old(state).currentPlayer) ==>
        state == HitOutcome(old(state), WallsAfterHit(old(state)), old(lastActionWasHit)) &&
        hitUsedCount == old(hitUsedCount) + 1 && lastActionWasHit
      ensures old(Valid()) ==> Valid()
    {
      ghost var wasValid := Valid();
      SelectionDoesNotAffectHit(state, Some(action), lastActionWasHit);
      state := state.(selectedAction := Some(action));
      assert wasValid ==> Valid();
      if action == MoveAction {
        lastActionWasHit := false;
      } else if action == HitAction {
        var currentEnergy := EnergyOf(state, state.currentPlayer);
        if hitUsedCount >= currentEnergy {
          return;
        }
        var _, _ := HitAllAdjacentCells();
      } else {
        lastActionWasHit := false;
      }
    }

    method MovePlayer(position: Position)
      modifies this
      ensures !HasEnoughEnergy(old(state), old(hitUsedCount), MoveAction) ==>
        state == old(state) && hitUsedCount == old(hitUsedCount) && lastActionWasHit == old(lastActionWasHit)
      ensures HasEnoughEnergy(old(state), old(hitUsedCount), MoveAction) ==>
        state == MoveTo(old(state), position) && hitUsedCount == old(hitUsedCount) && !lastActionWasHit
      ensures old(Valid()) && OpenCell(old(state), position) ==> Valid()
    {
      if !HasEnoughEnergy(state, hitUsedCount, MoveAction) {
        return;
      }
      if WellFormed(state) && OpenCell(state, position) {
        MoveKeepsWellFormed(state, position);
      }
      lastActionWasHit := false;
      state := MoveTo(state, position);
    }

    method PlaceWall(position: Position)
      modifies this
      ensures !HasEnoughEnergy(old(state), old(hitUsedCount), WallAction) ==>
        state == old(state) && hitUsedCount == old(hitUsedCount) && lastActionWasHit == old(lastActionWasHit)
      ensures HasEnoughEnergy(old(state), old(hitUsedCount), WallAction) ==>
        state == PlaceWallAt(old(state), position) && hitUsedCount == old(hitUsedCount) && !lastActionWasHit
      ensures old(Valid()) && WallSite(old(state), position) ==> Valid()
    {
      if !HasEnoughEnergy(state, hitUsedCount, WallAction) {
        return;
      }
      if WellFormed(state) && WallSite(state, position) {
        PlaceWallKeepsWellFormed(state, position);
      }
      lastActionWasHit := false;
      state := PlaceWallAt(state, position);
    }

    /**
     * A click on a cell carries out the selected move or wall when the cell
     * is one of the listed targets. After a move the selection is cleared even
     * when the move was refused for lack of energy.
     */
    method HandleCellClick(position: Position, validMoves: ValidMoves)
      modifies this
      ensures old(state).gameOver || old(state).selectedAction == None || old(state).selectedAction == Some(HitAction) ==>
        state == old(state) && hitUsedCount == old(hitUsedCount) && lastActionWasHit == old(lastActionWasHit)
      ensures !old(state).gameOver && old(state).selectedAction == Some(MoveAction) ==>
        if position !in validMoves.moves
        then state == old(state) && lastActionWasHit == old(lastActionWasHit)
        else if HasEnoughEnergy(old(state), old(hitUsedCount), MoveAction)
        then state == MoveTo(old(state), position).(selectedAction := None) && !lastActionWasHit
        else state == old(state).(selectedAction := None) && lastActionWasHit == old(lastActionWasHit)
      ensures !old(state).gameOver && old(state).selectedAction == Some(WallAction) ==>
        if position in validMoves.wallPlacements && HasEnoughEnergy(old(state), old(hitUsedCount), WallAction)
        then state == PlaceWallAt(old(state), position) && !lastActionWasHit
        else state == old(state) && lastActionWasHit == old(lastActionWasHit)
      ensures hitUsedCount == old(hitUsedCount)
      ensures old(Valid()) && SafeTargets(old(state), validMoves) ==> Valid()
    {
      if state.gameOver {
        return;
      }
      match state.selectedAction {
        case None =>
        case Some(selectedAction) =>
          if selectedAction == MoveAction {
            if position in validMoves.moves {
              MoveSelected(position);
            }
          } else if selectedAction == WallAction {
            if position in validMoves.wallPlacements {
              PlaceWall(position);
            }
          }
      }
    }

    /** The move branch of a click: the move is tried, and the selection is cleared either way. */
    method MoveSelected(position: Position)
      modifies this
      ensures if HasEnoughEnergy(old(state), old(hitUsedCount), MoveAction)
        then state == MoveTo(old(state), position).(selectedAction := None) && !lastActionWasHit
        else state == old(state).(selectedAction := None) && lastActionWasHit == old(lastActionWasHit)
      ensures hitUsedCount == old(hitUsedCount)
      ensures old(Valid()) && OpenCell(old(state), position) ==> Valid()
    {
      MovePlayer(position);
      SelectionDoesNotAffectHit(state, None, lastActionWasHit);
      state := state.(selectedAction := None);
    }
  }
}
