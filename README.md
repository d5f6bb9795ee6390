# Grid Gladiators rules engine in Dafny

The model covers the rules engine of a two-player grid game. The board has 4 rows and 5 columns. Red starts on (0,0) and Blue on (3,4). Each colour has two jump cells. Two energy cells refund the cost of a move. On a turn, a player spends energy to:

- **move** one step, or jump once between their own jump cells, capturing the opponent by moving onto their token;
- **hit** every wall on the eight cells around the token;
- **place a wall**, which ends what the player may do that turn.

The next player gets one energy, or two if the turn before ended with a wall.

The project has five modules:

- `GameTypes` (`game_types.dfy`) holds the records of `src/types/gameTypes.ts`: positions, walls, the game state and the three target lists.
- `GameUtils` (`game_utils.dfy`) holds the pure helpers of `src/utils/gameUtils.ts`:
  - the board bounds and neighbour lists;
  - the special cells and the jump-pair rule;
  - `getValidMoves`, the initial state, the cell colouring and the `MM:SS` clock.

  It also defines `WellFormed`, the state invariant: both tokens on the board and apart, energy in 0..2, at most one wall per cell, walls only on ordinary free cells with 1 or 2 hit points, and a winner exactly when the game is over.
- `HitResolution` (`hit_resolution.dfy`) holds the hit loop of `hitAllAdjacentCells`, in two versions:
  - `ApplyHitsAsWritten` is the loop exactly as the code has it. Each wall's index is looked up in the list from before the hit and applied to the copy being edited (see Findings).
  - `DamageWalls` is the corrected loop, a `for` loop over a copy of the wall list that looks each wall up in the copy itself. `ApplyHits` is its specification, and `DamageInRange` is the all-at-once meaning of a hit.
  - The engine uses the corrected loop. The two agree whenever no wall in range is destroyed (`AsWrittenAgreesWithoutRemoval`).
- `GameValidations` (`game_validations.dfy`) models `useGameValidations`:
  - the choice of the current player's token, own jump-cell flag and own used-jump flag;
  - the class `MoveValidator`, which stores the target lists.
- `GameActions` (`game_actions.dfy`) models `useGameActions`:
  - the record updates `NextTurn`, `MoveTo`, `PlaceWallAt` and `HitOutcome`;
  - the guard `HasEnoughEnergy` and the end-turn rule;
  - the class `GameEngine`, whose fields are the game state, `hitUsedCount` and `lastActionWasHit`. It has one method per action. Each method states its new state exactly and keeps `Valid()` (`WellFormed` plus `hitUsedCount <= 2`) when driven through the game's own controls.

Inputs the code takes from its environment become parameters:

- The random first player of `initializeGameState` is a parameter.
- `handleCellClick` receives the stored target lists as a parameter, as the hook receives them as a prop. The invariant is kept whenever those lists offer only cells that are free for the action (`SafeTargets`). The lists `ValidMovesFor` computes for the current state always do (`ListedTargetsAreFree`), and those are what the validation hook keeps them at.

Where the game's described rules differ from its code, the model follows the code. The code lacks these features, and so does the model:

- four energy cells: the code has only two, (0,4) and (3,0);
- a check before a wall is placed that a path still joins the bases;
- knockback from a hit;
- a cost per hit that rises beyond the consecutive-hit rule;
- an `actionsDisabled` check in the hit itself: only the buttons are disabled.

## Model

| member | source | states |
|---|---|---|
| GameUtils.AdjacentPositions | src/utils/gameUtils.ts:58-72 | at most 4 distinct cells; exactly the on-board cells at Manhattan distance 1 |
| GameUtils.AdjacentOrder | src/utils/gameUtils.ts:58-72 | the neighbours come in up, down, left, right order |
| GameUtils.DiagonalPositions | src/utils/gameUtils.ts:75-89 | at most 4 distinct cells; exactly the on-board cells with row and column distance 1 |
| GameUtils.DiagonalOrder | src/utils/gameUtils.ts:75-89 | the diagonals come in up-left, up-right, down-left, down-right order |
| GameUtils.SurroundingPositions | src/utils/gameUtils.ts:92-97 | at most 8 distinct cells, never the cell itself; exactly the on-board orthogonal and diagonal neighbours, the orthogonal ones first |
| GameUtils.BoardCells | src/utils/gameUtils.ts:53-55 | `isWithinBoard` accepts exactly twenty cells, 4 rows of 5, listed row by row with each cell once, the cell numbered i at row i / 5 and column i mod 5 |
| GameUtils.BaseCell | src/utils/gameUtils.ts:13-16 | each base lies on the board |
| GameUtils.JumpZones | src/utils/gameUtils.ts:19-28 | each colour has two different on-board jump cells |
| GameUtils.JumpZonesGeometry | src/utils/gameUtils.ts:19-28 | a colour's two jump cells are diagonal neighbours, and both are orthogonal neighbours of its base |
| GameUtils.JumpZonesNextToBase | src/utils/gameUtils.ts:248-255 | `isPlayerJumpZone`: a cell is a jump cell of a colour iff it is on the board next to that colour's base |
| GameUtils.AnyJumpZoneNextToBase | src/utils/gameUtils.ts:119-122 | `isAnyJumpZone`: a cell is a jump cell iff it is on the board next to either base |
| GameUtils.IsBaseCell | src/utils/gameUtils.ts:130-133 | both bases are corners of the board, and neither is a jump cell |
| GameUtils.ExtraEnergyCells | src/utils/gameUtils.ts:31-34 | two different on-board energy cells |
| GameUtils.IsExtraEnergyCell | src/utils/gameUtils.ts:37-40 | a cell is an energy cell iff it is a corner that is not a base; energy cells are on the board and are no jump cell |
| GameUtils.JumpDiagonalPositions | src/utils/gameUtils.ts:100-116 | empty off the player's own jump cells; on one of them, exactly one cell, the player's other jump cell |
| GameUtils.JumpFilterKeepsPartner | src/utils/gameUtils.ts:108-115 | from a jump cell, filtering its diagonals for own jump cells other than itself leaves exactly the partner cell |
| GameUtils.WallIndex | src/utils/gameUtils.ts:125-127 | -1 exactly when no wall stands on the cell, otherwise the index of the first wall on it |
| GameUtils.FindWallAtPosition | src/utils/gameUtils.ts:125-127 | a wall exactly when one stands on the cell, and then the first such wall |
| GameUtils.MoveTargets | src/utils/gameUtils.ts:149-170 | a cell is a move target iff it is on the board, holds no wall, and is an orthogonal neighbour or, when the jump is allowed and unused, the other own jump cell; the opponent's cell is not excluded |
| GameUtils.WallPlacementTargets | src/utils/gameUtils.ts:173-191 | a cell is offered for a wall iff it is an on-board orthogonal neighbour with no wall, neither token, no base and no jump cell of either colour |
| GameUtils.HitTargets | src/utils/gameUtils.ts:194-199 | a cell is a hit target iff it is an on-board surrounding cell holding a wall |
| GameUtils.GetValidMoves | src/utils/gameUtils.ts:136-202 | the three lists have exactly the members above |
| GameUtils.InitializeGameState | src/utils/gameUtils.ts:205-226 | tokens on the bases, no walls, energy 1 and 1, all flags off, no winner, the given first player; the state is well formed |
| GameUtils.GetCellClass | src/utils/gameUtils.ts:229-245 | each base, jump and energy class is given exactly to its own cells, and every other cell is empty |
| GameUtils.NatToString | src/utils/gameUtils.ts:9 | at least one decimal digit, no leading zero |
| GameUtils.NatToStringValue | src/utils/gameUtils.ts:9 | the digits denote the number |
| GameUtils.NumberToString | src/utils/gameUtils.ts:9 | the digits of a non-negative number; for a negative one a '-' followed by the digits of its magnitude |
| GameUtils.PadStart2 | src/utils/gameUtils.ts:9 | `padStart(2, '0')`: length at least two, the original at the end, zeros in front |
| GameUtils.PaddedValue | src/utils/gameUtils.ts:9 | padding a number's digits keeps them digits of the same value |
| GameUtils.TruncatedRemainder | src/utils/gameUtils.ts:7 | JavaScript `%`: below the divisor in magnitude, the mathematical remainder for a non-negative dividend; for a negative dividend the remainder is at most zero and completes the quotient rounded toward zero, so -1 % 60 is -1 and not 59 |
| GameUtils.FormatTime | src/utils/gameUtils.ts:5-10 | at least five characters with a ':' |
| GameUtils.FormatTimeFields | src/utils/gameUtils.ts:5-10 | for seconds >= 0 the text before the last ':' is the digits of seconds / 60 (rounded down), and after it exactly two digits of seconds mod 60, below 60 |
| GameUtils.ClockFields | src/utils/gameUtils.ts:9 | padded minutes, ':' and padded seconds below 60 read back as those two numbers |
| GameUtils.FormatTimeNegative | src/utils/gameUtils.ts:5-10 | negative seconds show a leading minus sign |
| HitResolution.HitCell | src/hooks/game/useGameActions.tsx:166-186 | a cell without a wall leaves the list unchanged |
| HitResolution.HitOneCell | src/hooks/game/useGameActions.tsx:166-186 | one cell of the corrected loop: a wall is reached iff one stands on the cell, destroyed only if reached, and the list shrinks by one exactly when it is destroyed |
| HitResolution.DamageWalls | src/hooks/game/useGameActions.tsx:159-186 | the corrected loop computes `ApplyHits`; the number destroyed is the drop in list length; destroyed <= reached <= cells visited; nothing is reached iff no visited cell held a wall |
| HitResolution.ApplyHitsIsSimultaneous | src/hooks/game/useGameActions.tsx:166-186 | with one wall per cell and no cell visited twice, the cell-by-cell loop equals damaging every wall in range at once |
| HitResolution.DamageStep | src/hooks/game/useGameActions.tsx:166-186 | damaging one more cell at once is one more loop step |
| HitResolution.DamageSurvivors | src/hooks/game/useGameActions.tsx:173-184 | walls out of range stay unchanged; walls in range with hp above 1 stay with one hit point less |
| HitResolution.DamageOrigin | src/hooks/game/useGameActions.tsx:173-184 | every wall afterwards is an untouched wall out of range or a wall in range that lost exactly one hit point and still has at least one |
| HitResolution.DamageWithoutRemoval | src/hooks/game/useGameActions.tsx:173-184 | when no wall in range has hp 1, length and order are kept and exactly the walls in range lose one hit point |
| HitResolution.DamageKeepsCellsUnique | src/hooks/game/useGameActions.tsx:166-186 | damage keeps at most one wall per cell and occupies no new cell |
| HitResolution.HitCellAsWritten | src/hooks/game/useGameActions.tsx:166-186 | one cell of the loop as written: a cell with no wall in the original list changes nothing; the step fails exactly when the original index is past the end of the copy; otherwise the copy loses at most one wall |
| HitResolution.AsWrittenLength | src/hooks/game/useGameActions.tsx:159-186 | `ApplyHitsAsWritten`, when it does not fail, removes at most one wall per cell and adds none |
| HitResolution.AsWrittenSkipsFreeCells | src/hooks/game/useGameActions.tsx:173 | in the loop as written, cells with no wall in the original list leave the copy as it is |
| HitResolution.AsWrittenStaysBroken | src/hooks/game/useGameActions.tsx:166-186 | once the loop as written has written past the end, the rest of the hit cannot repair it |
| HitResolution.AsWrittenAgreesWithoutRemoval | src/hooks/game/useGameActions.tsx:166-186 | the loop as written agrees with the corrected loop whenever no wall in range is destroyed |
| HitResolution.AsWrittenMisdirectsHit | src/hooks/game/useGameActions.tsx:168-183 | a concrete hit from (1,1) where the loop as written damages the wrong wall, and one where it writes past the end of the list |
| HitResolution.SurroundingOfCentre | src/utils/gameUtils.ts:92-97 | the cells around (1,1), in the order the hit visits them |
| GameValidations.ValidMovesFor | src/hooks/game/useGameValidations.tsx:17-28 | the moves offered are the steps from the current player's token and, only from that player's own jump cell with that player's jump unused, the other own jump cell |
| GameValidations.WallPlacementsFor | src/hooks/game/useGameValidations.tsx:17-28 | wall cells for the current player are free orthogonal neighbours off both tokens, the bases and every jump cell |
| GameValidations.HitTargetsFor | src/hooks/game/useGameValidations.tsx:17-28 | hit targets are the walled cells around the current player's token |
| GameValidations.JumpGoesToPartner | src/hooks/game/useGameValidations.tsx:20-21 | a move that is not a step is the unused jump, diagonally, from an own jump cell to the other one |
| GameValidations.JumpPartner | src/utils/gameUtils.ts:100-116 | two different jump cells of one colour are diagonal neighbours and each is the other's only jump target |
| GameValidations.OpponentJumpCellsGiveNoJump | src/hooks/game/useGameValidations.tsx:20 | standing on an opponent's jump cell never offers a diagonal |
| GameValidations.CaptureIsOffered | src/utils/gameUtils.ts:150-156 | in a well-formed state an adjacent opponent's cell is always a move target |
| GameValidations.MoveValidator.constructor | src/hooks/game/useGameValidations.tsx:7-11 | the stored lists start empty |
| GameValidations.MoveValidator.UpdateValidMoves | src/hooks/game/useGameValidations.tsx:14-31 | once the game is over the stored lists are kept; otherwise they become `ValidMovesFor` of the state |
| GameActions.HasEnoughEnergy | src/hooks/game/useGameActions.tsx:54-71 | false while actions are disabled; a move or a wall needs at least one energy; a hit needs fewer hits used than the energy |
| GameActions.CanEndTurn | src/components/GameControls.tsx:36 | when the turn can be ended, it is the player's own turn and no action is allowed for any number of hits used; on one's own turn with non-negative energy, the turn can be ended once a move is not allowed |
| GameActions.NoEnergyOnlyEndTurn | src/components/GameControls.tsx:36 | with zero energy no action is allowed and the turn can be ended |
| GameActions.NextTurn | src/hooks/game/useGameActions.tsx:94-113 | the player swaps; the incoming player's energy becomes 2 after a wall, else 1, and their jump is reset; the outgoing player's energy and jump, the tokens, the walls and the result are kept; the selection and both wall flags are cleared; well-formedness is kept |
| GameActions.MoveTo | src/hooks/game/useGameActions.tsx:326-386 | onto the opponent: the game is over with the mover as winner and nothing else changes; otherwise only the mover's token, energy (minus one, nothing on an energy cell) and jump flag (set by a diagonal step) change |
| GameActions.PlaceWallAt | src/hooks/game/useGameActions.tsx:406-423 | one wall with hp 2 and the mover as owner is appended, the mover pays one energy, the turn is locked and the selection cleared; tokens, jumps and the result are kept |
| GameActions.AtLeastZero | src/hooks/game/useGameActions.tsx:196 | `Math.max(0, x)` |
| GameActions.HitOutcome | src/hooks/game/useGameActions.tsx:188-239 | the walls are replaced, the selection is cleared, and the hitter loses one energy (not below zero) only after a previous hit; nothing else changes |
| GameActions.WallsAfterHit | src/hooks/game/useGameActions.tsx:159-186 | with one wall per cell, the walls after the corrected hit are the all-at-once damage of the cells around the current token |
| GameActions.MoveKeepsWellFormed | src/hooks/game/useGameActions.tsx:326-386 | a paid move to an on-board cell without a wall keeps the state well formed, whether or not it captures |
| GameActions.PlaceWallKeepsWellFormed | src/hooks/game/useGameActions.tsx:406-423 | a paid wall on a free cell off both tokens, the bases and the jump cells keeps one wall per cell, walls where they are allowed, and energy in range |
| GameActions.ListedTargetsAreFree | src/utils/gameUtils.ts:149-191 | every listed move target is on the board without a wall, and every listed wall cell is also off both tokens, the bases and the jump cells |
| GameActions.UniqueSnoc | src/hooks/game/useGameActions.tsx:416 | appending a wall on a free cell keeps one wall per cell |
| GameActions.HitKeepsWellFormed | src/hooks/game/useGameActions.tsx:159-239 | a hit keeps the state well formed |
| GameActions.JumpOncePerTurn | src/hooks/game/useGameActions.tsx:342-373 | after the jump every further move offered that turn is a step |
| GameActions.WallLocksTurn | src/hooks/game/useGameActions.tsx:419-420 | after a wall no action is allowed and the turn can be ended |
| GameActions.WallGivesOpponentTwoEnergy | src/hooks/game/useGameActions.tsx:101 | the player after a wall placer starts with two energy |
| GameActions.HitWeakensWallsAround | src/hooks/game/useGameActions.tsx:166-186 | when no wall around the hitter has hp 1, every wall around it loses exactly one hit point and no other wall changes |
| GameActions.GameEngine.constructor | src/hooks/game/useGameLogic.tsx:13-14 | the engine starts in the initial state with no hits used |
| GameActions.GameEngine.ResetGame | src/hooks/game/useGameActions.tsx:74-91 | the initial state, no hits used, last action not a hit |
| GameActions.GameEngine.NextPlayer | src/hooks/game/useGameActions.tsx:94-120 | the state becomes `NextTurn` of the old one, the hit count is reset and the hit flag cleared; the invariant is kept |
| GameActions.HitState | src/hooks/game/useGameActions.tsx:159-239 | the hit on the state alone: `HitOutcome` with the walls damaged around the current token; the destroyed count is the drop in the number of walls, at most the reached count, at most 8; nothing is reached iff no surrounding cell holds a wall; well-formedness is kept |
| GameActions.GameEngine.HitAllAdjacentCells | src/hooks/game/useGameActions.tsx:129-245 | refused without change when the hits used reach the energy; otherwise the walls are damaged around the token, energy is lost only for a second hit in a row, the hit count rises by one, and the counts of reached and destroyed walls are returned; the invariant is kept |
| GameActions.GameEngine.SelectAction | src/hooks/game/useGameActions.tsx:260-299 | the selection is recorded; move and wall clear the hit flag; hit runs at once unless the limit is reached; the invariant is kept |
| GameActions.GameEngine.MovePlayer | src/hooks/game/useGameActions.tsx:313-390 | refused without change without energy; otherwise `MoveTo` and the hit flag cleared; a target on the board without a wall keeps the invariant |
| GameActions.GameEngine.PlaceWall | src/hooks/game/useGameActions.tsx:393-433 | refused without change without energy; otherwise `PlaceWallAt` and the hit flag cleared; a free target off tokens, bases and jump cells keeps the invariant |
| GameActions.GameEngine.MoveSelected | src/hooks/game/useGameActions.tsx:453-454 | the move attempt of a click: `MoveTo` with the selection cleared when energy allows, otherwise only the selection cleared; the hit count is kept; a target on the board without a wall keeps the invariant |
| GameActions.GameEngine.HandleCellClick | src/hooks/game/useGameActions.tsx:436-469 | nothing happens once the game is over, with no selection, or with the hit selected; a move or wall happens only on a listed cell; after a listed move the selection is cleared even if the move is refused; with lists that offer only free cells, such as those of the current state, the invariant is kept |

## Left out

- Toasts, sounds, animations, highlighted cells and the timers are left out: the 800 ms delay before a hit takes effect and the 1200 ms energy animation. They have no effect on the rules, so a hit takes effect at once. `triggerEnergyGainAnimation` is left out for the same reason.
- The React plumbing is replaced by one sequential engine object. Each action reads the state left by the previous one, so stale closures are not modelled.
- `endTurn` (`src/hooks/game/useGameActions.tsx:472-474`) only calls `nextPlayer` and is not modelled separately.
- The validation hook's `useEffect` is not modelled as an automatic trigger: callers run `UpdateValidMoves` after each state change.
- `Math.random` in `initializeGameState` is replaced by a parameter for the first player.
- Networking, persistence, the lobby, the chat and all rendering code are left out. `src/hooks/game/useGameLogic.tsx` is not part of this model beyond the initial state and the `hitUsedCount` counter it keeps.
- The optional `broken` flag of a wall is never set by the code and is not modelled.
- Numbers are modelled as unbounded integers. Non-integer seconds in `formatTime` and non-integer energies do not arise and are not modelled.
- GameUtils.FormatTime: for negative seconds only the leading minus sign is stated (`FormatTimeNegative`), because the text is not in `MM:SS` form there.
- HitResolution.DamageWalls: this is the corrected loop, which looks each wall up in the edited copy. The code looks it up in `prev.walls` (`src/hooks/game/useGameActions.tsx:168`). The results differ whenever a hit destroys a wall that sits earlier in the list than another wall in range; `ApplyHitsAsWritten` models the code as written.
- HitResolution.HitCell: the step of the corrected loop, which looks the wall up in the list being edited; the code takes the index from `prev.walls` (`HitCellAsWritten`).
- HitResolution.HitOneCell: one cell of the corrected loop, with the same difference from the code as `DamageWalls`.
- GameActions.WallsAfterHit: the walls after the corrected loop, not after the loop as written.
- GameActions.HitState: the hit uses the corrected loop, so its walls differ from the code's whenever a destroyed wall sits earlier in the list than another wall in range.
- GameActions.HitKeepsWellFormed: holds for the corrected loop only. From a well-formed state, the loop as written can leave a wall record with no position (`AsWrittenMisdirectsHit`).
- GameActions.GameEngine.HitAllAdjacentCells: the refusal, the energy rule and the counter follow the code, but the walls come from the corrected loop, as in `HitState`.
- GameActions.GameEngine.SelectAction: selecting the hit runs `HitAllAdjacentCells`, so the walls it stores come from the corrected loop.
- HitResolution.ApplyHitsAsWritten: once the loop as written writes past the end of the list, the result is `None`. The code goes on with a wall record that has no position, and `positionsEqual` fails on it at the next lookup in that list.

## Findings

| source | as written | input that shows it | evidently intended | confidence | as-written member | corrected member |
|---|---|---|---|---|---|---|
| src/hooks/game/useGameActions.tsx:168-183 | the index of each wall is looked up in the walls from before the hit (`prev.walls`) but applied to the copy that earlier cells of the same hit have already spliced | Red on (1,1); walls on (2,1) with hp 1, (1,2) with hp 2 and (3,2) with hp 2. The first wall is removed, then the hit meant for (1,2) lands on the out-of-range wall at (3,2). Without the wall at (3,2), the index points past the end of the list | every wall in range loses one hit point, and walls at 0 are removed | not executed | HitResolution.AsWrittenMisdirectsHit (on HitResolution.ApplyHitsAsWritten) | HitResolution.DamageWalls with HitResolution.ApplyHitsIsSimultaneous and GameActions.HitWeakensWallsAround |
