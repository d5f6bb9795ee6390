/**
 * The data model of the game: the two colours, board positions, walls,
 * the game-state record and the three lists of legal targets.
 */
module GameTypes {

  datatype Option<T> = None | Some(value: T)

  /** The two colours: Red starts on the top-left base, Blue on the bottom-right one. */
  datatype Player = Red | Blue

  function Opponent(p: Player): (q: Player)
    ensures q != p
  {
    if p == Red then Blue else Red
  }

  /** A cell of the board; row and column are plain numbers, not yet checked against the bounds. */
  datatype Position = Position(row: int, col: int)

  /** The three actions a player can select. */
  datatype ActionType = MoveAction | HitAction | WallAction

  /** The CSS class a cell is drawn with. */
  datatype CellType = Empty | BaseRed | BaseBlue | JumpRed | JumpBlue | ExtraEnergy

  /** A wall on one cell; the optional `broken` flag is never set and is not modelled. */
  datatype Wall = Wall(position: Position, hp: int, owner: Player)

  datatype GameState = GameState(
    currentPlayer: Player,
    redPosition: Position,
    bluePosition: Position,
    walls: seq<Wall>,
    redEnergy: int,
    blueEnergy: int,
    redUsedJump: bool,
    blueUsedJump: bool,
    selectedAction: Option<ActionType>,
    gameOver: bool,
    winner: Option<Player>,
    lastActionWasWall: bool,
    actionsDisabled: bool)

  datatype ValidMoves = ValidMoves(
    moves: seq<Position>,
    wallPlacements: seq<Position>,
    hitTargets: seq<Position>)

  // Per-colour views of the record, which stores each field once per colour.

  function PositionOf(s: GameState, p: Player): Position {
    if p == Red then s.redPosition else s.bluePosition
  }

  function EnergyOf(s: GameState, p: Player): int {
    if p == Red then s.redEnergy else s.blueEnergy
  }

  function UsedJumpOf(s: GameState, p: Player): bool {
    if p == Red then s.redUsedJump else s.blueUsedJump
  }

  /** The cells that hold a wall. */
  function WallCells(walls: seq<Wall>): set<Position> {
    set w | w in walls :: w.position
  }

  /** No two walls share a cell. */
  predicate UniqueWallCells(walls: seq<Wall>) {
    forall i, j :: 0 <= i < j < |walls| ==> walls[i].position != walls[j].position
  }

  /** No element occurs twice. */
  predicate Distinct<T(==)>(xs: seq<T>) {
    forall i, j :: 0 <= i < j < |xs| ==> xs[i] != xs[j]
  }
}
