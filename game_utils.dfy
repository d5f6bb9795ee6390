/**
 * Board geometry, the fixed special cells, the three target lists a player
 * may choose from, the initial state, the cell colouring and the MM:SS clock.
 * Everything here is a pure function over values.
 */
module GameUtils {
  import opened GameTypes

  // ---------------------------------------------------------------------
  // Sequences

  /** Keeps the elements of `xs` that satisfy `f`, in their order. */
  function Filter<T(!new)>(xs: seq<T>, f: T -> bool): (r: seq<T>)
    ensures |r| <= |xs|
    ensures forall x :: x in r <==> x in xs && f(x)
    ensures Distinct(xs) ==> Distinct(r)
  {
    if xs == [] then []
    else
      var rest := Filter(xs[1..], f);
      assert Distinct(xs) ==> Distinct(xs[1..]) && xs[0] !in xs[1..] by {
        if Distinct(xs) {
          forall k | 0 <= k < |xs| - 1 ensures xs[1..][k] != xs[0] {
            assert xs[1..][k] == xs[k + 1];
          }
        }
      }
      (if f(xs[0]) then [xs[0]] else []) + rest
  }

  /** The key strictly increases along `xs`. */
  predicate IncreasingBy<T>(xs: seq<T>, key: T -> int) {
    forall i, j :: 0 <= i < j < |xs| ==> key(xs[i]) < key(xs[j])
  }

  /** Filtering keeps a strictly increasing key strictly increasing. */
  lemma {:induction false} FilterKeepsOrder<T(!new)>(xs: seq<T>, f: T -> bool, key: T -> int)
    requires IncreasingBy(xs, key)
    ensures IncreasingBy(Filter(xs, f), key)
  {
    if xs != [] {
      var tail := xs[1..];
      assert IncreasingBy(tail, key) by {
        forall i, j | 0 <= i < j < |tail| ensures key(tail[i]) < key(tail[j]) {
          assert tail[i] == xs[i + 1] && tail[j] == xs[j + 1];
        }
      }
      FilterKeepsOrder(tail, f, key);
      var rest := Filter(tail, f);
      if f(xs[0]) {
        var r := [xs[0]] + rest;
        forall j | 0 <= j < |rest| ensures key(xs[0]) < key(rest[j]) {
          assert rest[j] in tail;
          var k :| 0 <= k < |tail| && tail[k] == rest[j];
          assert tail[k] == xs[k + 1];
        }
        assert IncreasingBy(r, key) by {
          forall i, j | 0 <= i < j < |r| ensures key(r[i]) < key(r[j]) {
            assert r[j] == rest[j - 1];
            if i > 0 { assert r[i] == rest[i - 1]; }
          }
        }
      }
    }
  }

  // ---------------------------------------------------------------------
  // Board geometry

  /** The board has rows 0..3 and columns 0..4. */
  predicate IsWithinBoard(pos: Position) {
    0 <= pos.row <= 3 && 0 <= pos.col <= 4
  }

  /** The whole board, row by row: twenty cells, each once, and exactly the cells `IsWithinBoard` accepts. */
  function BoardCells(): (r: seq<Position>)
    ensures |r| == 20 && Distinct(r)
    ensures forall i :: 0 <= i < 20 ==> r[i] == Position(i / 5, i % 5)
    ensures forall p :: p in r <==> IsWithinBoard(p)
  {
    var r := seq(20, i requires 0 <= i < 20 => CellAt(i));
    forall p | IsWithinBoard(p) ensures p in r {
      CellAtIndex(p);
      assert r[5 * p.row + p.col] == p;
    }
    forall i, j | 0 <= i < j < |r| ensures r[i] != r[j] {
      CellAtDiffers(i, j);
    }
    r
  }

  /** The cell with row-major number `i`. */
  function CellAt(i: int): (p: Position)
    requires 0 <= i < 20
    ensures IsWithinBoard(p)
  {
    Position(i / 5, i % 5)
  }

  lemma CellAtIndex(p: Position)
    requires IsWithinBoard(p)
    ensures CellAt(5 * p.row + p.col) == p
  {
  }

  lemma CellAtDiffers(i: int, j: int)
    requires 0 <= i < j < 20
    ensures CellAt(i) != CellAt(j)
  {
  }

  function Abs(x: int): nat {
    if x < 0 then -x else x
  }

  predicate IsOrthogonalNeighbour(a: Position, b: Position) {
    Abs(a.row - b.row) + Abs(a.col - b.col) == 1
  }

  predicate IsDiagonalNeighbour(a: Position, b: Position) {
    Abs(a.row - b.row) == 1 && Abs(a.col - b.col) == 1
  }

  /** One of the eight cells around `a`. */
  predicate IsSurrounding(a: Position, b: Position) {
    IsOrthogonalNeighbour(a, b) || IsDiagonalNeighbour(a, b)
  }

  /** 0 for up, 1 for down, 2 for left, 3 for right. */
  function OrthogonalRank(pos: Position, q: Position): int {
    if q.row < pos.row then 0 else if q.row > pos.row then 1
    else if q.col < pos.col then 2 else 3
  }

  /** 0 for up-left, 1 for up-right, 2 for down-left, 3 for down-right. */
  function DiagonalRank(pos: Position, q: Position): int {
    (if q.row < pos.row then 0 else 2) + (if q.col < pos.col then 0 else 1)
  }

  lemma OrthogonalNeighbourCases(pos: Position, q: Position)
    requires IsOrthogonalNeighbour(pos, q)
    ensures q == Position(pos.row - 1, pos.col) || q == Position(pos.row + 1, pos.col)
         || q == Position(pos.row, pos.col - 1) || q == Position(pos.row, pos.col + 1)
  {
  }

  lemma DiagonalNeighbourCases(pos: Position, q: Position)
    requires IsDiagonalNeighbour(pos, q)
    ensures q == Position(pos.row - 1, pos.col - 1) || q == Position(pos.row - 1, pos.col + 1)
         || q == Position(pos.row + 1, pos.col - 1) || q == Position(pos.row + 1, pos.col + 1)
  {
  }

  /** The orthogonal neighbours of `pos` that lie on the board, in up, down, left, right order. */
  function AdjacentPositions(pos: Position): (r: seq<Position>)
    ensures |r| <= 4 && Distinct(r)
    ensures forall q :: q in r <==> IsWithinBoard(q) && IsOrthogonalNeighbour(pos, q)
  {
    var directions := [Position(pos.row - 1, pos.col), Position(pos.row + 1, pos.col),
                       Position(pos.row, pos.col - 1), Position(pos.row, pos.col + 1)];
    assert forall q :: IsOrthogonalNeighbour(pos, q) <==> q in directions by {
      forall q ensures IsOrthogonalNeighbour(pos, q) <==> q in directions {
        if IsOrthogonalNeighbour(pos, q) { OrthogonalNeighbourCases(pos, q); }
      }
    }
    Filter(directions, IsWithinBoard)
  }

  /** The orthogonal neighbours come in up, down, left, right order. */
  lemma AdjacentOrder(pos: Position)
    ensures var r := AdjacentPositions(pos);
      forall i, j :: 0 <= i < j < |r| ==> OrthogonalRank(pos, r[i]) < OrthogonalRank(pos, r[j])
  {
    var directions := [Position(pos.row - 1, pos.col), Position(pos.row + 1, pos.col),
                       Position(pos.row, pos.col - 1), Position(pos.row, pos.col + 1)];
    var rank := q => OrthogonalRank(pos, q);
    FilterKeepsOrder(directions, IsWithinBoard, rank);
    assert IncreasingBy(AdjacentPositions(pos), rank);
  }

  /** The diagonal neighbours of `pos` that lie on the board, in up-left, up-right, down-left, down-right order. */
  function DiagonalPositions(pos: Position): (r: seq<Position>)
    ensures |r| <= 4 && Distinct(r)
    ensures forall q :: q in r <==> IsWithinBoard(q) && IsDiagonalNeighbour(pos, q)
  {
    var directions := [Position(pos.row - 1, pos.col - 1), Position(pos.row - 1, pos.col + 1),
                       Position(pos.row + 1, pos.col - 1), Position(pos.row + 1, pos.col + 1)];
    assert forall q :: IsDiagonalNeighbour(pos, q) <==> q in directions by {
      forall q ensures IsDiagonalNeighbour(pos, q) <==> q in directions {
        if IsDiagonalNeighbour(pos, q) { DiagonalNeighbourCases(pos, q); }
      }
    }
    Filter(directions, IsWithinBoard)
  }

  /** The diagonal neighbours come in up-left, up-right, down-left, down-right order. */
  lemma DiagonalOrder(pos: Position)
    ensures var r := DiagonalPositions(pos);
      forall i, j :: 0 <= i < j < |r| ==> DiagonalRank(pos, r[i]) < DiagonalRank(pos, r[j])
  {
    var directions := [Position(pos.row - 1, pos.col - 1), Position(pos.row - 1, pos.col + 1),
                       Position(pos.row + 1, pos.col - 1), Position(pos.row + 1, pos.col + 1)];
    var rank := q => DiagonalRank(pos, q);
    FilterKeepsOrder(directions, IsWithinBoard, rank);
    assert IncreasingBy(DiagonalPositions(pos), rank);
  }

  /** The up-to-eight cells around `pos`: the orthogonal ones first, then the diagonal ones. */
  function SurroundingPositions(pos: Position): (r: seq<Position>)
    ensures |r| <= 8 && Distinct(r) && pos !in r
    ensures forall q :: q in r <==> IsWithinBoard(q) && IsSurrounding(pos, q)
    ensures forall i, j :: 0 <= i < j < |r| && IsDiagonalNeighbour(pos, r[i]) ==> IsDiagonalNeighbour(pos, r[j])
  {
    var adjacent, diagonal := AdjacentPositions(pos), DiagonalPositions(pos);
    var r := adjacent + diagonal;
    assert forall i :: 0 <= i < |r| ==> (i < |adjacent| <==> IsOrthogonalNeighbour(pos, r[i])) by {
      forall i | 0 <= i < |r| ensures i < |adjacent| <==> IsOrthogonalNeighbour(pos, r[i]) {
        if i < |adjacent| { assert r[i] in adjacent; } else { assert r[i] == diagonal[i - |adjacent|]; assert r[i] in diagonal; }
      }
    }
    r
  }

  // ---------------------------------------------------------------------
  // The fixed special cells

  /** The home base of each colour: Red in the top-left corner, Blue in the bottom-right one. */
  function BaseCell(p: Player): (b: Position)
    ensures IsWithinBoard(b)
  {
    if p == Red then Position(0, 0) else Position(3, 4)
  }

  /** Each colour's two jump cells, diagonal neighbours of each other and orthogonal neighbours of its base. */
  function JumpZones(p: Player): (r: seq<Position>)
    ensures |r| == 2 && r[0] != r[1] && IsWithinBoard(r[0]) && IsWithinBoard(r[1])
  {
    if p == Red then [Position(1, 0), Position(0, 1)] else [Position(2, 4), Position(3, 3)]
  }

  /** The two jump cells of a colour are diagonal neighbours, and both touch that colour's base. */
  lemma JumpZonesGeometry(p: Player)
    ensures var r := JumpZones(p);
      IsDiagonalNeighbour(r[0], r[1]) && IsDiagonalNeighbour(r[1], r[0]) &&
      IsOrthogonalNeighbour(r[0], BaseCell(p)) && IsOrthogonalNeighbour(r[1], BaseCell(p))
  {
  }

  /** The two cells that refund the energy a move onto them costs. */
  function ExtraEnergyCells(): (r: seq<Position>)
    ensures |r| == 2 && r[0] != r[1] && IsWithinBoard(r[0]) && IsWithinBoard(r[1])
  {
    [Position(0, 4), Position(3, 0)]
  }

  /** One of the four corners of the board. */
  predicate IsCorner(pos: Position) {
    (pos.row == 0 || pos.row == 3) && (pos.col == 0 || pos.col == 4)
  }

  /** The energy cells are the two corners that are not bases, and no jump cell. */
  function IsExtraEnergyCell(pos: Position): (b: bool)
    ensures b <==> IsCorner(pos) && !IsBaseCell(pos)
    ensures b ==> IsWithinBoard(pos) && !IsAnyJumpZone(pos)
  {
    var cells := ExtraEnergyCells();
    pos == cells[0] || pos == cells[1]
  }

  /** The bases are corners of the board, and no base is a jump cell. */
  function IsBaseCell(pos: Position): (b: bool)
    ensures b ==> IsWithinBoard(pos) && IsCorner(pos) && !IsAnyJumpZone(pos)
  {
    pos == BaseCell(Red) || pos == BaseCell(Blue)
  }

  /** A jump cell of either colour. */
  predicate IsAnyJumpZone(pos: Position) {
    IsPlayerJumpZone(pos, Red) || IsPlayerJumpZone(pos, Blue)
  }

  /** A jump cell of the given colour. */
  predicate IsPlayerJumpZone(pos: Position, player: Player) {
    var zones := JumpZones(player);
    pos == zones[0] || pos == zones[1]
  }

  /** A colour's jump cells are exactly the on-board cells next to its base. */
  lemma JumpZonesNextToBase(pos: Position, player: Player)
    ensures IsPlayerJumpZone(pos, player) <==> IsWithinBoard(pos) && IsOrthogonalNeighbour(pos, BaseCell(player))
  {
  }

  /** The jump cells of either colour are exactly the on-board cells next to either base. */
  lemma AnyJumpZoneNextToBase(pos: Position)
    ensures IsAnyJumpZone(pos) <==>
      IsWithinBoard(pos) && (IsOrthogonalNeighbour(pos, BaseCell(Red)) || IsOrthogonalNeighbour(pos, BaseCell(Blue)))
  {
    JumpZonesNextToBase(pos, Red);
    JumpZonesNextToBase(pos, Blue);
  }

  /**
   * The diagonal targets offered from a jump cell: nothing off `player`'s own
   * jump cells, and from one of them exactly the other one.
   */
  function JumpDiagonalPositions(pos: Position, player: Player): (r: seq<Position>)
    ensures !IsPlayerJumpZone(pos, player) ==> r == []
    ensures IsPlayerJumpZone(pos, player) ==> |r| == 1 && IsPlayerJumpZone(r[0], player) && r[0] != pos
  {
    if !IsPlayerJumpZone(pos, player) then []
    else
      JumpFilterKeepsPartner(pos, player);
      Filter(DiagonalPositions(pos), JumpFilter(pos, player))
  }

  /** The test a diagonal neighbour of `pos` must pass to be a jump target: another jump cell of `player`. */
  function JumpFilter(pos: Position, player: Player): Position -> bool {
    q => IsPlayerJumpZone(q, player) && q != pos
  }

  /** The other jump cell of `player`, seen from one of them. */
  function JumpPartnerOf(pos: Position, player: Player): Position {
    var zones := JumpZones(player);
    if pos == zones[0] then zones[1] else zones[0]
  }

  /** From a jump cell, the only diagonal that passes the jump test is the partner cell. */
  lemma JumpFilterKeepsPartner(pos: Position, player: Player)
    requires IsPlayerJumpZone(pos, player)
    ensures Filter(DiagonalPositions(pos), JumpFilter(pos, player)) == [JumpPartnerOf(pos, player)]
  {
    var r := Filter(DiagonalPositions(pos), JumpFilter(pos, player));
    var partner := JumpPartnerOf(pos, player);
    assert Distinct(r);
    assert partner in r by { PartnerPassesJumpFilter(pos, player); }
    assert forall y :: y in r ==> y == partner by { OnlyPartnerPassesJumpFilter(pos, player); }
    DistinctSingleton(r, partner);
  }

  lemma PartnerPassesJumpFilter(pos: Position, player: Player)
    requires IsPlayerJumpZone(pos, player)
    ensures JumpPartnerOf(pos, player) in Filter(DiagonalPositions(pos), JumpFilter(pos, player))
  {
    PartnerIsDiagonal(pos, player);
    PartnerIsJumpTarget(pos, player);
    FilterKeeps(DiagonalPositions(pos), JumpFilter(pos, player), JumpPartnerOf(pos, player));
  }

  lemma PartnerIsJumpTarget(pos: Position, player: Player)
    requires IsPlayerJumpZone(pos, player)
    ensures JumpFilter(pos, player)(JumpPartnerOf(pos, player))
  {
  }

  lemma PartnerIsDiagonal(pos: Position, player: Player)
    requires IsPlayerJumpZone(pos, player)
    ensures JumpPartnerOf(pos, player) in DiagonalPositions(pos)
  {
    PartnerGeometry(pos, player);
    DiagonalMember(pos, JumpPartnerOf(pos, player));
  }

  lemma PartnerGeometry(pos: Position, player: Player)
    requires IsPlayerJumpZone(pos, player)
    ensures IsDiagonalNeighbour(pos, JumpPartnerOf(pos, player)) && IsWithinBoard(JumpPartnerOf(pos, player))
  {
    var partner := JumpPartnerOf(pos, player);
    if player == Red {
      assert (pos == Position(1, 0) && partner == Position(0, 1)) || (pos == Position(0, 1) && partner == Position(1, 0));
    } else {
      assert (pos == Position(2, 4) && partner == Position(3, 3)) || (pos == Position(3, 3) && partner == Position(2, 4));
    }
  }

  lemma DiagonalMember(pos: Position, q: Position)
    requires IsWithinBoard(q) && IsDiagonalNeighbour(pos, q)
    ensures q in DiagonalPositions(pos)
  {
  }

  lemma FilterKeeps<T(!new)>(xs: seq<T>, f: T -> bool, x: T)
    requires x in xs && f(x)
    ensures x in Filter(xs, f)
  {
  }

  lemma OnlyPartnerPassesJumpFilter(pos: Position, player: Player)
    requires IsPlayerJumpZone(pos, player)
    ensures forall x :: x in Filter(DiagonalPositions(pos), JumpFilter(pos, player)) ==> x == JumpPartnerOf(pos, player)
  {
    forall x | x in Filter(DiagonalPositions(pos), JumpFilter(pos, player)) ensures x == JumpPartnerOf(pos, player) {
      assert JumpFilter(pos, player)(x);
    }
  }

  /** A duplicate-free sequence has as many elements as its set of elements. */
  lemma {:induction false} DistinctCardinality<T>(r: seq<T>)
    requires Distinct(r)
    ensures |set x | x in r| == |r|
  {
    if r != [] {
      var tail := r[1..];
      assert Distinct(tail) by {
        forall i, j | 0 <= i < j < |tail| ensures tail[i] != tail[j] {
          assert tail[i] == r[i + 1] && tail[j] == r[j + 1];
        }
      }
      DistinctCardinality(tail);
      forall k | 0 <= k < |tail| ensures tail[k] != r[0] {
        assert tail[k] == r[k + 1];
      }
      assert (set x | x in r) == {r[0]} + (set x | x in tail) by {
        assert r == [r[0]] + tail;
      }
    }
  }

  lemma DistinctSingleton<T>(r: seq<T>, x: T)
    requires Distinct(r) && x in r
    requires forall y :: y in r ==> y == x
    ensures r == [x]
  {
    DistinctCardinality(r);
    assert (set y | y in r) == {x};
    assert r[0] in r;
  }

  // ---------------------------------------------------------------------
  // Walls

  /** The index of the first wall on `pos`, or -1 when no wall stands there. */
  function WallIndex(walls: seq<Wall>, pos: Position): (i: int)
    ensures -1 <= i < |walls|
    ensures i == -1 <==> pos !in WallCells(walls)
    ensures 0 <= i ==> walls[i].position == pos && forall j :: 0 <= j < i ==> walls[j].position != pos
  {
    if walls == [] then -1
    else if walls[0].position == pos then 0
    else
      var k := WallIndex(walls[1..], pos);
      assert WallCells(walls) == {walls[0].position} + WallCells(walls[1..]) by {
        assert walls == [walls[0]] + walls[1..];
      }
      if k == -1 then -1 else k + 1
  }

  /** The first wall that stands on `pos`, if any. */
  function FindWallAtPosition(walls: seq<Wall>, pos: Position): (r: Option<Wall>)
    ensures r.Some? <==> pos in WallCells(walls)
    ensures r.Some? ==> exists i :: 0 <= i < |walls| && walls[i] == r.value && r.value.position == pos
                                   && forall j :: 0 <= j < i ==> walls[j].position != pos
  {
    var i := WallIndex(walls, pos);
    if i == -1 then None else Some(walls[i])
  }

  // ---------------------------------------------------------------------
  // Legal targets

  /** Steps onto a free orthogonal neighbour, then (from an own jump cell, jump unused) the jump to the other one. */
  function MoveTargets(state: GameState, playerPosition: Position, isJumpZone: bool, usedJump: bool): (moves: seq<Position>)
    ensures forall q :: q in moves <==>
      IsWithinBoard(q) && q !in WallCells(state.walls) &&
      (IsOrthogonalNeighbour(playerPosition, q) ||
       (isJumpZone && !usedJump && IsPlayerJumpZone(playerPosition, state.currentPlayer)
        && IsPlayerJumpZone(q, state.currentPlayer) && q != playerPosition))
  {
    var stepMoves := Filter(AdjacentPositions(playerPosition), q => FindWallAtPosition(state.walls, q).None?);
    if isJumpZone && !usedJump then
      var jumpDiagonalPositions := JumpDiagonalPositions(playerPosition, state.currentPlayer);
      stepMoves + Filter(jumpDiagonalPositions, q => FindWallAtPosition(state.walls, q).None?)
    else stepMoves
  }

  /** Free orthogonal neighbours that are neither token's cell, a base nor a jump cell. */
  function WallPlacementTargets(state: GameState, playerPosition: Position): (cells: seq<Position>)
    ensures forall q :: q in cells <==>
      IsWithinBoard(q) && IsOrthogonalNeighbour(playerPosition, q) && q !in WallCells(state.walls) &&
      q != PositionOf(state, Opponent(state.currentPlayer)) && q != playerPosition &&
      !IsBaseCell(q) && !IsAnyJumpZone(q)
  {
    var opponentPosition := PositionOf(state, Opponent(state.currentPlayer));
    Filter(AdjacentPositions(playerPosition), q =>
      FindWallAtPosition(state.walls, q).None? && q != opponentPosition && q != playerPosition &&
      !IsBaseCell(q) && !IsAnyJumpZone(q))
  }

  /** The surrounding cells that hold a wall. */
  function HitTargets(state: GameState, playerPosition: Position): (cells: seq<Position>)
    ensures forall q :: q in cells <==>
      IsWithinBoard(q) && IsSurrounding(playerPosition, q) && q in WallCells(state.walls)
  {
    Filter(SurroundingPositions(playerPosition), q => FindWallAtPosition(state.walls, q).Some?)
  }

  /**
   * The cells a player standing on `playerPosition` may move to, build a wall
   * on, or would damage with a hit.
   */
  function GetValidMoves(state: GameState, playerPosition: Position, isJumpZone: bool, usedJump: bool): (v: ValidMoves)
    ensures forall q :: q in v.moves <==>
      IsWithinBoard(q) && q !in WallCells(state.walls) &&
      (IsOrthogonalNeighbour(playerPosition, q) ||
       (isJumpZone && !usedJump && IsPlayerJumpZone(playerPosition, state.currentPlayer)
        && IsPlayerJumpZone(q, state.currentPlayer) && q != playerPosition))
    ensures forall q :: q in v.wallPlacements <==>
      IsWithinBoard(q) && IsOrthogonalNeighbour(playerPosition, q) && q !in WallCells(state.walls) &&
      q != PositionOf(state, Opponent(state.currentPlayer)) && q != playerPosition &&
      !IsBaseCell(q) && !IsAnyJumpZone(q)
    ensures forall q :: q in v.hitTargets <==>
      IsWithinBoard(q) && IsSurrounding(playerPosition, q) && q in WallCells(state.walls)
  {
    ValidMoves(
      moves := MoveTargets(state, playerPosition, isJumpZone, usedJump),
      wallPlacements := WallPlacementTargets(state, playerPosition),
      hitTargets := HitTargets(state, playerPosition))
  }

  // ---------------------------------------------------------------------
  // The state invariant

  /** A wall may stand only on a free, ordinary cell of the board, with one or two hit points. */
  predicate WallAllowed(s: GameState, w: Wall) {
    IsWithinBoard(w.position) && !IsBaseCell(w.position) && !IsAnyJumpZone(w.position) &&
    w.position != s.redPosition && w.position != s.bluePosition && 1 <= w.hp <= 2
  }

  /**
   * What every state reached through the game's own controls satisfies:
   * tokens on the board and apart, energy within 0..2, at most one wall per
   * cell and walls only where they are allowed, and a winner exactly when the game is over.
   */
  predicate WellFormed(s: GameState) {
    && IsWithinBoard(s.redPosition) && IsWithinBoard(s.bluePosition)
    && s.redPosition != s.bluePosition
    && 0 <= s.redEnergy <= 2 && 0 <= s.blueEnergy <= 2
    && UniqueWallCells(s.walls)
    && (forall w :: w in s.walls ==> WallAllowed(s, w))
    && (s.gameOver <==> s.winner.Some?)
  }

  // ---------------------------------------------------------------------
  // The initial state

  /** A new game; the colour that moves first is chosen by the caller. */
  function InitializeGameState(startingPlayer: Player): (s: GameState)
    ensures s.currentPlayer == startingPlayer
    ensures s.redPosition == BaseCell(Red) && s.bluePosition == BaseCell(Blue)
    ensures s.walls == [] && s.redEnergy == 1 && s.blueEnergy == 1
    ensures !s.redUsedJump && !s.blueUsedJump && !s.lastActionWasWall && !s.actionsDisabled
    ensures s.selectedAction == None && !s.gameOver && s.winner == None
    ensures WellFormed(s)
  {
    var redBase, blueBase := BaseCell(Red), BaseCell(Blue);
    GameState(
      currentPlayer := startingPlayer,
      redPosition := redBase,
      bluePosition := blueBase,
      walls := [],
      redEnergy := 1,
      blueEnergy := 1,
      redUsedJump := false,
      blueUsedJump := false,
      selectedAction := None,
      gameOver := false,
      winner := None,
      lastActionWasWall := false,
      actionsDisabled := false)
  }

  // ---------------------------------------------------------------------
  // Cell colouring

  /**
   * The class a cell is drawn with. The special cells are pairwise
   * distinct, so each class is given exactly to its own cells.
   */
  function GetCellClass(pos: Position, gameState: GameState): (c: CellType)
    ensures c == BaseRed <==> pos == BaseCell(Red)
    ensures c == BaseBlue <==> pos == BaseCell(Blue)
    ensures c == JumpRed <==> IsPlayerJumpZone(pos, Red)
    ensures c == JumpBlue <==> IsPlayerJumpZone(pos, Blue)
    ensures c == ExtraEnergy <==> IsExtraEnergyCell(pos)
    ensures c == Empty <==> !IsBaseCell(pos) && !IsAnyJumpZone(pos) && !IsExtraEnergyCell(pos)
  {
    if pos == BaseCell(Red) then BaseRed
    else if pos == BaseCell(Blue) then BaseBlue
    else if IsPlayerJumpZone(pos, Red) then JumpRed
    else if IsPlayerJumpZone(pos, Blue) then JumpBlue
    else if IsExtraEnergyCell(pos) then ExtraEnergy
    else Empty
  }

  // ---------------------------------------------------------------------
  // The MM:SS clock

  predicate IsDigit(c: char) {
    '0' <= c <= '9'
  }

  predicate IsDigits(s: string) {
    forall i :: 0 <= i < |s| ==> IsDigit(s[i])
  }

  /** The number a string of decimal digits denotes. */
  function DecimalValue(s: string): nat
    requires IsDigits(s)
  {
    if s == [] then 0 else 10 * DecimalValue(s[..|s| - 1]) + (s[|s| - 1] as int - '0' as int)
  }

  /** The decimal digits of `n`, without leading zeros. */
  function NatToString(n: nat): (s: string)
    ensures |s| >= 1 && IsDigits(s)
    ensures |s| > 1 ==> s[0] != '0'
  {
    var last := ['0' + (n % 10) as char];
    if n < 10 then last else NatToString(n / 10) + last
  }

  /** A number as its decimal string, with a minus sign when negative. */
  function NumberToString(n: int): (s: string)
    ensures |s| >= 1
    ensures n >= 0 ==> s == NatToString(n)
    ensures n < 0 ==> s[0] == '-' && s[1..] == NatToString(-n)
  {
    if n >= 0 then NatToString(n) else "-" + NatToString(-n)
  }

  /** Left-pads with '0' up to length two; longer strings are kept. */
  function PadStart2(s: string): (r: string)
    ensures |r| == if |s| < 2 then 2 else |s|
    ensures r[|r| - |s|..] == s
    ensures forall i :: 0 <= i < |r| - |s| ==> r[i] == '0'
  {
    if |s| >= 2 then s else seq(2 - |s|, _ => '0') + s
  }

  /** The remainder of a division that truncates toward zero (the sign follows the dividend). */
  function TruncatedRemainder(a: int, b: int): (r: int)
    requires b > 0
    ensures -b < r < b
    ensures a >= 0 ==> r == a % b
    ensures a < 0 ==> r <= 0 && a == b * -((-a) / b) + r
  {
    if a >= 0 then a % b else -((-a) % b)
  }

  /** Minutes (rounded down) and remaining seconds, each padded to two digits, joined by ':'. */
  function FormatTime(seconds: int): (r: string)
    ensures |r| >= 5 && ':' in r
  {
    var minutes := seconds / 60;
    var remainingSeconds := TruncatedRemainder(seconds, 60);
    PadStart2(NumberToString(minutes)) + ":" + PadStart2(NumberToString(remainingSeconds))
  }

  lemma {:induction false} NatToStringValue(n: nat)
    ensures DecimalValue(NatToString(n)) == n
  {
    var s := NatToString(n);
    if n >= 10 {
      NatToStringValue(n / 10);
      assert s[..|s| - 1] == NatToString(n / 10);
    }
  }

  lemma {:induction false} LeadingZeroValue(s: string)
    requires IsDigits(s)
    ensures IsDigits("0" + s) && DecimalValue("0" + s) == DecimalValue(s)
  {
    if s != [] {
      var t := "0" + s;
      assert t[..|t| - 1] == "0" + s[..|s| - 1];
      LeadingZeroValue(s[..|s| - 1]);
    }
  }

  lemma PaddedValue(n: nat)
    ensures IsDigits(PadStart2(NatToString(n)))
    ensures DecimalValue(PadStart2(NatToString(n))) == n
  {
    var s := NatToString(n);
    NatToStringValue(n);
    if |s| < 2 {
      assert PadStart2(s) == "0" + s;
      LeadingZeroValue(s);
    }
  }

  lemma TwoDigitLength(n: nat)
    requires n < 100
    ensures |NatToString(n)| <= 2
  {
    if n >= 10 {
      assert n / 10 < 10;
    }
  }

  /** `r` shows `minutes` before its last ':' and `rest`, as exactly two digits, after it. */
  predicate ClockReads(r: string, minutes: nat, rest: nat) {
    && |r| >= 5 && r[|r| - 3] == ':'
    && IsDigits(r[..|r| - 3]) && DecimalValue(r[..|r| - 3]) == minutes
    && IsDigits(r[|r| - 2..]) && DecimalValue(r[|r| - 2..]) == rest
  }

  /**
   * For a non-negative count of seconds the clock shows the whole minutes
   * before the last ':' and the remaining seconds, below 60, after it.
   */
  lemma FormatTimeFields(seconds: int)
    requires seconds >= 0
    ensures ClockReads(FormatTime(seconds), seconds / 60, seconds % 60) && seconds % 60 < 60
  {
    FormatTimeJoin(seconds);
    ClockFields(seconds / 60, seconds % 60);
  }

  /** For seconds >= 0 both fields are the padded digits of non-negative numbers. */
  lemma FormatTimeJoin(seconds: int)
    requires seconds >= 0
    ensures FormatTime(seconds) == PadStart2(NatToString(seconds / 60)) + ":" + PadStart2(NatToString(seconds % 60))
  {
    assert TruncatedRemainder(seconds, 60) == seconds % 60;
  }

  /** The joined clock text of whole minutes and remaining seconds reads back as those two numbers. */
  lemma ClockFields(minutes: nat, rest: nat)
    requires rest < 60
    ensures ClockReads(PadStart2(NatToString(minutes)) + ":" + PadStart2(NatToString(rest)), minutes, rest)
  {
    PaddedValue(minutes);
    PaddedValue(rest);
    TwoDigitLength(rest);
    ClockSlices(PadStart2(NatToString(minutes)), PadStart2(NatToString(rest)), minutes, rest);
  }

  /** The two fields of a joined clock text, read back from its ends. */
  lemma ClockSlices(m: string, sec: string, minutes: nat, rest: nat)
    requires |m| >= 2 && |sec| == 2
    requires IsDigits(m) && DecimalValue(m) == minutes && IsDigits(sec) && DecimalValue(sec) == rest
    ensures ClockReads(m + ":" + sec, minutes, rest)
  {
    var r := m + ":" + sec;
    assert r[..|r| - 3] == m && r[|r| - 2..] == sec;
  }

  /** A negative count of seconds shows a minus sign in front. */
  lemma FormatTimeNegative(seconds: int)
    requires seconds < 0
    ensures FormatTime(seconds)[0] == '-'
  {
    var s := NumberToString(seconds / 60);
    assert |s| >= 2 by { assert s == "-" + NatToString(-(seconds / 60)); }
  }
}
