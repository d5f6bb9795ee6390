/**
 * What a hit does to the walls: every wall on one of the cells around the
 * hitter loses one hit point, and a wall left with none is removed.
 *
 * The loop in the game walks the surrounding cells in order and edits a copy
 * of the wall list in place. `DamageWalls` is that loop with each wall looked
 * up in the copy it edits; `ApplyHits` is its specification, and
 * `ApplyHitsIsSimultaneous` proves that it equals the all-at-once damage
 * `DamageInRange`. `ApplyHitsAsWritten` is the loop exactly as the game has
 * it, where the index is looked up in the original list instead.
 */
module HitResolution {
  import opened GameTypes
  import opened GameUtils

  // ---------------------------------------------------------------------
  // The loop, one cell at a time

  /** One cell of a hit: the first wall on `pos` loses a hit point and is spliced out at zero. */
  function HitCell(walls: seq<Wall>, pos: Position): (r: seq<Wall>)
    ensures pos !in WallCells(walls) ==> r == walls
  {
    var wallIndex := WallIndex(walls, pos);
    if wallIndex == -1 then walls
    else
      var wall := walls[wallIndex].(hp := walls[wallIndex].hp - 1);
      if wall.hp <= 0 then walls[..wallIndex] + walls[wallIndex + 1..]
      else walls[wallIndex := wall]
  }

  /** The loop over `targets` in order, each wall looked up in the list as it stands after the earlier cells. */
  function ApplyHits(walls: seq<Wall>, targets: seq<Position>): seq<Wall>
    decreases |targets|
  {
    if targets == [] then walls
    else HitCell(ApplyHits(walls, targets[..|targets| - 1]), targets[|targets| - 1])
  }

  /**
   * The hit loop. Besides the new wall list it counts the walls it reached
   * and the walls it destroyed, which decide which message the game shows.
   */
  method DamageWalls(walls: seq<Wall>, targets: seq<Position>)
    returns (updatedWalls: seq<Wall>, hitCount: nat, destroyedCount: nat)
    ensures updatedWalls == ApplyHits(walls, targets)
    ensures destroyedCount == |walls| - |updatedWalls|
    ensures destroyedCount <= hitCount <= |targets|
    ensures hitCount == 0 <==> forall p :: p in targets ==> p !in WallCells(walls)
  {
    updatedWalls := walls;
    hitCount, destroyedCount := 0, 0;
    for i := 0 to |targets|
      invariant updatedWalls == ApplyHits(walls, targets[..i])
      invariant destroyedCount == |walls| - |updatedWalls|
      invariant destroyedCount <= hitCount <= i
      invariant hitCount == 0 <==> forall j :: 0 <= j < i ==> targets[j] !in WallCells(walls)
      invariant hitCount == 0 ==> updatedWalls == walls
    {
      assert targets[..i + 1][..i] == targets[..i];
      var hit, destroyed;
      updatedWalls, hit, destroyed := HitOneCell(updatedWalls, targets[i]);
      if hit {
        hitCount := hitCount + 1;
      }
      if destroyed {
        destroyedCount := destroyedCount + 1;
      }
    }
    assert targets[..|targets|] == targets;
  }

  /** The body of the loop for one cell: whether a wall was reached, and whether it was destroyed. */
  method HitOneCell(walls: seq<Wall>, pos: Position) returns (updatedWalls: seq<Wall>, hit: bool, destroyed: bool)
    ensures updatedWalls == HitCell(walls, pos)
    ensures hit <==> pos in WallCells(walls)
    ensures destroyed ==> hit
    ensures |updatedWalls| == |walls| - (if destroyed then 1 else 0)
  {
    updatedWalls, hit, destroyed := walls, false, false;
    var wallIndex := WallIndex(walls, pos);
    if wallIndex != -1 {
      var wall := walls[wallIndex].(hp := walls[wallIndex].hp - 1);
      hit := true;
      if wall.hp <= 0 {
        updatedWalls := walls[..wallIndex] + walls[wallIndex + 1..];
        destroyed := true;
      } else {
        updatedWalls := walls[wallIndex := wall];
      }
    }
  }

  // ---------------------------------------------------------------------
  // All at once

  /** A wall after a hit that reaches its cell. */
  function Weakened(w: Wall): Wall {
    w.(hp := w.hp - 1)
  }

  /**
   * Simultaneous damage: the walls on target cells lose one hit point, those
   * left with none are gone, the others stay as they are, in list order.
   */
  function DamageInRange(walls: seq<Wall>, targets: seq<Position>): (r: seq<Wall>)
    ensures |r| <= |walls|
  {
    if walls == [] then []
    else
      var w := walls[0];
      var rest := DamageInRange(walls[1..], targets);
      if w.position !in targets then [w] + rest
      else if w.hp - 1 <= 0 then rest
      else [Weakened(w)] + rest
  }

  /** Walls out of range survive unchanged; walls in range with a hit point to spare survive weakened. */
  lemma {:induction false} DamageSurvivors(walls: seq<Wall>, targets: seq<Position>)
    ensures forall w :: w in walls && w.position !in targets ==> w in DamageInRange(walls, targets)
    ensures forall w :: w in walls && w.position in targets && w.hp > 1 ==> Weakened(w) in DamageInRange(walls, targets)
  {
    if walls != [] {
      DamageSurvivors(walls[1..], targets);
      assert forall v :: v in walls ==> v == walls[0] || v in walls[1..];
    }
  }

  /** Every wall after the damage is an untouched wall out of range or a weakened wall in range that still stands. */
  lemma {:induction false} DamageOrigin(walls: seq<Wall>, targets: seq<Position>)
    ensures forall x :: x in DamageInRange(walls, targets) ==>
      (x in walls && x.position !in targets) ||
      (x.position in targets && x.hp >= 1 && x.(hp := x.hp + 1) in walls)
  {
    if walls != [] {
      var w, tail := walls[0], walls[1..];
      var rest := DamageInRange(tail, targets);
      DamageOrigin(tail, targets);
      assert walls == [w] + tail;
      forall x | x in DamageInRange(walls, targets)
        ensures (x in walls && x.position !in targets) ||
                (x.position in targets && x.hp >= 1 && x.(hp := x.hp + 1) in walls)
      {
        if x in rest {
          assert x in tail ==> x in walls;
          assert x.(hp := x.hp + 1) in tail ==> x.(hp := x.hp + 1) in walls;
        } else if w.position !in targets {
          assert x == w;
        } else {
          assert x == Weakened(w);
          assert x.(hp := x.hp + 1) == w;
        }
      }
    } else {
      assert DamageInRange(walls, targets) == [];
    }
  }

  /** When no wall in range falls, the list keeps its length and each wall in range loses exactly one hit point. */
  lemma {:induction false} DamageWithoutRemoval(walls: seq<Wall>, targets: seq<Position>)
    requires forall w :: w in walls && w.position in targets ==> w.hp > 1
    ensures var r := DamageInRange(walls, targets);
      |r| == |walls| &&
      forall i :: 0 <= i < |walls| ==> r[i] == if walls[i].position in targets then Weakened(walls[i]) else walls[i]
  {
    if walls != [] {
      assert forall v :: v in walls[1..] ==> v in walls;
      DamageWithoutRemoval(walls[1..], targets);
      var r := DamageInRange(walls, targets);
      forall i | 0 <= i < |walls|
        ensures r[i] == if walls[i].position in targets then Weakened(walls[i]) else walls[i]
      {
        if i > 0 { assert walls[i] == walls[1..][i - 1]; }
      }
    }
  }

  lemma {:induction false} DamageIgnoresWallFreeCell(walls: seq<Wall>, targets: seq<Position>, pos: Position)
    requires pos !in WallCells(walls)
    ensures DamageInRange(walls, targets + [pos]) == DamageInRange(walls, targets)
  {
    if walls != [] {
      assert WallCells(walls[1..]) <= WallCells(walls) by {
        assert forall v :: v in walls[1..] ==> v in walls;
      }
      assert walls[0] in walls;
      DamageIgnoresWallFreeCell(walls[1..], targets, pos);
    }
  }

  lemma HitCellSkipsOtherWall(x: Wall, rest: seq<Wall>, pos: Position)
    requires x.position != pos
    ensures HitCell([x] + rest, pos) == [x] + HitCell(rest, pos)
  {
    var walls := [x] + rest;
    assert walls[1..] == rest;
    var k := WallIndex(rest, pos);
    if k != -1 {
      assert WallIndex(walls, pos) == k + 1;
      var wall := rest[k].(hp := rest[k].hp - 1);
      assert walls[k + 1] == rest[k];
      if wall.hp <= 0 {
        assert walls[..k + 1] + walls[k + 2..] == [x] + (rest[..k] + rest[k + 1..]);
      } else {
        assert walls[k + 1 := wall] == [x] + rest[k := wall];
      }
    } else {
      assert pos !in WallCells(walls) by {
        assert forall v :: v in walls ==> v == x || v in rest;
      }
    }
  }

  lemma UniqueTail(walls: seq<Wall>)
    requires walls != [] && UniqueWallCells(walls)
    ensures UniqueWallCells(walls[1..]) && walls[0].position !in WallCells(walls[1..])
  {
    var tail := walls[1..];
    forall i, j | 0 <= i < j < |tail| ensures tail[i].position != tail[j].position {
      assert tail[i] == walls[i + 1] && tail[j] == walls[j + 1];
    }
    forall v | v in tail ensures v.position != walls[0].position {
      var k :| 0 <= k < |tail| && tail[k] == v;
      assert v == walls[k + 1];
    }
  }

  lemma HitCellFirstWall(w: Wall, rest: seq<Wall>, pos: Position)
    requires w.position == pos
    ensures HitCell([w] + rest, pos) == if w.hp - 1 <= 0 then rest else [Weakened(w)] + rest
  {
    var walls := [w] + rest;
    assert WallIndex(walls, pos) == 0;
    assert walls[1..] == rest;
    assert walls[0 := Weakened(w)] == [Weakened(w)] + rest;
  }

  /** Adding one more target cell to the simultaneous damage is one more step of the loop. */
  lemma {:induction false} DamageStep(walls: seq<Wall>, targets: seq<Position>, pos: Position)
    requires UniqueWallCells(walls) && pos !in targets
    ensures DamageInRange(walls, targets + [pos]) == HitCell(DamageInRange(walls, targets), pos)
  {
    if walls != [] {
      var w, ws := walls[0], walls[1..];
      UniqueTail(walls);
      var extended := targets + [pos];
      var rest := DamageInRange(ws, targets);
      assert w.position in extended <==> w.position in targets || w.position == pos;
      if w.position == pos {
        DamageIgnoresWallFreeCell(ws, targets, pos);
        assert DamageInRange(walls, targets) == [w] + rest;
        HitCellFirstWall(w, rest, pos);
      } else {
        DamageStep(ws, targets, pos);
        if w.position !in targets {
          assert DamageInRange(walls, targets) == [w] + rest;
          HitCellSkipsOtherWall(w, rest, pos);
        } else if w.hp - 1 > 0 {
          assert DamageInRange(walls, targets) == [Weakened(w)] + rest;
          HitCellSkipsOtherWall(Weakened(w), rest, pos);
        }
      }
    }
  }

  /**
   * With at most one wall per cell and no cell listed twice, the loop that
   * edits the list cell by cell does the same as damaging all walls in range at once.
   */
  lemma {:induction false} ApplyHitsIsSimultaneous(walls: seq<Wall>, targets: seq<Position>)
    requires UniqueWallCells(walls) && Distinct(targets)
    ensures ApplyHits(walls, targets) == DamageInRange(walls, targets)
    decreases |targets|
  {
    if targets == [] {
      assert DamageInRange(walls, []) == walls by { DamageOfNothing(walls); }
    } else {
      var front, last := targets[..|targets| - 1], targets[|targets| - 1];
      assert Distinct(front);
      assert last !in front by {
        forall k | 0 <= k < |front| ensures front[k] != last {
          assert front[k] == targets[k];
        }
      }
      ApplyHitsIsSimultaneous(walls, front);
      DamageStep(walls, front, last);
      assert front + [last] == targets;
    }
  }

  lemma {:induction false} DamageOfNothing(walls: seq<Wall>)
    ensures DamageInRange(walls, []) == walls
  {
    if walls != [] {
      DamageOfNothing(walls[1..]);
      assert walls == [walls[0]] + walls[1..];
    }
  }

  lemma UniqueCons(x: Wall, rest: seq<Wall>)
    requires UniqueWallCells(rest) && x.position !in WallCells(rest)
    ensures UniqueWallCells([x] + rest)
  {
    var r := [x] + rest;
    forall i, j | 0 <= i < j < |r| ensures r[i].position != r[j].position {
      assert r[j] == rest[j - 1] && r[j] in rest;
      if i > 0 { assert r[i] == rest[i - 1]; }
    }
  }

  /** Damage never moves a wall to a new cell and never puts two walls on one cell. */
  lemma {:induction false} DamageKeepsCellsUnique(walls: seq<Wall>, targets: seq<Position>)
    requires UniqueWallCells(walls)
    ensures UniqueWallCells(DamageInRange(walls, targets))
    ensures WallCells(DamageInRange(walls, targets)) <= WallCells(walls)
  {
    if walls != [] {
      var w, ws := walls[0], walls[1..];
      UniqueTail(walls);
      DamageKeepsCellsUnique(ws, targets);
      var rest := DamageInRange(ws, targets);
      assert WallCells(walls) == {w.position} + WallCells(ws) by {
        assert walls == [w] + ws;
      }
      if w.position !in targets {
        UniqueCons(w, rest);
        assert WallCells([w] + rest) == {w.position} + WallCells(rest);
      } else if w.hp - 1 > 0 {
        UniqueCons(Weakened(w), rest);
        assert WallCells([Weakened(w)] + rest) == {w.position} + WallCells(rest);
      }
    }
  }

  // ---------------------------------------------------------------------
  // The loop as the game writes it

  /**
   * One step of the loop as written: the index of the wall is looked up in
   * the list from before the hit, but applied to the copy being edited.
   * `None` stands for an index past the end of the copy, where the game
   * writes a wall record that has no position.
   */
  function HitCellAsWritten(prevWalls: seq<Wall>, updatedWalls: seq<Wall>, pos: Position): (r: Option<seq<Wall>>)
    ensures pos !in WallCells(prevWalls) ==> r == Some(updatedWalls)
    ensures r == None <==> pos in WallCells(prevWalls) && |updatedWalls| <= WallIndex(prevWalls, pos)
    ensures r.Some? ==> |updatedWalls| - 1 <= |r.value| <= |updatedWalls|
  {
    var wallIndex := WallIndex(prevWalls, pos);
    if wallIndex == -1 then Some(updatedWalls)
    else if wallIndex >= |updatedWalls| then None
    else
      var wall := updatedWalls[wallIndex].(hp := updatedWalls[wallIndex].hp - 1);
      if wall.hp <= 0 then Some(updatedWalls[..wallIndex] + updatedWalls[wallIndex + 1..])
      else Some(updatedWalls[wallIndex := wall])
  }

  /** The loop as written over `targets`, each index taken from `prevWalls`. */
  function ApplyHitsAsWritten(prevWalls: seq<Wall>, targets: seq<Position>): Option<seq<Wall>>
    decreases |targets|
  {
    if targets == [] then Some(prevWalls)
    else match ApplyHitsAsWritten(prevWalls, targets[..|targets| - 1])
      case None => None
      case Some(updatedWalls) => HitCellAsWritten(prevWalls, updatedWalls, targets[|targets| - 1])
  }

  /** Each cell of the loop as written removes at most one wall, and none is ever added. */
  lemma {:induction false} AsWrittenLength(prevWalls: seq<Wall>, targets: seq<Position>)
    ensures var r := ApplyHitsAsWritten(prevWalls, targets);
      r.Some? ==> |prevWalls| - |targets| <= |r.value| <= |prevWalls|
  {
    if targets != [] {
      AsWrittenLength(prevWalls, targets[..|targets| - 1]);
    }
  }

  lemma {:induction false} WallIndexSameCells(a: seq<Wall>, b: seq<Wall>, pos: Position)
    requires |a| == |b| && forall k :: 0 <= k < |a| ==> a[k].position == b[k].position
    ensures WallIndex(a, pos) == WallIndex(b, pos)
  {
    if a != [] {
      WallIndexSameCells(a[1..], b[1..], pos);
    }
  }

  lemma {:induction false} AsWrittenStaysAligned(prevWalls: seq<Wall>, targets: seq<Position>)
    requires Distinct(targets)
    requires forall w :: w in prevWalls && w.position in targets ==> w.hp >= 2
    ensures ApplyHitsAsWritten(prevWalls, targets) == Some(ApplyHits(prevWalls, targets))
    ensures var u := ApplyHits(prevWalls, targets);
      |u| == |prevWalls| &&
      forall k :: 0 <= k < |u| ==>
        u[k].position == prevWalls[k].position &&
        (prevWalls[k].position !in targets ==> u[k] == prevWalls[k])
    decreases |targets|
  {
    if targets != [] {
      var front, last := targets[..|targets| - 1], targets[|targets| - 1];
      assert Distinct(front);
      assert forall p :: p in front ==> p in targets;
      assert last !in front by {
        forall k | 0 <= k < |front| ensures front[k] != last {
          assert front[k] == targets[k];
        }
      }
      AsWrittenStaysAligned(prevWalls, front);
      var u := ApplyHits(prevWalls, front);
      var u2 := ApplyHits(prevWalls, targets);
      assert ApplyHitsAsWritten(prevWalls, targets) == HitCellAsWritten(prevWalls, u, last);
      assert u2 == HitCell(u, last);
      WallIndexSameCells(prevWalls, u, last);
      var idx := WallIndex(prevWalls, last);
      if idx == -1 {
        assert u2 == u;
        assert HitCellAsWritten(prevWalls, u, last) == Some(u);
      } else {
        assert u[idx] == prevWalls[idx];
        assert prevWalls[idx] in prevWalls && prevWalls[idx].position == last;
        var nw := u[idx].(hp := u[idx].hp - 1);
        assert nw.hp > 0;
        assert u2 == u[idx := nw];
        assert HitCellAsWritten(prevWalls, u, last) == Some(u[idx := nw]);
        forall k | 0 <= k < |u2|
          ensures u2[k].position == prevWalls[k].position
          ensures prevWalls[k].position !in targets ==> u2[k] == prevWalls[k]
        {
          if k != idx {
            assert u2[k] == u[k];
          }
        }
      }
    }
  }

  /**
   * As long as no wall in range is destroyed, the loop as written does
   * exactly what the corrected loop does: every wall in range loses one hit point.
   */
  lemma AsWrittenAgreesWithoutRemoval(prevWalls: seq<Wall>, targets: seq<Position>)
    requires Distinct(targets)
    requires forall w :: w in prevWalls && w.position in targets ==> w.hp >= 2
    ensures ApplyHitsAsWritten(prevWalls, targets) == Some(ApplyHits(prevWalls, targets))
  {
    AsWrittenStaysAligned(prevWalls, targets);
  }

  /**
   * A hit from (1,1) that destroys the wall at (2,1): the loop as written then
   * damages the wall at (3,2), out of range, and spares the one at (1,2);
   * with only the walls at (2,1) and (1,2) it writes past the end of the list.
   */
  lemma AsWrittenMisdirectsHit()
    ensures var targets := SurroundingPositions(Position(1, 1));
      var a, c, x := Wall(Position(2, 1), 1, Red), Wall(Position(1, 2), 2, Blue), Wall(Position(3, 2), 2, Blue);
      && ApplyHitsAsWritten([a, c, x], targets) == Some([c, Weakened(x)])
      && ApplyHits([a, c, x], targets) == [Weakened(c), x]
      && ApplyHitsAsWritten([a, c], targets) == None
      && ApplyHits([a, c], targets) == [Weakened(c)]
  {
    var targets := SurroundingPositions(Position(1, 1));
    var a, c, x := Wall(Position(2, 1), 1, Red), Wall(Position(1, 2), 2, Blue), Wall(Position(3, 2), 2, Blue);
    SurroundingOfCentre(Position(1, 1));
    AsWrittenOnLayout(a, c, x, targets);
    AsWrittenPastEnd(a, c, targets);
    CorrectedOnLayout(a, c, x, targets);
  }

  /** The corrected loop on the example: the wall at (2,1) falls, the one at (1,2) loses a point, (3,2) is out of reach. */
  lemma CorrectedOnLayout(a: Wall, c: Wall, x: Wall, targets: seq<Position>)
    requires a == Wall(Position(2, 1), 1, Red) && c == Wall(Position(1, 2), 2, Blue) && x == Wall(Position(3, 2), 2, Blue)
    requires targets == [Position(0, 1), Position(2, 1), Position(1, 0), Position(1, 2),
                         Position(0, 0), Position(0, 2), Position(2, 0), Position(2, 2)]
    ensures ApplyHits([a, c, x], targets) == [Weakened(c), x]
    ensures ApplyHits([a, c], targets) == [Weakened(c)]
  {
    assert Distinct(targets);
    assert UniqueWallCells([a, c, x]) && UniqueWallCells([a, c]);
    ApplyHitsIsSimultaneous([a, c, x], targets);
    ApplyHitsIsSimultaneous([a, c], targets);
    assert a.position in targets && c.position in targets && x.position !in targets;
    assert [a, c, x][1..] == [c, x] && [c, x][1..] == [x] && [a, c][1..] == [c];
    assert [x][1..] == [] && [c][1..] == [];
    assert DamageInRange([c], targets) == [Weakened(c)] + DamageInRange([], targets);
    assert DamageInRange([a, c], targets) == DamageInRange([c], targets);
    assert DamageInRange([], targets) == [];
    assert DamageInRange([a, c], targets) == [Weakened(c)];
    assert DamageInRange([x], targets) == [x];
    assert DamageInRange([c, x], targets) == [Weakened(c)] + [x];
    assert DamageInRange([a, c, x], targets) == [Weakened(c), x];
  }

  /** The cells around (1,1), in the order the hit visits them. */
  lemma SurroundingOfCentre(centre: Position)
    requires centre == Position(1, 1)
    ensures SurroundingPositions(centre)
         == [Position(0, 1), Position(2, 1), Position(1, 0), Position(1, 2),
             Position(0, 0), Position(0, 2), Position(2, 0), Position(2, 2)]
  {
    AdjacentOfCentre(centre);
    DiagonalOfCentre(centre);
    assert SurroundingPositions(centre) == AdjacentPositions(centre) + DiagonalPositions(centre);
    CentreListsJoin();
  }

  lemma CentreListsJoin()
    ensures [Position(0, 1), Position(2, 1), Position(1, 0), Position(1, 2)]
          + [Position(0, 0), Position(0, 2), Position(2, 0), Position(2, 2)]
         == [Position(0, 1), Position(2, 1), Position(1, 0), Position(1, 2),
             Position(0, 0), Position(0, 2), Position(2, 0), Position(2, 2)]
  {
  }

  lemma AdjacentOfCentre(centre: Position)
    requires centre == Position(1, 1)
    ensures AdjacentPositions(centre) == [Position(0, 1), Position(2, 1), Position(1, 0), Position(1, 2)]
  {
    AllOnBoard([Position(centre.row - 1, centre.col), Position(centre.row + 1, centre.col),
                Position(centre.row, centre.col - 1), Position(centre.row, centre.col + 1)]);
  }

  lemma DiagonalOfCentre(centre: Position)
    requires centre == Position(1, 1)
    ensures DiagonalPositions(centre) == [Position(0, 0), Position(0, 2), Position(2, 0), Position(2, 2)]
  {
    AllOnBoard([Position(centre.row - 1, centre.col - 1), Position(centre.row - 1, centre.col + 1),
                Position(centre.row + 1, centre.col - 1), Position(centre.row + 1, centre.col + 1)]);
  }

  lemma {:induction false} AllOnBoard(ps: seq<Position>)
    requires forall p :: p in ps ==> IsWithinBoard(p)
    ensures Filter(ps, IsWithinBoard) == ps
  {
    if ps != [] {
      assert forall p :: p in ps[1..] ==> p in ps;
      AllOnBoard(ps[1..]);
      assert ps == [ps[0]] + ps[1..];
    }
  }

  /** The loop as written on the walls at (2,1), (1,2) and (3,2), cell by cell. */
  lemma AsWrittenOnLayout(a: Wall, c: Wall, x: Wall, targets: seq<Position>)
    requires a == Wall(Position(2, 1), 1, Red) && c == Wall(Position(1, 2), 2, Blue) && x == Wall(Position(3, 2), 2, Blue)
    requires targets == [Position(0, 1), Position(2, 1), Position(1, 0), Position(1, 2),
                         Position(0, 0), Position(0, 2), Position(2, 0), Position(2, 2)]
    ensures ApplyHitsAsWritten([a, c, x], targets) == Some([c, Weakened(x)])
  {
    WallIndexOfLayout(a, c, x, targets);
    AsWrittenShiftedHit([a, c, x], targets, a, c, x);
  }

  lemma AsWrittenPastEnd(a: Wall, c: Wall, targets: seq<Position>)
    requires a == Wall(Position(2, 1), 1, Red) && c == Wall(Position(1, 2), 2, Blue)
    requires targets == [Position(0, 1), Position(2, 1), Position(1, 0), Position(1, 2),
                         Position(0, 0), Position(0, 2), Position(2, 0), Position(2, 2)]
    ensures ApplyHitsAsWritten([a, c], targets) == None
  {
    WallIndexOfLayout(a, c, Wall(Position(3, 2), 2, Blue), targets);
    AsWrittenOverrun([a, c], targets, a, c);
  }

  /**
   * Eight cells where only the second and fourth hold walls, at indices 0
   * and 1 of the original list: once the first wall falls, the fourth
   * cell's index lands on the third wall.
   */
  lemma AsWrittenShiftedHit(prev: seq<Wall>, targets: seq<Position>, a: Wall, c: Wall, x: Wall)
    requires prev == [a, c, x] && |targets| == 8 && a.hp <= 1 && x.hp >= 2
    requires WallIndex(prev, targets[1]) == 0 && WallIndex(prev, targets[3]) == 1
    requires forall j :: 0 <= j < 8 && j != 1 && j != 3 ==> WallIndex(prev, targets[j]) == -1
    ensures ApplyHitsAsWritten(prev, targets) == Some([c, Weakened(x)])
  {
    assert targets[..0] == [];
    AsWrittenStep(prev, targets, 0, prev);
    AsWrittenStep(prev, targets, 1, prev);
    assert prev[..0] + prev[1..] == [c, x];
    AsWrittenStep(prev, targets, 2, [c, x]);
    AsWrittenStep(prev, targets, 3, [c, x]);
    assert [c, x][1 := Weakened(x)] == [c, Weakened(x)];
    AsWrittenSkipsFreeCells(prev, targets, 4, 8, [c, Weakened(x)]);
    assert targets[..8] == targets;
  }

  /** The same cells with only two walls: the fourth cell's index is past the end of the shortened copy. */
  lemma AsWrittenOverrun(prev: seq<Wall>, targets: seq<Position>, a: Wall, c: Wall)
    requires prev == [a, c] && |targets| == 8 && a.hp <= 1
    requires WallIndex(prev, targets[1]) == 0 && WallIndex(prev, targets[3]) == 1
    requires forall j :: 0 <= j < 8 && j != 1 && j != 3 ==> WallIndex(prev, targets[j]) == -1
    ensures ApplyHitsAsWritten(prev, targets) == None
  {
    assert targets[..0] == [];
    AsWrittenStep(prev, targets, 0, prev);
    AsWrittenStep(prev, targets, 1, prev);
    assert prev[..0] + prev[1..] == [c];
    AsWrittenStep(prev, targets, 2, [c]);
    AsWrittenStep(prev, targets, 3, [c]);
    AsWrittenStaysBroken(prev, targets, 4, 8);
    assert targets[..8] == targets;
  }

  /** One more cell of the loop as written. */
  lemma AsWrittenStep(prevWalls: seq<Wall>, targets: seq<Position>, k: nat, u: seq<Wall>)
    requires k < |targets| && ApplyHitsAsWritten(prevWalls, targets[..k]) == Some(u)
    ensures ApplyHitsAsWritten(prevWalls, targets[..k + 1]) == HitCellAsWritten(prevWalls, u, targets[k])
  {
    assert targets[..k + 1][..k] == targets[..k];
  }

  lemma {:induction false} AsWrittenSkipsFreeCells(prevWalls: seq<Wall>, targets: seq<Position>, k: nat, n: nat, u: seq<Wall>)
    requires k <= n <= |targets|
    requires ApplyHitsAsWritten(prevWalls, targets[..k]) == Some(u)
    requires forall j :: k <= j < n ==> WallIndex(prevWalls, targets[j]) == -1
    ensures ApplyHitsAsWritten(prevWalls, targets[..n]) == Some(u)
    decreases n
  {
    if k < n {
      AsWrittenSkipsFreeCells(prevWalls, targets, k, n - 1, u);
      assert targets[..n][..n - 1] == targets[..n - 1];
    }
  }

  /** Once the copy is broken it stays broken. */
  lemma {:induction false} AsWrittenStaysBroken(prevWalls: seq<Wall>, targets: seq<Position>, k: nat, n: nat)
    requires k <= n <= |targets|
    requires ApplyHitsAsWritten(prevWalls, targets[..k]) == None
    ensures ApplyHitsAsWritten(prevWalls, targets[..n]) == None
    decreases n
  {
    if k < n {
      AsWrittenStaysBroken(prevWalls, targets, k, n - 1);
      assert targets[..n][..n - 1] == targets[..n - 1];
    }
  }

  /** Where the lookup in the list from before the hit finds the walls of the example, cell by cell. */
  lemma WallIndexOfLayout(a: Wall, c: Wall, x: Wall, targets: seq<Position>)
    requires a == Wall(Position(2, 1), 1, Red) && c == Wall(Position(1, 2), 2, Blue) && x == Wall(Position(3, 2), 2, Blue)
    requires targets == [Position(0, 1), Position(2, 1), Position(1, 0), Position(1, 2),
                         Position(0, 0), Position(0, 2), Position(2, 0), Position(2, 2)]
    ensures WallIndex([a, c, x], targets[1]) == 0 && WallIndex([a, c], targets[1]) == 0
    ensures WallIndex([a, c, x], targets[3]) == 1 && WallIndex([a, c], targets[3]) == 1
    ensures forall j :: 0 <= j < 8 && j != 1 && j != 3 ==>
      WallIndex([a, c, x], targets[j]) == -1 && WallIndex([a, c], targets[j]) == -1
  {
    assert WallCells([a, c, x]) == {a.position, c.position, x.position};
    assert WallCells([a, c]) == {a.position, c.position};
  }
}
