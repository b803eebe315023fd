/**
 * Three rules of the engine that differ from the rules of the game, each
 * shown on a board where the difference matters and each given a corrected
 * form with the property it is evidently meant to have:
 * - the king's steps are judged with the king still on its origin, so the
 *   king may step along the line of a piece that checks it;
 * - castling tests the empty cells up to the rook but not the king's own
 *   cell, and accepts a missing rook or a rook of either colour;
 * - the pawn and knight parts of the attack test do not give the same
 *   answer on the two peers' boards.
 * The engine keeps the rules as written; the corrected forms stand beside it.
 */
module Intended {
  import opened Board
  import opened Attack
  import opened Generate
  import opened Apply

  // The king's steps

  /** White's view: the white king on e4 and a black rook on a4. */
  const KingAndRook: seq<int> := seq(Cells, c => if c == 36 then WKing else if c == 32 then BRook else Void)

  /** The free neighbour of (x, y) in direction `i`, where the king, once moved there, is not attacked. */
  ghost predicate SafeNeighbour(k: seq<int>, whites: bool, x: int, y: int, i: int, c: int)
    requires |k| == Cells && OnBoard(x, y)
  {
    OnBoard(x + Dx(i), y + Dy(i)) && c == At(x + Dx(i), y + Dy(i))
      && Capturable(k, whites, c) && !Attacked(MovedKinds(k, At(x, y), c), whites, c)
  }

  /**
   * The king's one-step destinations in directions 1 to `n`, each judged on
   * the board after the king has moved there.
   */
  function SafeKingSteps(k: seq<int>, whites: bool, x: int, y: int, n: int): (r: seq<int>)
    requires |k| == Cells && OnBoard(x, y) && 0 <= n <= 8
    ensures InRange(r) && Targets(k, whites, r)
  {
    if n == 0 then []
    else
      var rest := SafeKingSteps(k, whites, x, y, n - 1);
      var c := At(x + Dx(n), y + Dy(n));
      if OnBoard(x + Dx(n), y + Dy(n)) && Capturable(k, whites, c) && !Attacked(MovedKinds(k, At(x, y), c), whites, c)
      then rest + [c] else rest
  }

  /** The corrected steps are exactly the neighbours the king can move to without being attacked there. */
  lemma {:induction false} SafeKingStepsExact(k: seq<int>, whites: bool, x: int, y: int, n: int, c: int)
    requires |k| == Cells && OnBoard(x, y) && 0 <= n <= 8
    ensures c in SafeKingSteps(k, whites, x, y, n) <==> exists i :: 1 <= i <= n && SafeNeighbour(k, whites, x, y, i, c)
  {
    if n > 0 {
      var prev := SafeKingSteps(k, whites, x, y, n - 1);
      SafeKingStepsExact(k, whites, x, y, n - 1, c);
      if c in SafeKingSteps(k, whites, x, y, n) {
        if c in prev {
          var i :| 1 <= i <= n - 1 && SafeNeighbour(k, whites, x, y, i, c);
        } else {
          assert SafeNeighbour(k, whites, x, y, n, c);
        }
      }
      if exists i :: 1 <= i <= n && SafeNeighbour(k, whites, x, y, i, c) {
        var i :| 1 <= i <= n && SafeNeighbour(k, whites, x, y, i, c);
        if i == n {
          assert c in SafeKingSteps(k, whites, x, y, n);
        } else {
          assert c in prev;
        }
      }
    }
  }

  /**
   * A corrected step made by `do_move` is never a castling, and leaves the
   * king unattacked on its new cell.
   */
  lemma SafeKingStepKeepsKingSafe(b: seq<Cell>, whites: bool, castling: bool, x: int, y: int, c: int)
    requires |b| == Cells && OnBoard(x, y) && c in SafeKingSteps(Kinds(b), whites, x, y, 8)
    ensures !IsCastle(castling, At(x, y), c, At(x, y)) && DoMoveFits(whites, castling, At(x, y), c, At(x, y))
    ensures !Attacked(Kinds(DoMoveBoard(b, whites, castling, At(x, y), c, At(x, y))), whites, c)
  {
    SafeKingStepsExact(Kinds(b), whites, x, y, 8, c);
    var i :| 1 <= i <= 8 && SafeNeighbour(Kinds(b), whites, x, y, i, c);
    AtCoordinates(x, y);
    MoveOntoCapturable(b, whites, c, At(x, y));
  }

  /**
   * As written, the white king on e4, checked by the rook on a4, is offered
   * f4, where the rook attacks it once the king has moved; the corrected
   * steps do not offer f4.
   */
  lemma KingStepsIntoCheck()
    ensures 37 in KingTargets(KingAndRook, true, false, [], 4, 4)
    ensures Attacked(MovedKinds(KingAndRook, 36, 37), true, 37)
    ensures 37 !in SafeKingSteps(KingAndRook, true, 4, 4, 8)
  {
    var k := KingAndRook;
    AttackedIffAttackerInSight(k, true, 37);
    forall i, n | 1 <= i <= 8 && LineOfSight(k, 5, 4, i, n)
      ensures !Reaches(k[At(Along(5, Dx(i), n), Along(4, Dy(i), n))], true, i, n)
    {
      assert i == 1 && n >= 2 ==> k[At(Along(5, Dx(i), 1), Along(4, Dy(i), 1))] == Void;
    }
    assert FreeNeighbour(k, true, 4, 4, 5, 37);
    KingStepsExact(k, true, 4, 4, 8, 37);
    var m := MovedKinds(k, 36, 37);
    AttackedIffAttackerInSight(m, true, 37);
    assert LineOfSight(m, 5, 4, 1, 5) && Reaches(m[At(Along(5, Dx(1), 5), Along(4, Dy(1), 5))], true, 1, 5);
    SafeKingStepsExact(k, true, 4, 4, 8, 37);
  }

  // Castling

  /** White's view: the white king on e1 and rook on h1, and a black rook on e8 checking the king. */
  const CheckedCastle: seq<int> := seq(Cells, c => if c == 60 then WKing else if c == 63 then WRook else if c == 4 then BRook else Void)

  /**
   * Castling along ray `i` (1 west, 5 east) as the game defines it: the
   * first occupied cell along the ray is an own rook standing in the corner,
   * with at least two empty cells between it and the king, and that rook
   * never left its home; the king's origin, the cell it crosses and its
   * destination are not attacked.
   */
  function IntendedCastleTarget(k: seq<int>, whites: bool, moves: seq<MoveRecord>, i: int, x: int, y: int): (r: seq<int>)
    requires |k| == Cells && OnBoard(x, y) && (i == 1 || i == 5)
    ensures InRange(r)
  {
    var w := Ray(k, i, x, y, -1);
    var d := Dx(i);
    var rook := if whites then WRook else BRook;
    if && w.blocker.Some? && k[w.blocker.value] == rook
       && w.blocker.value % 8 == (if i == 1 then 0 else Size - 1)
       && !RookLeftHome(moves, rook, i) && |w.empties| >= 2 && OnBoard(x + 2 * d, y)
       && !Attacked(k, whites, At(x, y)) && !Attacked(k, whites, At(x + d, y)) && !Attacked(k, whites, At(x + 2 * d, y))
    then [At(x + 2 * d, y)] else []
  }

  /** The castling conditions in terms of the cells of the king's row. */
  ghost predicate CastleAllowed(k: seq<int>, whites: bool, moves: seq<MoveRecord>, i: int, x: int, y: int)
    requires |k| == Cells && OnBoard(x, y) && (i == 1 || i == 5)
  {
    var d, n := Dx(i), if i == 1 then x else Size - 1 - x;
    var rook := if whites then WRook else BRook;
    && n >= 3 && LineOfSight(k, x, y, i, n) && k[At(Along(x, d, n), y)] == rook
    && !RookLeftHome(moves, rook, i)
    && !Attacked(k, whites, At(x, y)) && !Attacked(k, whites, At(x + d, y)) && !Attacked(k, whites, At(x + 2 * d, y))
  }

  /**
   * Corrected castling is offered exactly when an own rook that never left
   * its home stands in the corner with only empty cells, at least two,
   * between it and the king, and neither the king's cell nor the two cells
   * it moves over are attacked.
   */
  lemma IntendedCastleTargetExact(k: seq<int>, whites: bool, moves: seq<MoveRecord>, i: int, x: int, y: int)
    requires |k| == Cells && OnBoard(x, y) && (i == 1 || i == 5)
    ensures IntendedCastleTarget(k, whites, moves, i, x, y)
      == if CastleAllowed(k, whites, moves, i, x, y) then [At(x + 2 * Dx(i), y)] else []
  {
    var w := Ray(k, i, x, y, -1);
    var d, n := Dx(i), if i == 1 then x else Size - 1 - x;
    if w.blocker.Some? {
      RayBlockerInSight(k, i, x, y, -1);
      AtCoordinates(Along(x, d, |w.empties| + 1), y);
    }
    if CastleAllowed(k, whites, moves, i, x, y) {
      RayBlockerIff(k, i, x, y, -1, At(Along(x, d, n), y));
      RayBlockerInSight(k, i, x, y, -1);
      AtCoordinates(Along(x, d, n), y);
      AtCoordinates(Along(x, d, |w.empties| + 1), y);
    }
  }

  /**
   * As written, the white king on e1, checked by the rook on e8, is offered
   * castling to g1; corrected castling is not offered.
   */
  lemma CastlesOutOfCheck()
    ensures Attacked(CheckedCastle, true, 60)
    ensures CastleTarget(CheckedCastle, true, [], 5, 4, 7) == [62]
    ensures IntendedCastleTarget(CheckedCastle, true, [], 5, 4, 7) == []
  {
    CheckedKing();
    CheckedCastlePath();
    assert RookAtHome(CheckedCastle, [], 5, 4, 7);
    CastleTargetExact(CheckedCastle, true, [], 5, 4, 7);
  }

  /** The rook on e8 attacks the king on e1. */
  lemma CheckedKing()
    ensures Attacked(CheckedCastle, true, 60)
  {
    var k := CheckedCastle;
    AttackedIffAttackerInSight(k, true, 60);
    assert LineOfSight(k, 4, 7, 3, 7) && Reaches(k[At(Along(4, Dx(3), 7), Along(7, Dy(3), 7))], true, 3, 7);
  }

  /** Neither f1 nor g1 is attacked. */
  lemma CheckedCastlePath()
    ensures PathSafe(CheckedCastle, true, 5, 4, 7)
  {
    var k := CheckedCastle;
    forall n | 1 <= n && LineOfSight(k, 4, 7, 5, n) && k[At(Along(4, Dx(5), n), Along(7, Dy(5), n))] == Void
      ensures !Attacked(k, true, At(Along(4, Dx(5), n), Along(7, Dy(5), n)))
    {
      var c := At(Along(4, Dx(5), n), Along(7, Dy(5), n));
      AttackedIffAttackerInSight(k, true, c);
      var x, y := c % 8, c / 8;
      assert y == 7 && (x == 5 || x == 6);
    }
  }

  /** White's view: the white king on e1 alone. */
  const LoneKing: seq<int> := seq(Cells, c => if c == 60 then WKing else Void)

  /**
   * As written, the white king on e1 with no rook on h1 is offered castling
   * to g1, because the walk to the edge met no piece; corrected castling is
   * not offered.
   */
  lemma CastlesWithoutRook()
    ensures CastleTarget(LoneKing, true, [], 5, 4, 7) == [62]
    ensures IntendedCastleTarget(LoneKing, true, [], 5, 4, 7) == []
  {
    var k := LoneKing;
    forall n | 1 <= n && LineOfSight(k, 4, 7, 5, n) && k[At(Along(4, Dx(5), n), Along(7, Dy(5), n))] == Void
      ensures !Attacked(k, true, At(Along(4, Dx(5), n), Along(7, Dy(5), n)))
    {
      AttackedIffAttackerInSight(k, true, At(Along(4, Dx(5), n), Along(7, Dy(5), n)));
    }
    assert CastlePathClear(k, true, [], 5, 4, 7);
    CastleTargetExact(k, true, [], 5, 4, 7);
    IntendedCastleTargetExact(k, true, [], 5, 4, 7);
  }

  // The attack test on the two peers' boards

  /** Direction `i` reversed. */
  function Opposite(i: int): int {
    if i <= 4 then i + 4 else i - 4
  }

  /** An enemy knight stands at knight offset `j` from (x, y). */
  ghost predicate KnightAt(k: seq<int>, whites: bool, x: int, y: int, j: int)
    requires |k| == Cells && 0 <= j < 8
  {
    OnBoard(x + KnightDx[j], y + KnightDy[j])
      && k[At(x + KnightDx[j], y + KnightDy[j])] == (if whites then BKnight else WKnight)
  }

  /** An enemy knight at a knight offset from (x, y) on the board, cell 0 included. */
  ghost predicate KnightNearby(k: seq<int>, whites: bool, x: int, y: int)
    requires |k| == Cells
  {
    exists j :: 0 <= j < 8 && KnightAt(k, whites, x, y, j)
  }

  /**
   * Which enemy pieces threaten a cell `n` steps away along direction `i`,
   * on the board of side `view`: as `Reaches`, except that a pawn attacks
   * in the direction it moves, up the board (towards row 0) for the pawns of
   * side `view` and down it for the other side's.
   */
  ghost predicate IntendedReaches(kind: int, view: bool, whites: bool, i: int, n: int) {
    if kind == WPawn || kind == BPawn then
      EnemyKind(kind, whites) && n == 1 && (if (kind == WPawn) == view then i == 6 || i == 8 else i == 2 || i == 4)
    else Reaches(kind, whites, i, n)
  }

  /** The cell `pos` of side `view`'s board is attacked by the side that is not `whites`. */
  ghost predicate IntendedAttacked(k: seq<int>, view: bool, whites: bool, pos: int)
    requires |k| == Cells && 0 <= pos < Cells
  {
    var x, y := pos % 8, pos / 8;
    || KnightNearby(k, whites, x, y)
    || exists i, n :: 1 <= i <= 8 && LineOfSight(k, x, y, i, n)
         && IntendedReaches(k[At(Along(x, Dx(i), n), Along(y, Dy(i), n))], view, whites, i, n)
  }

  /** A line of sight on one board is the reversed line of sight from the turned cell on the turned board. */
  lemma LineOfSightTurns(k: seq<int>, x: int, y: int, i: int, n: int)
    requires |k| == Cells && OnBoard(x, y) && 1 <= i <= 8 && LineOfSight(k, x, y, i, n)
    ensures LineOfSight(Rotated(k), Size - 1 - x, Size - 1 - y, Opposite(i), n)
    ensures At(Along(Size - 1 - x, Dx(Opposite(i)), n), Along(Size - 1 - y, Dy(Opposite(i)), n))
      == Cells - 1 - At(Along(x, Dx(i), n), Along(y, Dy(i), n))
  {
    var r, o := Rotated(k), Opposite(i);
    var x', y' := Size - 1 - x, Size - 1 - y;
    forall j | 1 <= j < n
      ensures r[At(Along(x', Dx(o), j), Along(y', Dy(o), j))] == Void
    {
      assert k[At(Along(x, Dx(i), j), Along(y, Dy(i), j))] == Void;
      AtCoordinates(Along(x, Dx(i), j), Along(y, Dy(i), j));
    }
  }

  /** The cell `pos` turned has the turned coordinates. */
  lemma TurnedCoordinates(pos: int)
    requires 0 <= pos < Cells
    ensures (Cells - 1 - pos) % 8 == Size - 1 - pos % 8 && (Cells - 1 - pos) / 8 == Size - 1 - pos / 8
  {
    AtCoordinates(Size - 1 - pos % 8, Size - 1 - pos / 8);
  }

  /** A knight near a cell on one board is near the turned cell on the turned board. */
  lemma KnightTurns(k: seq<int>, whites: bool, x: int, y: int)
    requires |k| == Cells && OnBoard(x, y) && KnightNearby(k, whites, x, y)
    ensures KnightNearby(Rotated(k), whites, Size - 1 - x, Size - 1 - y)
  {
    var j :| 0 <= j < 8 && KnightAt(k, whites, x, y, j);
    KnightOffsetReversed(j);
    var j' := if j < 4 then j + 4 else j - 4;
    OffsetTurns(x, y, KnightDx[j], KnightDy[j]);
    assert KnightAt(Rotated(k), whites, Size - 1 - x, Size - 1 - y, j');
  }

  /** The cell at offset (dx, dy) from (x, y), turned, is at the reversed offset from the turned cell. */
  lemma OffsetTurns(x: int, y: int, dx: int, dy: int)
    requires OnBoard(x + dx, y + dy)
    ensures 0 <= At(x + dx, y + dy) < Cells && OnBoard(Size - 1 - x - dx, Size - 1 - y - dy)
    ensures At(Size - 1 - x - dx, Size - 1 - y - dy) == Cells - 1 - At(x + dx, y + dy)
  {
  }

  /** The knight offsets come in opposite pairs, four entries apart. */
  lemma KnightOffsetReversed(j: int)
    requires 0 <= j < 8
    ensures var j' := if j < 4 then j + 4 else j - 4;
      KnightDx[j'] == -KnightDx[j] && KnightDy[j'] == -KnightDy[j]
  {
  }

  /** A piece that reaches a cell along a ray on one board reaches the turned cell along the reversed ray on the turned board. */
  lemma RayThreatTurns(k: seq<int>, view: bool, whites: bool, x: int, y: int, i: int, n: int)
    requires |k| == Cells && OnBoard(x, y) && 1 <= i <= 8 && LineOfSight(k, x, y, i, n)
    requires IntendedReaches(k[At(Along(x, Dx(i), n), Along(y, Dy(i), n))], view, whites, i, n)
    ensures var o, x', y' := Opposite(i), Size - 1 - x, Size - 1 - y;
      && LineOfSight(Rotated(k), x', y', o, n)
      && IntendedReaches(Rotated(k)[At(Along(x', Dx(o), n), Along(y', Dy(o), n))], !view, whites, o, n)
  {
    LineOfSightTurns(k, x, y, i, n);
    AtCoordinates(Along(x, Dx(i), n), Along(y, Dy(i), n));
  }

  /** An attack seen on one board is seen on the other peer's turned board. */
  lemma AttackTurns(k: seq<int>, view: bool, whites: bool, pos: int)
    requires |k| == Cells && 0 <= pos < Cells && IntendedAttacked(k, view, whites, pos)
    ensures IntendedAttacked(Rotated(k), !view, whites, Cells - 1 - pos)
  {
    var x, y := pos % 8, pos / 8;
    TurnedCoordinates(pos);
    if KnightNearby(k, whites, x, y) {
      KnightTurns(k, whites, x, y);
    } else {
      var i, n :| 1 <= i <= 8 && LineOfSight(k, x, y, i, n)
        && IntendedReaches(k[At(Along(x, Dx(i), n), Along(y, Dy(i), n))], view, whites, i, n);
      RayThreatTurns(k, view, whites, x, y, i, n);
      assert 1 <= Opposite(i) <= 8;
    }
  }

  /**
   * Corrected, both peers agree on every attack: a cell of one side's board
   * is attacked exactly when the same cell, turned, is attacked on the other
   * side's board.
   */
  lemma AttackSeenAlike(k: seq<int>, view: bool, whites: bool, pos: int)
    requires |k| == Cells && 0 <= pos < Cells
    ensures IntendedAttacked(k, view, whites, pos) <==> IntendedAttacked(Rotated(k), !view, whites, Cells - 1 - pos)
  {
    if IntendedAttacked(k, view, whites, pos) {
      AttackTurns(k, view, whites, pos);
    }
    if IntendedAttacked(Rotated(k), !view, whites, Cells - 1 - pos) {
      AttackTurns(Rotated(k), !view, whites, Cells - 1 - pos);
      RotatedTwice(k);
    }
  }

  /**
   * When the side under attack is the side whose board it is, as when the
   * engine tests its own king, and no enemy knight stands on cell 0, the
   * source's test agrees with the corrected one.
   */
  lemma IntendedAgreesOnOwnKing(k: seq<int>, whites: bool, pos: int)
    requires |k| == Cells && 0 <= pos < Cells && k[0] != (if whites then BKnight else WKnight)
    ensures IntendedAttacked(k, whites, whites, pos) <==> Attacked(k, whites, pos)
  {
    var x, y := pos % 8, pos / 8;
    AttackedIffAttackerInSight(k, whites, pos);
    if KnightNearby(k, whites, x, y) {
      var j :| 0 <= j < 8 && KnightAt(k, whites, x, y, j);
      assert At(x + KnightDx[j], y + KnightDy[j]) != 0;
    }
    if KnightThreat(k, whites, x, y) {
      var j :| 0 <= j < 8 && OnBoard(x + KnightDx[j], y + KnightDy[j])
        && At(x + KnightDx[j], y + KnightDy[j]) != 0
        && k[At(x + KnightDx[j], y + KnightDy[j])] == (if whites then BKnight else WKnight);
      assert KnightAt(k, whites, x, y, j);
    }
    assert forall kind, i, n :: IntendedReaches(kind, whites, whites, i, n) <==> Reaches(kind, whites, i, n);
  }

  /** White's view: the black king on e5 and a white pawn on f4, which checks it. */
  const PawnCheck: seq<int> := seq(Cells, c => if c == 28 then BKing else if c == 37 then WPawn else Void)

  /**
   * As written, White's board does not show the black king checked by the
   * pawn on f4, while Black's board, the same position turned, does; the
   * corrected test finds the check on both boards.
   */
  lemma PawnCheckMissed()
    ensures !Attacked(PawnCheck, false, 28)
    ensures Attacked(Rotated(PawnCheck), false, 35)
    ensures IntendedAttacked(PawnCheck, true, false, 28)
    ensures IntendedAttacked(Rotated(PawnCheck), false, false, 35)
  {
    var k, r := PawnCheck, Rotated(PawnCheck);
    assert Ray(r, 2, 3, 4, -1) == Walk([], Some(26));
    assert RayAttack(r, false, 2, 3, 4);
    assert LineOfSight(k, 4, 3, 6, 1) && IntendedReaches(k[At(Along(4, Dx(6), 1), Along(3, Dy(6), 1))], true, false, 6, 1);
    AttackSeenAlike(k, true, false, 28);
  }

  /** White's view: the white king on b6 and a black knight on a8, which checks it. */
  const KnightCheck: seq<int> := seq(Cells, c => if c == 17 then WKing else if c == 0 then BKnight else Void)

  /**
   * As written, White's board does not show the white king checked by the
   * knight on a8, cell 0 of that board, while Black's board, where the
   * knight stands on cell 63, does; the corrected test finds the check on
   * both boards.
   */
  lemma KnightCheckMissed()
    ensures !Attacked(KnightCheck, true, 17)
    ensures Attacked(Rotated(KnightCheck), true, 46)
    ensures IntendedAttacked(KnightCheck, true, true, 17)
    ensures IntendedAttacked(Rotated(KnightCheck), false, true, 46)
  {
    var k, r := KnightCheck, Rotated(KnightCheck);
    assert KnightPositions(6, 5)[5] == 63;
    assert KnightAttack(r, true, 6, 5);
    assert KnightAt(k, true, 1, 2, 1);
    AttackSeenAlike(k, true, true, 17);
  }
}
