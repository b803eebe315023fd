/**
 * Attack detection: whether a piece of the side that is not `whites`
 * threatens a cell. `Attacked` follows the source's procedure (knight
 * offsets, then the first occupied cell on each of the eight rays);
 * `AttackerInSight` is an independent geometric description, and
 * `AttackedIffAttackerInSight` proves the two agree on every board.
 */
module Attack {
  import opened Board

  /**
   * Whether `kind`, found as the first occupied cell (px, py) on ray `i`
   * from (x, y), threatens (x, y); `whites` is the side under attack.
   */
  predicate Threatens(kind: int, whites: bool, i: int, x: int, y: int, px: int, py: int) {
    if kind == BRook then whites && i % 2 != 0
    else if kind == BKnight then false
    else if kind == BBishop then whites && i % 2 == 0
    else if kind == BQueen then whites
    else if kind == BKing then whites && (Abs(px - x) == 1 || Abs(y - py) == 1)
    else if kind == BPawn then whites && Abs(px - x) == 1 && y - py == 1
    else if kind == WPawn then !whites && Abs(px - x) == 1 && y - py == 1
    else if kind == WRook then !whites && i % 2 != 0
    else if kind == WKnight then false
    else if kind == WBishop then !whites && i % 2 == 0
    else if kind == WQueen then !whites
    else if kind == WKing then !whites && (Abs(px - x) == 1 || Abs(y - py) == 1)
    else false
  }

  /** An enemy knight on one of the knight cells; a knight cell with index 0 is never looked at. */
  predicate KnightAttack(k: seq<int>, whites: bool, x: int, y: int)
    requires |k| == Cells && OnBoard(x, y)
  {
    var knight := KnightPositions(x, y);
    exists j :: 0 <= j < 8 && knight[j] > 0 && k[knight[j]] == (if whites then BKnight else WKnight)
  }

  /** The first occupied cell on ray `i` from (x, y) holds a piece that threatens (x, y). */
  predicate RayAttack(k: seq<int>, whites: bool, i: int, x: int, y: int)
    requires |k| == Cells && OnBoard(x, y)
  {
    var w := Ray(k, i, x, y, -1);
    w.blocker.Some? && Threatens(k[w.blocker.value], whites, i, x, y, w.blocker.value % 8, w.blocker.value / 8)
  }

  /** The cell `pos` is attacked by the side that is not `whites`. */
  predicate Attacked(k: seq<int>, whites: bool, pos: int)
    requires |k| == Cells && 0 <= pos < Cells
  {
    var x, y := pos % 8, pos / 8;
    KnightAttack(k, whites, x, y) || exists i :: 1 <= i <= 8 && RayAttack(k, whites, i, x, y)
  }

  /**
   * Which enemy pieces threaten a cell `n` steps away along direction `i`
   * with nothing in between: rooks along the odd (orthogonal) directions,
   * bishops along the even (diagonal) ones, queens along both, kings from one
   * step away, and pawns from one step away towards the top of the board
   * (directions 2 and 4).
   */
  ghost predicate Reaches(kind: int, whites: bool, i: int, n: int) {
    && EnemyKind(kind, whites)
    && if kind == BRook || kind == WRook then i % 2 == 1
       else if kind == BBishop || kind == WBishop then i % 2 == 0
       else if kind == BQueen || kind == WQueen then true
       else if kind == BKing || kind == WKing then n == 1
       else if kind == BPawn || kind == WPawn then n == 1 && (i == 2 || i == 4)
       else false
  }

  ghost predicate KnightThreat(k: seq<int>, whites: bool, x: int, y: int)
    requires |k| == Cells
  {
    exists j :: 0 <= j < 8 && OnBoard(x + KnightDx[j], y + KnightDy[j])
      && At(x + KnightDx[j], y + KnightDy[j]) != 0
      && k[At(x + KnightDx[j], y + KnightDy[j])] == (if whites then BKnight else WKnight)
  }

  /** The geometric description of an attack on `pos`. */
  ghost predicate AttackerInSight(k: seq<int>, whites: bool, pos: int)
    requires |k| == Cells && 0 <= pos < Cells
  {
    var x, y := pos % 8, pos / 8;
    || KnightThreat(k, whites, x, y)
    || exists i, n :: 1 <= i <= 8 && LineOfSight(k, x, y, i, n)
         && Reaches(k[At(Along(x, Dx(i), n), Along(y, Dy(i), n))], whites, i, n)
  }

  /** The source's piece-by-piece classification agrees with the geometric one. */
  lemma ThreatensIffReaches(kind: int, whites: bool, i: int, x: int, y: int, n: int)
    requires 1 <= i <= 8 && 1 <= n
    ensures Threatens(kind, whites, i, x, y, Along(x, Dx(i), n), Along(y, Dy(i), n)) <==> Reaches(kind, whites, i, n)
  {
  }

  lemma KnightAttackIffThreat(k: seq<int>, whites: bool, x: int, y: int)
    requires |k| == Cells && OnBoard(x, y)
    ensures KnightAttack(k, whites, x, y) <==> KnightThreat(k, whites, x, y)
  {
    var knight := KnightPositions(x, y);
    if KnightAttack(k, whites, x, y) {
      var j :| 0 <= j < 8 && knight[j] > 0 && k[knight[j]] == (if whites then BKnight else WKnight);
      assert OnBoard(x + KnightDx[j], y + KnightDy[j]);
    }
    if KnightThreat(k, whites, x, y) {
      var j :| 0 <= j < 8 && OnBoard(x + KnightDx[j], y + KnightDy[j])
        && At(x + KnightDx[j], y + KnightDy[j]) != 0
        && k[At(x + KnightDx[j], y + KnightDy[j])] == (if whites then BKnight else WKnight);
      assert knight[j] == At(x + KnightDx[j], y + KnightDy[j]);
    }
  }

  /** A ray attack comes from an enemy piece in line of sight that reaches along that ray. */
  lemma RayAttackInSight(k: seq<int>, whites: bool, i: int, x: int, y: int)
    requires |k| == Cells && OnBoard(x, y) && 1 <= i <= 8
    requires RayAttack(k, whites, i, x, y)
    ensures exists n :: LineOfSight(k, x, y, i, n) && Reaches(k[At(Along(x, Dx(i), n), Along(y, Dy(i), n))], whites, i, n)
  {
    var w := Ray(k, i, x, y, -1);
    RayBlockerInSight(k, i, x, y, -1);
    var n := |w.empties| + 1;
    AtCoordinates(Along(x, Dx(i), n), Along(y, Dy(i), n));
    ThreatensIffReaches(k[w.blocker.value], whites, i, x, y, n);
  }

  /** An enemy piece in line of sight that reaches along a ray is reported by that ray. */
  lemma InSightRayAttack(k: seq<int>, whites: bool, i: int, x: int, y: int, n: int)
    requires |k| == Cells && OnBoard(x, y) && 1 <= i <= 8
    requires LineOfSight(k, x, y, i, n) && Reaches(k[At(Along(x, Dx(i), n), Along(y, Dy(i), n))], whites, i, n)
    ensures RayAttack(k, whites, i, x, y)
  {
    var c := At(Along(x, Dx(i), n), Along(y, Dy(i), n));
    RayFindsLineOfSight(k, i, x, y, -1, n);
    AtCoordinates(Along(x, Dx(i), n), Along(y, Dy(i), n));
    ThreatensIffReaches(k[c], whites, i, x, y, n);
  }

  /** `Attacked` holds exactly when some enemy piece threatens the cell geometrically. */
  lemma AttackedIffAttackerInSight(k: seq<int>, whites: bool, pos: int)
    requires |k| == Cells && 0 <= pos < Cells
    ensures Attacked(k, whites, pos) <==> AttackerInSight(k, whites, pos)
  {
    var x, y := pos % 8, pos / 8;
    KnightAttackIffThreat(k, whites, x, y);
    if Attacked(k, whites, pos) && !KnightAttack(k, whites, x, y) {
      var i :| 1 <= i <= 8 && RayAttack(k, whites, i, x, y);
      RayAttackInSight(k, whites, i, x, y);
    }
    if AttackerInSight(k, whites, pos) && !KnightThreat(k, whites, x, y) {
      var i, n :| 1 <= i <= 8 && LineOfSight(k, x, y, i, n)
        && Reaches(k[At(Along(x, Dx(i), n), Along(y, Dy(i), n))], whites, i, n);
      InSightRayAttack(k, whites, i, x, y, n);
    }
  }
}
