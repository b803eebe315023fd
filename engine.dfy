/**
 * The engine of one player: the board array and the state the source keeps
 * in namespace-level variables, with the operations the window (a click on a
 * cell) and the peer (a received move) drive. Every method is proved to
 * compute what the functions of `Generate`, `Apply` and `Notation` describe.
 */
module Chess {
  import opened Board
  import opened Attack
  import opened Generate
  import opened Apply
  import opened Notation
  import opened Offers
  import opened Seqs

  /** The cell the king of side `whites` starts on, and must stand on while castling is enabled. */
  function KingHome(whites: bool): int {
    if whites then 60 else 59
  }

  /** The starting board as side `whites` sees it. */
  function StartBoard(whites: bool): seq<Cell> {
    if whites then InitPosition else Rotated(InitPosition)
  }

  /**
   * Each side starts with its own king on its home cell and the enemy king
   * on the cell `init` records for it, and both sides see the same board
   * rotated by half a turn.
   */
  lemma StartBoardKings(whites: bool)
    ensures Kind(StartBoard(whites)[KingHome(whites)]) == (if whites then WKing else BKing)
    ensures Kind(StartBoard(whites)[if whites then 4 else 3]) == (if whites then BKing else WKing)
    ensures StartBoard(!whites) == Rotated(StartBoard(whites))
  {
    var r := Rotated(InitPosition);
    assert InitPosition[60] == 12 && InitPosition[4] == 5;
    assert r[59] == InitPosition[4] && r[3] == InitPosition[60];
    assert (12 as Cell) & 0xFF == 12 && (5 as Cell) & 0xFF == 5;
    assert Kind(12) == WKing && Kind(5) == BKing;
    RotatedTwice(InitPosition);
  }

  class Engine {
    var position: array<Cell>
    var availables: seq<int>      // cells offered to the selected piece
    var moves: seq<MoveRecord>    // every move made on this board, both sides'
    var outbox: seq<string>       // messages handed to the move listener
    var whites: bool
    var wait: bool
    var chooseBegin: bool
    var castlingEnabled: bool
    var isCheck: bool
    var enemyChecked: bool
    var kingPos: int
    var enemyKing: int
    var startPos: int
    var lastSelected: int

    /** The cell indices the engine keeps are on the board. */
    ghost predicate Valid()
      reads this, position
    {
      && position.Length == Cells
      && 0 <= kingPos < Cells && 0 <= enemyKing < Cells
      && 0 <= startPos < Cells && 0 <= lastSelected < Cells
      && InRange(availables)
    }

    /** Castling is only enabled while the own king is on its home cell. */
    ghost predicate CastlingAtHome()
      reads this
    {
      castlingEnabled ==> kingPos == KingHome(whites)
    }

    /** The state before `init`: an empty board and every variable zero. */
    constructor ()
      ensures Valid() && CastlingAtHome() && fresh(position)
      ensures forall c :: 0 <= c < Cells ==> position[c] == 0
      ensures availables == [] && moves == [] && outbox == []
      ensures !whites && !wait && !chooseBegin && !castlingEnabled && !isCheck && !enemyChecked
      ensures kingPos == 0 && enemyKing == 0 && startPos == 0 && lastSelected == 0
    {
      position := new Cell[Cells](_ => 0);
      availables, moves, outbox := [], [], [];
      whites, wait, chooseBegin, castlingEnabled, isCheck, enemyChecked := false, false, false, false, false, false;
      kingPos, enemyKing, startPos, lastSelected := 0, 0, 0, 0;
    }

    /**
     * Starts a game as side `white`: the starting board as that side sees it,
     * White to move, both kings at home and castling enabled. The offered
     * cells and the recorded moves are kept as they were.
     */
    method Init(white: bool)
      requires Valid()
      modifies this, position
      ensures Valid() && CastlingAtHome() && position == old(position)
      ensures position[..] == StartBoard(white)
      ensures whites == white && wait == !white
      ensures kingPos == KingHome(white) && enemyKing == (if white then 4 else 3)
      ensures castlingEnabled && !isCheck && !enemyChecked && !chooseBegin && lastSelected == 0
      ensures availables == old(availables) && moves == old(moves) && outbox == old(outbox) && startPos == old(startPos)
    {
      CopyLayout(white);
      lastSelected := 0;
      chooseBegin := false;
      whites := white;
      castlingEnabled := true;
      isCheck := false;
      enemyChecked := false;
      wait := !white;
      kingPos := if white then 60 else 59;
      enemyKing := if white then 4 else 3;
    }

    /** `std::copy` of the starting layout into the board, reversed for Black. */
    method CopyLayout(white: bool)
      requires position.Length == Cells
      modifies position
      ensures position[..] == StartBoard(white)
    {
      for j := 0 to Cells
        invariant forall c :: 0 <= c < j ==> position[c] == StartBoard(white)[c]
      {
        position[j] := if white then InitPosition[j] else InitPosition[Cells - 1 - j];
      }
    }

    /** `atacked`: whether the side that is not `whites` attacks `pos` on the current board. */
    method IsAttacked(pos: int) returns (r: bool)
      requires position.Length == Cells && 0 <= pos < Cells
      ensures r == Attacked(Kinds(position[..]), whites, pos)
    {
      var k := Kinds(position[..]);
      var x, y := pos % 8, pos / 8;
      var knight := KnightPositions(x, y);
      for j := 0 to 8
        invariant forall q :: 0 <= q < j ==> !(knight[q] > 0 && k[knight[q]] == (if whites then BKnight else WKnight))
      {
        if knight[j] > 0 && k[knight[j]] == (if whites then BKnight else WKnight) {
          return true;
        }
      }
      for i := 1 to 9
        invariant forall d :: 1 <= d < i ==> !RayAttack(k, whites, d, x, y)
      {
        var w := Ray(k, i, x, y, -1);
        if w.blocker.Some? {
          var at := w.blocker.value;
          if Threatens(k[at], whites, i, x, y, at % 8, at / 8) {
            assert RayAttack(k, whites, i, x, y);
            return true;
          }
        }
      }
      return false;
    }

    /** `add_available`: marks `pos` and appends it to the offered cells. */
    method AddAvailable(pos: int)
      requires Valid() && 0 <= pos < Cells
      modifies position, this`availables
      ensures Valid()
      ensures availables == old(availables) + [pos]
      ensures position[..] == Mark(old(position[..]), [pos])
    {
      position[pos] := position[pos] + AvailableBit;
      availables := availables + [pos];
    }

    /**
     * `next_empty`: the selected piece may go to the empty cell `at` when the
     * tentative exchange of the two cells leaves its king unattacked. (The
     * source tests `is_check` first; both of its branches do the same.)
     */
    method NextEmpty(at: int)
      requires Valid() && 0 <= at < Cells && at != startPos && Kind(position[at]) == Void
      modifies position, this`availables
      ensures Valid()
      ensures var added := if SafeMove(Kinds(old(position[..])), whites, kingPos, startPos, at) then [at] else [];
        availables == old(availables) + added && position[..] == Mark(old(position[..]), added)
    {
      ghost var b := position[..];
      position[at], position[startPos] := position[startPos], position[at];
      assert Kinds(position[..]) == MovedKinds(Kinds(b), startPos, at);
      var kingAttacked := IsAttacked(kingPos);
      position[at], position[startPos] := position[startPos], position[at];
      assert position[..] == b;
      if !kingAttacked {
        AddAvailable(at);
      }
    }

    /**
     * `non_empty`: the selected piece may take the piece on `at` when it is
     * an enemy and the tentative capture leaves its king unattacked; the
     * board is restored afterwards.
     */
    method NonEmpty(at: int)
      requires Valid() && 0 <= at < Cells && at != startPos
      modifies position, this`availables
      ensures Valid()
      ensures var k := Kinds(old(position[..]));
        var added := if EnemyKind(k[at], whites) && SafeMove(k, whites, kingPos, startPos, at) then [at] else [];
        availables == old(availables) + added && position[..] == Mark(old(position[..]), added)
    {
      if !EnemyKind(Kind(position[at]), whites) {
        return;
      }
      ghost var b := position[..];
      var oldState := position[at];
      position[at] := position[startPos];
      position[startPos] := 0;
      assert Kinds(position[..]) == MovedKinds(Kinds(b), startPos, at);
      var kingAttacked := IsAttacked(kingPos);
      position[startPos] := position[at];
      position[at] := oldState;
      assert position[..] == b;
      if !kingAttacked {
        AddAvailable(at);
      }
    }

    /** `next_empty`, as a ray's progress callback, over the empty cells the ray passed, in order. */
    method SlideEmpties(cells: seq<int>)
      requires Valid() && Vacant(Kinds(position[..]), cells, startPos)
      modifies position, this`availables
      ensures Valid()
      ensures var k := Kinds(old(position[..]));
        InRange(cells) &&
        var added := Legal(k, whites, kingPos, startPos, cells);
        availables == old(availables) + added && position[..] == Mark(old(position[..]), added)
      ensures Kinds(position[..]) == Kinds(old(position[..]))
    {
      var k := Kinds(position[..]);
      ghost var b, a := position[..], availables;
      for j := 0 to |cells|
        invariant Valid() && Kinds(position[..]) == k
        invariant availables == a + Legal(k, whites, kingPos, startPos, cells[..j])
        invariant position[..] == Mark(b, Legal(k, whites, kingPos, startPos, cells[..j]))
      {
        ghost var a1, p := availables, position[..];
        NextEmpty(cells[j]);
        SlideStep(k, whites, kingPos, startPos, cells, j, a, b, a1, p, availables, position[..]);
      }
      assert cells[..|cells|] == cells;
    }

    /**
     * `ray` with `next_empty` and `non_empty` as its callbacks (either can be
     * a no-op): offers the safe cells among the ray's candidates.
     */
    method SlideRay(i: int, x: int, y: int, lim: int, visitEmpty: bool, visitOccupied: bool)
      requires Valid() && OnBoard(x, y) && startPos == At(x, y) && 1 <= i <= 8
      modifies position, this`availables
      ensures Valid()
      ensures var k := Kinds(old(position[..]));
        var added := Legal(k, whites, kingPos, startPos, RayCands(k, whites, i, x, y, lim, visitEmpty, visitOccupied));
        availables == old(availables) + added && position[..] == Mark(old(position[..]), added)
      ensures Kinds(position[..]) == Kinds(old(position[..]))
    {
      var k := Kinds(position[..]);
      ghost var b, a := position[..], availables;
      var w := Ray(k, i, x, y, lim);
      RayAvoidsStart(k, i, x, y, lim);
      SlideEmpties(if visitEmpty then w.empties else []);
      ghost var a1, p := availables, position[..];
      if visitOccupied && w.blocker.Some? {
        NonEmpty(w.blocker.value);
      } else {
        NoOffer(availables, position[..]);
      }
      RayStep(k, whites, kingPos, startPos, i, x, y, lim, visitEmpty, visitOccupied, a, b, a1, p, availables, position[..]);
    }

    /** `rook`, `bishop` and `queen`: one unlimited ray per direction of `dirs`, in order. */
    method Sweep(dirs: seq<int>, x: int, y: int) returns (r: bool)
      requires Valid() && OnBoard(x, y) && startPos == At(x, y)
      requires forall j :: 0 <= j < |dirs| ==> 1 <= dirs[j] <= 8
      modifies position, this`availables
      ensures Valid()
      ensures var k := Kinds(old(position[..]));
        var added := Legal(k, whites, kingPos, startPos, SweepCands(k, whites, x, y, dirs));
        availables == old(availables) + added && position[..] == Mark(old(position[..]), added)
      ensures r == (|availables| > 0)
    {
      var k := Kinds(position[..]);
      ghost var b, a := position[..], availables;
      for j := 0 to |dirs|
        invariant Valid() && Kinds(position[..]) == k
        invariant availables == a + Legal(k, whites, kingPos, startPos, SweepCands(k, whites, x, y, dirs[..j]))
        invariant position[..] == Mark(b, Legal(k, whites, kingPos, startPos, SweepCands(k, whites, x, y, dirs[..j])))
      {
        ghost var a1, p := availables, position[..];
        SlideRay(dirs[j], x, y, -1, true, true);
        SweepStep(k, whites, kingPos, startPos, x, y, dirs, j, a, b, a1, p, availables, position[..]);
      }
      assert dirs[..|dirs|] == dirs;
      r := |availables| > 0;
    }

    /** `knight`: each knight cell on the board goes to `next_empty` when empty and to `non_empty` otherwise. */
    method Knight(x: int, y: int) returns (r: bool)
      requires Valid() && OnBoard(x, y) && startPos == At(x, y)
      modifies position, this`availables
      ensures Valid()
      ensures var k := Kinds(old(position[..]));
        var added := Legal(k, whites, kingPos, startPos, Reachable(k, whites, KnightPositions(x, y)));
        availables == old(availables) + added && position[..] == Mark(old(position[..]), added)
      ensures r == (|availables| > 0)
    {
      var k := Kinds(position[..]);
      ghost var b, a := position[..], availables;
      var knight := KnightPositions(x, y);
      KnightAvoidsStart(x, y);
      for j := 0 to 8
        invariant Valid() && Kinds(position[..]) == k
        invariant availables == a + Legal(k, whites, kingPos, startPos, Reachable(k, whites, knight[..j]))
        invariant position[..] == Mark(b, Legal(k, whites, kingPos, startPos, Reachable(k, whites, knight[..j])))
      {
        var v := knight[j];
        ghost var a1, p := availables, position[..];
        NoOffer(a1, p);
        if v >= 0 {
          if Kind(position[v]) == Void {
            NextEmpty(v);
          } else {
            NonEmpty(v);
          }
        }
        KnightStep(k, whites, kingPos, startPos, knight, j, a, b, a1, p, availables, position[..]);
      }
      assert knight[..8] == knight;
      r := |availables| > 0;
    }

    /** `pawn`: the forward ray to empty cells (two from row 6), then a capture on each forward diagonal. */
    method Pawn(x: int, y: int) returns (r: bool)
      requires Valid() && OnBoard(x, y) && startPos == At(x, y)
      modifies position, this`availables
      ensures Valid()
      ensures var k := Kinds(old(position[..]));
        var added := Legal(k, whites, kingPos, startPos, PawnCands(k, whites, x, y));
        availables == old(availables) + added && position[..] == Mark(old(position[..]), added)
      ensures r == (|availables| > 0)
    {
      var k := Kinds(position[..]);
      ghost var b, a := position[..], availables;
      SlideRay(3, x, y, if y == 6 then 2 else 1, true, false);
      ghost var a1, p1 := availables, position[..];
      SlideRay(2, x, y, 1, false, true);
      ghost var a2, p2 := availables, position[..];
      SlideRay(4, x, y, 1, false, true);
      PawnSteps(k, whites, kingPos, startPos, x, y, a, b, a1, p1, a2, p2, availables, position[..]);
      r := |availables| > 0;
    }

    /**
     * The king's ray `i` of length one: the empty cell, or the enemy piece,
     * is offered when the enemy does not attack it on the current board.
     */
    method KingRay(i: int, x: int, y: int)
      requires Valid() && OnBoard(x, y) && 1 <= i <= 8
      modifies position, this`availables
      ensures Valid()
      ensures var k := Kinds(old(position[..]));
        var added := Unattacked(k, whites, RayCands(k, whites, i, x, y, 1, true, true));
        availables == old(availables) + added && position[..] == Mark(old(position[..]), added)
      ensures Kinds(position[..]) == Kinds(old(position[..]))
    {
      var k := Kinds(position[..]);
      ghost var b, a := position[..], availables;
      var w := Ray(k, i, x, y, 1);
      for j := 0 to |w.empties|
        invariant Valid() && Kinds(position[..]) == k
        invariant availables == a + Unattacked(k, whites, w.empties[..j])
        invariant position[..] == Mark(b, Unattacked(k, whites, w.empties[..j]))
      {
        ghost var a1, p := availables, position[..];
        NoOffer(a1, p);
        var attacked := IsAttacked(w.empties[j]);
        if !attacked {
          AddAvailable(w.empties[j]);
        }
        GuardStep(k, whites, w.empties, j, a, b, a1, p, availables, position[..]);
      }
      assert w.empties[..|w.empties|] == w.empties;
      ghost var a1, p := availables, position[..];
      NoOffer(a1, p);
      if w.blocker.Some? {
        var at := w.blocker.value;
        if EnemyKind(Kind(position[at]), whites) {
          var attacked := IsAttacked(at);
          if !attacked {
            AddAvailable(at);
          }
        }
      }
      GuardRayStep(k, whites, i, x, y, a, b, a1, p, availables, position[..]);
    }

    /** `std::any_of` over the recorded moves: some move starts with `square`. */
    method AnyMoveFrom(square: string) returns (r: bool)
      requires |square| == 2
      ensures r == MovedFrom(moves, square)
    {
      for j := 0 to |moves|
        invariant forall q :: 0 <= q < j ==> !(|moves[q].notation| >= 2 && moves[q].notation[..2] == square)
      {
        var m := moves[j].notation;
        if |m| >= 2 && m[..2] == square {
          return true;
        }
      }
      return false;
    }

    /**
     * The walk of the castling loop in `king` along ray `i`: notes whether an
     * empty cell on the way is attacked, whether the piece that stops the ray
     * bars the way, and whether that rook has left its home.
     */
    method ScanCastleRay(i: int, x: int, y: int) returns (w: Walk, freeWay: bool, attackedPos: bool, rookMoved: bool)
      requires position.Length == Cells && OnBoard(x, y)
      ensures w == Ray(Kinds(position[..]), i, x, y, -1)
      ensures attackedPos == PathAttacked(Kinds(position[..]), whites, w)
      ensures (freeWay && !rookMoved) == RookMayCastle(Kinds(position[..]), moves, i, w)
    {
      var k := Kinds(position[..]);
      freeWay, attackedPos, rookMoved := true, false, false;
      w := Ray(k, i, x, y, -1);
      for j := 0 to |w.empties|
        invariant attackedPos == AnyAttacked(k, whites, w.empties[..j])
      {
        assert w.empties[..j + 1][..j] == w.empties[..j];
        var attacked := IsAttacked(w.empties[j]);
        if attacked {
          attackedPos := true;
        }
      }
      assert w.empties[..|w.empties|] == w.empties;
      if w.blocker.Some? {
        var kind := Kind(position[w.blocker.value]);
        if kind == WRook {
          rookMoved := AnyMoveFrom(if i == 1 then "a1" else "h1");
        } else if kind == BRook {
          rookMoved := AnyMoveFrom(if i == 1 then "h8" else "a8");
        } else {
          freeWay := false;
        }
      }
    }

    /**
     * One iteration of the castling loop in `king`, for ray `i`: after the
     * walk, offers the cell two along from the king when the way is free, the
     * rook has not moved and no cell on the way is attacked.
     */
    method CastleSide(i: int, x: int, y: int, pos: int)
      requires Valid() && OnBoard(x, y) && pos == At(x, y) && (i == 1 || i == 5)
      modifies position, this`availables
      ensures Valid()
      ensures var added := CastleTarget(Kinds(old(position[..])), whites, moves, i, x, y);
        availables == old(availables) + added && position[..] == Mark(old(position[..]), added)
      ensures Kinds(position[..]) == Kinds(old(position[..]))
    {
      ghost var b, k := position[..], Kinds(position[..]);
      var w, freeWay, attackedPos, rookMoved := ScanCastleRay(i, x, y);
      var t := if i == 1 then pos - 2 else pos + 2;
      CastleTargetOf(k, whites, moves, i, x, y, w, t);
      if freeWay && !rookMoved && !attackedPos && 0 <= t < Cells {
        AddAvailable(t);
        MarkKeepsKinds(b, [t]);
      } else {
        NoOffer(availables, position[..]);
      }
    }

    /** The loop over the eight one-step rays at the head of `king`. */
    method KingRays(x: int, y: int)
      requires Valid() && OnBoard(x, y)
      modifies position, this`availables
      ensures Valid()
      ensures var added := KingSteps(Kinds(old(position[..])), whites, x, y, 8);
        availables == old(availables) + added && position[..] == Mark(old(position[..]), added)
      ensures Kinds(position[..]) == Kinds(old(position[..]))
    {
      var k := Kinds(position[..]);
      ghost var b, a := position[..], availables;
      for n := 0 to 8
        invariant Valid() && Kinds(position[..]) == k
        invariant availables == a + KingSteps(k, whites, x, y, n)
        invariant position[..] == Mark(b, KingSteps(k, whites, x, y, n))
      {
        KingRayStep(n + 1, x, y, k, a, b);
      }
    }

    /** One pass of the loop in `KingRays`: ray `i`'s offers follow those of the rays before it. */
    method KingRayStep(i: int, x: int, y: int, ghost k: seq<int>, ghost a: seq<int>, ghost b: seq<Cell>)
      requires Valid() && OnBoard(x, y) && 1 <= i <= 8 && Kinds(position[..]) == k && |b| == Cells
      requires availables == a + KingSteps(k, whites, x, y, i - 1)
      requires position[..] == Mark(b, KingSteps(k, whites, x, y, i - 1))
      modifies position, this`availables
      ensures Valid() && Kinds(position[..]) == k
      ensures availables == a + KingSteps(k, whites, x, y, i)
      ensures position[..] == Mark(b, KingSteps(k, whites, x, y, i))
    {
      ghost var a1, p := availables, position[..];
      KingRay(i, x, y);
      KingStep(k, whites, x, y, i, a, b, a1, p, availables, position[..]);
    }

    /** `king`: the eight one-step rays, then the castling rays west and east while castling is enabled. */
    method King(x: int, y: int, pos: int) returns (r: bool)
      requires Valid() && OnBoard(x, y) && pos == At(x, y)
      modifies position, this`availables
      ensures Valid()
      ensures var added := KingTargets(Kinds(old(position[..])), whites, castlingEnabled, moves, x, y);
        availables == old(availables) + added && position[..] == Mark(old(position[..]), added)
      ensures r == (|availables| > 0)
    {
      ghost var b, a, k := position[..], availables, Kinds(position[..]);
      KingRays(x, y);
      ghost var a1, p1 := availables, position[..];
      if castlingEnabled {
        CastleSide(1, x, y, pos);
        ghost var a2, p2 := availables, position[..];
        CastleSide(5, x, y, pos);
        KingCastles(k, whites, moves, x, y, a, b, a1, p1, a2, p2, availables, position[..]);
      } else {
        KingStays(k, whites, moves, x, y, a, b, a1, p1);
      }
      r := |availables| > 0;
    }

    /**
     * `on_choose_begin`: runs the generator of the piece of kind `kind` on
     * (x, y) when it belongs to the side to move; the result says whether
     * any cell is offered.
     */
    method ChooseBegin(kind: int, x: int, y: int, pos: int) returns (r: bool)
      requires Valid() && OnBoard(x, y) && pos == At(x, y) && startPos == pos && kind == Kind(position[pos])
      modifies position, this`availables
      ensures Valid()
      ensures var added := Destinations(Kinds(old(position[..])), whites, kingPos, castlingEnabled, moves, x, y);
        availables == old(availables) + added && position[..] == Mark(old(position[..]), added)
      ensures r == (OwnKind(kind, whites) && |availables| > 0)
    {
      ghost var k := Kinds(position[..]);
      DestinationsCases(k, whites, kingPos, castlingEnabled, moves, x, y);
      if !OwnKind(kind, whites) {
        r := false;
        NoOffer(availables, position[..]);
      } else if kind == BKing || kind == WKing {
        r := King(x, y, pos);
      } else {
        r := PieceMoves(kind, x, y);
      }
    }

    /** The arms of `on_choose_begin`'s switch for the pieces other than the king. */
    method PieceMoves(kind: int, x: int, y: int) returns (r: bool)
      requires Valid() && OnBoard(x, y) && startPos == At(x, y) && kind == Kind(position[startPos])
      modifies position, this`availables
      ensures Valid()
      ensures var k := Kinds(old(position[..]));
        var added := Legal(k, whites, kingPos, startPos, PieceCands(k, whites, x, y));
        availables == old(availables) + added && position[..] == Mark(old(position[..]), added)
      ensures r == (|availables| > 0)
    {
      if kind == BRook || kind == WRook {
        r := Sweep(RookDirs, x, y);
      } else if kind == BKnight || kind == WKnight {
        r := Knight(x, y);
      } else if kind == BBishop || kind == WBishop {
        r := Sweep(BishopDirs, x, y);
      } else if kind == BQueen || kind == WQueen {
        r := Sweep(QueenDirs, x, y);
      } else {
        r := Pawn(x, y);
      }
    }

    /** `make_move`: the ordinary move of the piece on `from` to `where`. */
    method MakeMove(where: int, from: int) returns (choose: Choose)
      requires position.Length == Cells && 0 <= where < Cells && 0 <= from < Cells
      modifies position
      ensures position[..] == MoveBoard(old(position[..]), whites, where, from) && choose == Move
    {
      if Kind(position[where]) == Void {
        position[where], position[from] := position[from], position[where];
        position[from] := 0;
      } else if EnemyKind(Kind(position[where]), whites) {
        position[where] := position[from];
        position[from] := 0;
      }
      choose := Move;
    }

    /** `make_long_castling`. */
    method MakeLongCastling(where: int, from: int) returns (choose: Choose)
      requires position.Length == Cells && 0 <= where < Cells && 0 <= from < Cells
      requires if whites then 2 <= where < Cells - 1 else 1 <= where < Cells - 2
      modifies position
      ensures position[..] == LongCastleBoard(old(position[..]), whites, where, from) && choose == LongCastling
    {
      if whites {
        position[where - 2], position[where + 1] := position[where + 1], position[where - 2];
      } else {
        position[where + 2], position[where - 1] := position[where - 1], position[where + 2];
      }
      position[where], position[from] := position[from], position[where];
      position[from] := 0;
      choose := LongCastling;
    }

    /** `make_short_castling`. */
    method MakeShortCastling(where: int, from: int) returns (choose: Choose)
      requires position.Length == Cells && 0 <= where < Cells && 0 <= from < Cells
      requires 1 <= where < Cells - 1
      modifies position
      ensures position[..] == ShortCastleBoard(old(position[..]), whites, where, from) && choose == ShortCastling
    {
      if whites {
        position[where + 1], position[where - 1] := position[where - 1], position[where + 1];
      } else {
        position[where - 1], position[where + 1] := position[where + 1], position[where - 1];
      }
      position[where], position[from] := position[from], position[where];
      position[from] := 0;
      choose := ShortCastling;
    }

    /** `do_move`: castles when the king moves two cells sideways with castling enabled, and moves otherwise. */
    method DoMove(where: int, from: int) returns (choose: Choose)
      requires position.Length == Cells && DoMoveFits(whites, castlingEnabled, kingPos, where, from)
      modifies position
      ensures position[..] == DoMoveBoard(old(position[..]), whites, castlingEnabled, kingPos, where, from)
      ensures choose == DoMoveChoice(whites, castlingEnabled, kingPos, where, from)
    {
      if castlingEnabled && kingPos == from && Abs(where - from) == 2 {
        if whites {
          if from > where {
            choose := MakeLongCastling(where, from);
          } else {
            choose := MakeShortCastling(where, from);
          }
        } else {
          if from > where {
            choose := MakeShortCastling(where, from);
          } else {
            choose := MakeLongCastling(where, from);
          }
        }
      } else {
        choose := MakeMove(where, from);
      }
    }

    /** `write_move`: records the kind now on `where` and the move's text. */
    method WriteMove(choose: Choose, from: int, where: int)
      requires position.Length == Cells && 0 <= from < Cells && 0 <= where < Cells
      modifies this`moves
      ensures moves == old(moves) + [MoveRecord(Kind(position[where]), MoveText(choose, whites, from, where))]
    {
      match choose
      case LongCastling =>
        moves := moves + [MoveRecord(Kind(position[where]), "0-0-0")];
      case ShortCastling =>
        moves := moves + [MoveRecord(Kind(position[where]), "0-0")];
      case Move =>
        moves := moves + [MoveRecord(Kind(position[where]), Square(whites, from) + Square(whites, where))];
    }

    /** The loop at the head of `on_choose_end`: clears the available bit of every offered cell. */
    method ClearAvailables()
      requires Valid()
      modifies position
      ensures position[..] == Unmark(old(position[..]), availables)
    {
      for j := 0 to |availables|
        invariant position[..] == Unmark(old(position[..]), availables[..j])
      {
        assert availables[..j + 1][..j] == availables[..j];
        position[availables[j]] := Cleared(position[availables[j]]);
      }
      assert availables[..|availables|] == availables;
    }

    /** `on_choose_end`'s clearing of the own check mark, on the king's cell `at`. */
    method ClearOwnCheck(at: int)
      requires Valid() && 0 <= at < Cells
      modifies this`isCheck, position
      ensures !isCheck
      ensures position[..] == if old(isCheck) then Unchecked(old(position[..]), at) else old(position[..])
    {
      if isCheck {
        ghost var b := position[..];
        position[at] := position[at] & !CheckBit;
        assert position[..] == Unchecked(b, at);
        isCheck := false;
      }
    }

    /**
     * `on_choose_end`'s look at the enemy king: with the sides swapped, an
     * attack on its cell sets the enemy's check flag and adds the check bit.
     */
    method MarkEnemyCheck() returns (checked: bool)
      requires Valid()
      modifies this`whites, this`enemyChecked, position
      ensures whites == old(whites)
      ensures checked == Attacked(Kinds(old(position[..])), !whites, enemyKing)
      ensures enemyChecked == (old(enemyChecked) || checked)
      ensures position[..] == if checked then Checked(old(position[..]), enemyKing) else old(position[..])
    {
      whites := !whites;
      checked := IsAttacked(enemyKing);
      if checked {
        position[enemyKing] := position[enemyKing] + CheckBit;
        enemyChecked := true;
      }
      whites := !whites;
    }

    /**
     * `on_choose_end`: after clearing the offers, a move to an offered cell
     * is made from `startPos` and recorded; moving the king from `from`
     * updates its cell and ends castling; the own check mark is cleared;
     * the enemy king is marked when now attacked; the move's text goes to
     * the listener and the turn passes. A cell not offered changes nothing
     * but the cleared offers.
     */
    method OnChooseEnd(where: int, from: int)
      requires Valid() && 0 <= where < Cells && CastlingAtHome()
      modifies this, position
      ensures Valid() && CastlingAtHome() && position == old(position)
      ensures availables == old(availables) && chooseBegin == old(chooseBegin) && startPos == old(startPos)
      ensures lastSelected == old(lastSelected) && whites == old(whites) && enemyKing == old(enemyKing)
      ensures where !in old(availables) ==>
        && position[..] == Unmark(old(position[..]), old(availables))
        && moves == old(moves) && outbox == old(outbox) && wait == old(wait)
        && kingPos == old(kingPos) && castlingEnabled == old(castlingEnabled)
        && isCheck == old(isCheck) && enemyChecked == old(enemyChecked)
      ensures where in old(availables) ==>
        ChoseEnd(Unmark(old(position[..]), old(availables)), old(moves), old(outbox), old(wait), old(kingPos),
                 old(castlingEnabled), old(isCheck), old(enemyChecked), where, from)
    {
      ClearAvailables();
      if where !in availables {
        return;
      }
      MakeOfferedMove(where, from);
    }

    /**
     * The state `on_choose_end` leaves after moving to the offered cell
     * `where`, from board `b` with the offers cleared and the other fields
     * as given.
     */
    ghost predicate ChoseEnd(b: seq<Cell>, moves0: seq<MoveRecord>, outbox0: seq<string>, wait0: bool, kingPos0: int,
                             castling0: bool, isCheck0: bool, enemyChecked0: bool, where: int, from: int)
      requires position.Length == Cells && |b| == Cells && 0 <= where < Cells && 0 <= kingPos0 < Cells
      requires 0 <= kingPos < Cells && 0 <= enemyKing < Cells && 0 <= startPos < Cells
      requires DoMoveFits(whites, castling0, kingPos0, where, startPos)
      reads this`position, this`moves, this`outbox, this`wait, this`kingPos, this`castlingEnabled, this`isCheck
      reads this`enemyChecked, this`whites, this`enemyKing, this`startPos, position
    {
      var choice := DoMoveChoice(whites, castling0, kingPos0, where, startPos);
      var moved := DoMoveBoard(b, whites, castling0, kingPos0, where, startPos);
      var record := MoveRecord(Kind(moved[where]), MoveText(choice, whites, startPos, where));
      var checked := Attacked(Kinds(moved), !whites, enemyKing);
      var unchecked := if isCheck0 then Unchecked(moved, kingPos) else moved;
      && moves == moves0 + [record]
      && outbox == outbox0 + ["move_done:" + record.notation]
      && wait == !wait0
      && kingPos == (if kingPos0 == from then where else kingPos0)
      && castlingEnabled == (castling0 && kingPos0 != from)
      && !isCheck
      && enemyChecked == (enemyChecked0 || checked)
      && position[..] == (if checked then Checked(unchecked, enemyKing) else unchecked)
    }

    /**
     * The first part of `on_choose_end` after the offers are cleared:
     * `do_move` from `startPos`, `write_move`, and a king that moved from
     * `from` has its cell updated and castling ended.
     */
    method MoveAndRecord(where: int, from: int) returns (ghost moved: seq<Cell>)
      requires Valid() && CastlingAtHome() && where in availables
      modifies this`moves, this`kingPos, this`castlingEnabled, position
      ensures Valid()
      ensures moved == DoMoveBoard(old(position[..]), whites, old(castlingEnabled), old(kingPos), where, startPos)
      ensures position[..] == moved
      ensures moves == old(moves) + [MoveRecord(Kind(moved[where]),
                                                MoveText(DoMoveChoice(whites, old(castlingEnabled), old(kingPos), where, startPos), whites, startPos, where))]
      ensures kingPos == (if old(kingPos) == from then where else old(kingPos))
      ensures castlingEnabled == (old(castlingEnabled) && old(kingPos) != from)
    {
      var choice := DoMove(where, startPos);
      moved := position[..];
      WriteMove(choice, startPos, where);
      if kingPos == from {
        kingPos := where;
        castlingEnabled := false;
      }
    }

    /**
     * The middle part of `on_choose_end`: the own check mark on the king's
     * cell is cleared, and the enemy king is marked when now attacked.
     */
    method MarkChecks() returns (checked: bool)
      requires Valid()
      modifies this`isCheck, this`whites, this`enemyChecked, position
      ensures whites == old(whites) && !isCheck
      ensures checked == Attacked(Kinds(old(position[..])), !whites, enemyKing)
      ensures enemyChecked == (old(enemyChecked) || checked)
      ensures var unchecked := if old(isCheck) then Unchecked(old(position[..]), kingPos) else old(position[..]);
        position[..] == if checked then Checked(unchecked, enemyKing) else unchecked
    {
      ClearOwnCheck(kingPos);
      checked := MarkEnemyCheck();
    }

    /** The part of `on_choose_end` after the offers are cleared, for an offered cell `where`. */
    method MakeOfferedMove(where: int, from: int)
      requires Valid() && CastlingAtHome() && where in availables
      modifies this, position
      ensures Valid() && CastlingAtHome() && position == old(position)
      ensures availables == old(availables) && chooseBegin == old(chooseBegin) && startPos == old(startPos)
      ensures lastSelected == old(lastSelected) && whites == old(whites) && enemyKing == old(enemyKing)
      ensures ChoseEnd(old(position[..]), old(moves), old(outbox), old(wait), old(kingPos),
                       old(castlingEnabled), old(isCheck), old(enemyChecked), where, from)
    {
      ghost var moved := MoveAndRecord(where, from);
      var checked := FinishMove();
    }

    /** The end of `on_choose_end` after `write_move`: the check marks are updated and the move is announced. */
    method FinishMove() returns (checked: bool)
      requires Valid() && |moves| > 0
      modifies this`isCheck, this`whites, this`enemyChecked, this`outbox, this`wait, position
      ensures whites == old(whites) && !isCheck
      ensures checked == Attacked(Kinds(old(position[..])), !whites, enemyKing)
      ensures enemyChecked == (old(enemyChecked) || checked)
      ensures var unchecked := if old(isCheck) then Unchecked(old(position[..]), kingPos) else old(position[..]);
        position[..] == if checked then Checked(unchecked, enemyKing) else unchecked
      ensures outbox == old(outbox) + ["move_done:" + moves[|moves| - 1].notation]
      ensures wait == !old(wait)
    {
      checked := MarkChecks();
      NotifyMove();
    }

    /** The end of `on_choose_end`: the last move's text goes to the listener and the turn passes. */
    method NotifyMove()
      requires |moves| > 0
      modifies this`outbox, this`wait
      ensures outbox == old(outbox) + ["move_done:" + moves[|moves| - 1].notation]
      ensures wait == !old(wait)
    {
      outbox := outbox + ["move_done:" + moves[|moves| - 1].notation];
      wait := !wait;
    }

    /** `on_select_cell`'s clearing of the selection bit of the cell last selected. */
    method Deselect()
      requires Valid()
      modifies position
      ensures position[..] == Unselected(old(position[..]), lastSelected)
    {
      var at := lastSelected;
      ghost var b := position[..];
      position[at] := position[at] & !SelectedBit;
      assert position[..] == Unselected(b, at);
    }

    /**
     * The branch of `on_select_cell` taken while cells are offered:
     * `on_choose_end` on cell `c` from `startPos`, then the offers are
     * withdrawn and nothing is selected.
     */
    method EndChoice(c: int)
      requires Valid() && 0 <= c < Cells && CastlingAtHome()
      modifies this, position
      ensures Valid() && CastlingAtHome() && position == old(position)
      ensures !chooseBegin && lastSelected == 0 && availables == []
      ensures whites == old(whites) && startPos == old(startPos) && enemyKing == old(enemyKing)
      ensures c !in old(availables) ==>
        && position[..] == Unmark(old(position[..]), old(availables))
        && moves == old(moves) && outbox == old(outbox) && wait == old(wait)
        && kingPos == old(kingPos) && castlingEnabled == old(castlingEnabled)
        && isCheck == old(isCheck) && enemyChecked == old(enemyChecked)
      ensures c in old(availables) ==>
        ChoseEnd(Unmark(old(position[..]), old(availables)), old(moves), old(outbox), old(wait), old(kingPos),
                 old(castlingEnabled), old(isCheck), old(enemyChecked), c, old(startPos))
    {
      OnChooseEnd(c, startPos);
      chooseBegin := false;
      lastSelected := 0;
      availables := [];
    }

    /**
     * The branch of `on_select_cell` taken when no cells are offered: cell
     * `c` at (x, y) becomes the start cell, `on_choose_begin` offers its
     * piece's destinations, and the cell is marked selected.
     */
    method BeginChoice(x: int, y: int, c: int)
      requires Valid() && OnBoard(x, y) && c == At(x, y)
      modifies this`startPos, this`chooseBegin, this`lastSelected, this`availables, position
      ensures Valid() && startPos == c && lastSelected == c
      ensures var added := Destinations(Kinds(old(position[..])), whites, kingPos, castlingEnabled, moves, x, y);
        && availables == old(availables) + added
        && position[..] == Selected(Mark(old(position[..]), added), c)
        && chooseBegin == (OwnKind(Kinds(old(position[..]))[c], whites) && |availables| > 0)
    {
      startPos := c;
      chooseBegin := ChooseBegin(Kind(position[c]), x, y, c);
      ghost var marked := position[..];
      position[c] := position[c] + SelectedBit;
      assert position[..] == Selected(marked, c);
      lastSelected := c;
    }

    /**
     * `on_select_cell`: ignored while waiting for the opponent. Otherwise the
     * selection mark is cleared; a click while cells are offered ends the
     * choice (moving when the cell is offered) and withdraws the offers; any
     * other click selects the cell and offers its piece's destinations.
     */
    method OnSelectCell(x: int, y: int)
      requires Valid() && OnBoard(x, y) && CastlingAtHome()
      modifies this, position
      ensures Valid() && CastlingAtHome() && position == old(position)
      ensures old(wait) ==> unchanged(this) && unchanged(position)
      ensures !old(wait) && old(chooseBegin) ==>
        var c := At(x, y);
        var b := Unmark(Unselected(old(position[..]), old(lastSelected)), old(availables));
        && !chooseBegin && lastSelected == 0 && availables == []
        && whites == old(whites) && startPos == old(startPos) && enemyKing == old(enemyKing)
        && (c !in old(availables) ==>
              && position[..] == b
              && moves == old(moves) && outbox == old(outbox) && wait == old(wait)
              && kingPos == old(kingPos) && castlingEnabled == old(castlingEnabled)
              && isCheck == old(isCheck) && enemyChecked == old(enemyChecked))
        && (c in old(availables) ==>
              ChoseEnd(b, old(moves), old(outbox), old(wait), old(kingPos), old(castlingEnabled),
                       old(isCheck), old(enemyChecked), c, old(startPos)))
      ensures !old(wait) && !old(chooseBegin) ==>
        var c := At(x, y);
        var added := Destinations(Kinds(old(position[..])), whites, kingPos, castlingEnabled, moves, x, y);
        && startPos == c && lastSelected == c
        && availables == old(availables) + added
        && position[..] == Selected(Mark(Unselected(old(position[..]), old(lastSelected)), added), c)
        && chooseBegin == (OwnKind(Kinds(old(position[..]))[c], whites) && |availables| > 0)
        && whites == old(whites) && wait == old(wait) && moves == old(moves) && outbox == old(outbox)
        && kingPos == old(kingPos) && enemyKing == old(enemyKing) && castlingEnabled == old(castlingEnabled)
        && isCheck == old(isCheck) && enemyChecked == old(enemyChecked)
    {
      if wait {
        return;
      }
      Deselect();
      var chosen := At(x, y);
      AtCoordinates(x, y);
      if chooseBegin {
        EndChoice(chosen);
      } else {
        BeginChoice(x, y, chosen);
      }
    }

    /**
     * The state `opponent_move` leaves after applying the received `move` to
     * board `b`, with the enemy king on `enemyKing0`, the recorded moves,
     * turn and enemy check flag before the move as given.
     */
    ghost predicate OpponentMoved(b: seq<Cell>, moves0: seq<MoveRecord>, wait0: bool, enemyKing0: int,
                                  enemyChecked0: bool, move: string)
      requires position.Length == Cells && |b| == Cells && 0 <= kingPos < Cells && 0 <= enemyKing < Cells
      requires 0 <= enemyKing0 < Cells && RemoteFits(whites, castlingEnabled, kingPos, move)
      reads this`position, this`moves, this`wait, this`kingPos, this`castlingEnabled, this`isCheck
      reads this`enemyChecked, this`whites, this`enemyKing, position
    {
      var from, where := RemoteFrom(whites, move), RemoteWhere(whites, move);
      var moved := RemoteBoard(b, whites, castlingEnabled, kingPos, enemyKing0, move);
      var uncheckedEnemy := if enemyChecked0 then Unchecked(moved, enemyKing) else moved;
      && enemyKing == (if IsCastleToken(move) || from == enemyKing0 then where else enemyKing0)
      && moves == moves0 + [MoveRecord(Kind(moved[where]), move)]
      && !enemyChecked
      && isCheck == Attacked(Kinds(moved), whites, kingPos)
      && position[..] == (if isCheck then Checked(uncheckedEnemy, kingPos) else uncheckedEnemy)
      && wait == !wait0
    }

    /**
     * `opponent_move`: applies a move received from the peer. A castling
     * token castles the enemy king; any other move is decoded from its four
     * characters and made for the enemy's colour, following the enemy king
     * when it moves. Then the enemy's check mark is cleared, the move is
     * recorded, the own king is checked and marked, and the turn passes. A
     * move whose cells would fall outside the board is refused with no change.
     */
    method OpponentMove(move: string) returns (ok: bool)
      requires Valid() && CastlingAtHome()
      modifies this, position
      ensures Valid() && CastlingAtHome() && position == old(position)
      ensures ok == RemoteFits(old(whites), old(castlingEnabled), old(kingPos), move)
      ensures !ok ==> unchanged(this) && unchanged(position)
      ensures whites == old(whites) && kingPos == old(kingPos) && castlingEnabled == old(castlingEnabled)
      ensures availables == old(availables) && chooseBegin == old(chooseBegin) && outbox == old(outbox)
      ensures startPos == old(startPos) && lastSelected == old(lastSelected)
      ensures ok ==> OpponentMoved(old(position[..]), old(moves), old(wait), old(enemyKing), old(enemyChecked), move)
    {
      ok := RemoteFits(whites, castlingEnabled, kingPos, move);
      if ok {
        ApplyRemote(move);
      }
    }

    /** `opponent_move` on a move the receiving side can apply. */
    method ApplyRemote(move: string)
      requires Valid() && CastlingAtHome() && RemoteFits(whites, castlingEnabled, kingPos, move)
      modifies this`kingPos, this`castlingEnabled, this`whites, this`enemyKing, this`enemyChecked, this`moves
      modifies this`isCheck, this`wait, position
      ensures Valid() && whites == old(whites) && kingPos == old(kingPos) && castlingEnabled == old(castlingEnabled)
      ensures OpponentMoved(old(position[..]), old(moves), old(wait), old(enemyKing), old(enemyChecked), move)
    {
      var where := RemoteDoMove(move);
      MarkRemote(where, move);
      wait := !wait;
    }

    /**
     * The middle part of `opponent_move`: the enemy's check mark is cleared,
     * the received text is recorded with the kind on `where`, and the own
     * king is checked and marked.
     */
    method MarkRemote(where: int, move: string)
      requires Valid() && 0 <= where < Cells
      modifies this`enemyChecked, this`moves, this`isCheck, position
      ensures !enemyChecked
      ensures moves == old(moves) + [MoveRecord(Kind(old(position[..])[where]), move)]
      ensures var uncheckedEnemy := if old(enemyChecked) then Unchecked(old(position[..]), enemyKing) else old(position[..]);
        && isCheck == Attacked(Kinds(old(position[..])), whites, kingPos)
        && position[..] == if isCheck then Checked(uncheckedEnemy, kingPos) else uncheckedEnemy
    {
      ClearEnemyCheck();
      RecordMove(where, move);
      CheckOwnKing();
    }

    /**
     * The first part of `opponent_move`: a castling token runs `do_move` on
     * the enemy king with castling forced on and moves the enemy king; any
     * other move runs `do_move` for the enemy's colour, and the enemy king
     * follows when it is the piece moved. Returns the destination.
     */
    method RemoteDoMove(move: string) returns (where: int)
      requires Valid() && RemoteFits(whites, castlingEnabled, kingPos, move)
      modifies this`kingPos, this`castlingEnabled, this`whites, this`enemyKing, position
      ensures Valid() && kingPos == old(kingPos) && castlingEnabled == old(castlingEnabled) && whites == old(whites)
      ensures where == RemoteWhere(whites, move)
      ensures position[..] == RemoteBoard(old(position[..]), whites, castlingEnabled, kingPos, old(enemyKing), move)
      ensures enemyKing == (if IsCastleToken(move) || RemoteFrom(whites, move) == old(enemyKing) then where else old(enemyKing))
    {
      if move == "0-0" || move == "0-0-0" {
        where := RemoteCastle(move);
      } else {
        var from := SquareIndex(whites, move[0], move[1]);
        where := SquareIndex(whites, move[2], move[3]);
        whites := !whites;
        var choice := DoMove(where, from);
        whites := !whites;
        if from == enemyKing {
          enemyKing := where;
        }
      }
    }

    /** The castling arm of `opponent_move`: the own king and castling flag are set aside while the enemy king castles. */
    method RemoteCastle(move: string) returns (where: int)
      requires Valid() && IsCastleToken(move)
      modifies this`kingPos, this`castlingEnabled, this`enemyKing, position
      ensures Valid() && kingPos == old(kingPos) && castlingEnabled == old(castlingEnabled)
      ensures where == RemoteWhere(whites, move) && enemyKing == where
      ensures position[..] == DoMoveBoard(old(position[..]), whites, true, old(enemyKing), where, RemoteFrom(whites, move))
    {
      var from := 0;
      if move == "0-0" {
        if whites { from, where := 4, 6; } else { from, where := 3, 1; }
      } else {
        if whites { from, where := 4, 2; } else { from, where := 3, 5; }
      }
      var oldCastling, oldKingPos := castlingEnabled, kingPos;
      kingPos := enemyKing;
      castlingEnabled := true;
      var choice := DoMove(where, from);
      enemyKing, castlingEnabled, kingPos := where, oldCastling, oldKingPos;
    }

    /** `opponent_move`'s clearing of the enemy's check flag and of the check bit on the enemy king's cell. */
    method ClearEnemyCheck()
      requires Valid()
      modifies this`enemyChecked, position
      ensures !enemyChecked
      ensures position[..] == if old(enemyChecked) then Unchecked(old(position[..]), enemyKing) else old(position[..])
    {
      if enemyChecked {
        var at := enemyKing;
        ghost var b := position[..];
        position[at] := position[at] & !CheckBit;
        assert position[..] == Unchecked(b, at);
        enemyChecked := false;
      }
    }

    /** `opponent_move`'s record of the received text with the kind now on `where`. */
    method RecordMove(where: int, move: string)
      requires position.Length == Cells && 0 <= where < Cells
      modifies this`moves
      ensures moves == old(moves) + [MoveRecord(Kind(position[where]), move)]
    {
      moves := moves + [MoveRecord(Kind(position[where]), move)];
    }

    /** `opponent_move`'s look at the own king: an attack on its cell sets the check flag and adds the check bit. */
    method CheckOwnKing()
      requires Valid()
      modifies this`isCheck, position
      ensures isCheck == Attacked(Kinds(old(position[..])), whites, kingPos)
      ensures position[..] == if isCheck then Checked(old(position[..]), kingPos) else old(position[..])
    {
      var attacked := IsAttacked(kingPos);
      if attacked {
        var at := kingPos;
        ghost var b := position[..];
        position[at] := position[at] + CheckBit;
        assert position[..] == Checked(b, at);
      }
      isCheck := attacked;
    }
  }
}
