/**
 * Move generation, stated on piece kinds. For every piece but the king the
 * engine proposes candidate cells (the empty cells its rays, jumps or pawn
 * steps reach, and the enemy pieces they stop at) and keeps those whose
 * tentative move leaves its own king unattacked (`Legal`). The king keeps the
 * neighbouring cells the enemy does not attack on the current board, plus the
 * castling destinations. `Destinations` is the list the engine's generators
 * append to `availables`, in the order they append it; `Mark` and `Unmark` are
 * what appending and clearing do to the available bits of the cells.
 */
module Generate {
  import opened Board
  import opened Attack
  import opened Seqs

  /** Every entry is a cell index. */
  predicate InRange(cells: seq<int>) {
    forall j :: 0 <= j < |cells| ==> 0 <= cells[j] < Cells
  }

  /** No cell occurs twice. */
  predicate Distinct(cells: seq<int>) {
    forall p, q :: 0 <= p < q < |cells| ==> cells[p] != cells[q]
  }

  /** Without its last cell a list of distinct cells stays distinct, and does not hold that cell. */
  lemma DistinctSnoc(cells: seq<int>)
    requires cells != [] && Distinct(cells)
    ensures Distinct(cells[..|cells| - 1]) && cells[|cells| - 1] !in cells[..|cells| - 1]
  {
    var init := cells[..|cells| - 1];
    forall p | 0 <= p < |init|
      ensures init[p] != cells[|cells| - 1]
    {
      assert init[p] == cells[p];
    }
  }

  /** A piece of side `whites` may go to `c`: it is empty or holds an enemy piece. */
  predicate Capturable(k: seq<int>, whites: bool, c: int)
    requires |k| == Cells && 0 <= c < Cells
  {
    k[c] == Void || EnemyKind(k[c], whites)
  }

  /** Every entry is a cell that is empty or holds an enemy piece. */
  predicate Targets(k: seq<int>, whites: bool, cells: seq<int>)
    requires |k| == Cells
  {
    forall j :: 0 <= j < |cells| ==> 0 <= cells[j] < Cells && Capturable(k, whites, cells[j])
  }

  /** The kinds of side `whites` itself. */
  predicate OwnKind(kind: int, whites: bool) {
    EnemyKind(kind, !whites)
  }

  /** The kinds after the piece on `from` moves to `at`, removing whatever stood there. */
  function MovedKinds(k: seq<int>, from: int, at: int): (m: seq<int>)
    requires |k| == Cells && 0 <= from < Cells && 0 <= at < Cells
    ensures |m| == Cells
  {
    k[at := k[from]][from := Void]
  }

  /** Moving the piece on `from` to `at` leaves the king of side `whites` on `kingPos` unattacked. */
  predicate SafeMove(k: seq<int>, whites: bool, kingPos: int, from: int, at: int)
    requires |k| == Cells && 0 <= kingPos < Cells && 0 <= from < Cells && 0 <= at < Cells
  {
    !Attacked(MovedKinds(k, from, at), whites, kingPos)
  }

  /** The candidates whose tentative move is safe, in their order. */
  function Legal(k: seq<int>, whites: bool, kingPos: int, from: int, cands: seq<int>): (r: seq<int>)
    requires |k| == Cells && 0 <= kingPos < Cells && 0 <= from < Cells && InRange(cands)
    ensures InRange(r) && |r| <= |cands|
  {
    if cands == [] then []
    else
      var last := cands[|cands| - 1];
      Legal(k, whites, kingPos, from, cands[..|cands| - 1])
        + (if SafeMove(k, whites, kingPos, from, last) then [last] else [])
  }

  lemma {:induction false} LegalIff(k: seq<int>, whites: bool, kingPos: int, from: int, cands: seq<int>, c: int)
    requires |k| == Cells && 0 <= kingPos < Cells && 0 <= from < Cells && InRange(cands)
    ensures c in Legal(k, whites, kingPos, from, cands) <==> c in cands && SafeMove(k, whites, kingPos, from, c)
  {
    if cands != [] {
      LegalIff(k, whites, kingPos, from, cands[..|cands| - 1], c);
      InSnoc(cands, c);
    }
  }

  /** Filtering one more candidate appends it when its move is safe. */
  lemma LegalSnoc(k: seq<int>, whites: bool, kingPos: int, from: int, cands: seq<int>, c: int)
    requires |k| == Cells && 0 <= kingPos < Cells && 0 <= from < Cells && InRange(cands) && 0 <= c < Cells
    ensures Legal(k, whites, kingPos, from, cands + [c])
      == Legal(k, whites, kingPos, from, cands) + (if SafeMove(k, whites, kingPos, from, c) then [c] else [])
  {
    assert (cands + [c])[..|cands|] == cands;
  }

  /** Filtering a concatenation filters each part. */
  lemma {:induction false} LegalAppend(k: seq<int>, whites: bool, kingPos: int, from: int, a: seq<int>, b: seq<int>)
    requires |k| == Cells && 0 <= kingPos < Cells && 0 <= from < Cells && InRange(a) && InRange(b)
    ensures Legal(k, whites, kingPos, from, a + b) == Legal(k, whites, kingPos, from, a) + Legal(k, whites, kingPos, from, b)
  {
    if b != [] {
      var init := b[..|b| - 1];
      var last := b[|b| - 1];
      var tail := if SafeMove(k, whites, kingPos, from, last) then [last] else [];
      LegalAppend(k, whites, kingPos, from, a, init);
      SnocSplit(a, b);
      assert Legal(k, whites, kingPos, from, a + b) == Legal(k, whites, kingPos, from, a + init) + tail;
      AppendAssoc(Legal(k, whites, kingPos, from, a), Legal(k, whites, kingPos, from, init), tail);
    } else {
      AppendEmpty(a);
      AppendEmpty(Legal(k, whites, kingPos, from, a));
    }
  }

  /** The board after the available bit is added, with wrap-around, to each cell of `cells` in turn. */
  function Mark(b: seq<Cell>, cells: seq<int>): (r: seq<Cell>)
    requires |b| == Cells && InRange(cells)
    ensures |r| == Cells
  {
    if cells == [] then b
    else
      var m := Mark(b, cells[..|cells| - 1]);
      var c := cells[|cells| - 1];
      m[c := m[c] + AvailableBit]
  }

  /** The board after the available bit is cleared in each cell of `cells`. */
  function Unmark(b: seq<Cell>, cells: seq<int>): (r: seq<Cell>)
    requires |b| == Cells && InRange(cells)
    ensures |r| == Cells
  {
    if cells == [] then b
    else
      var m := Unmark(b, cells[..|cells| - 1]);
      var c := cells[|cells| - 1];
      m[c := Cleared(m[c])]
  }

  /** A cell with its available bit cleared. */
  function Cleared(v: Cell): Cell {
    v & !AvailableBit
  }

  lemma {:induction false} MarkAppend(b: seq<Cell>, x: seq<int>, y: seq<int>)
    requires |b| == Cells && InRange(x) && InRange(y)
    ensures Mark(b, x + y) == Mark(Mark(b, x), y)
  {
    if y != [] {
      MarkAppend(b, x, y[..|y| - 1]);
      SnocSplit(x, y);
    } else {
      AppendEmpty(x);
    }
  }

  /** Marking cells never changes the piece on any cell. */
  lemma {:induction false} MarkKeepsKinds(b: seq<Cell>, cells: seq<int>)
    requires |b| == Cells && InRange(cells)
    ensures Kinds(Mark(b, cells)) == Kinds(b)
  {
    if cells != [] {
      var m := Mark(b, cells[..|cells| - 1]);
      var c := cells[|cells| - 1];
      MarkKeepsKinds(b, cells[..|cells| - 1]);
      FlagsKeepKind(m[c]);
      assert Kinds(Mark(b, cells)) == Kinds(m);
    }
  }

  /** Each listed cell, listed once, gains the available bit; every other cell is untouched. */
  lemma {:induction false} MarkAt(b: seq<Cell>, cells: seq<int>, c: int)
    requires |b| == Cells && InRange(cells) && Distinct(cells) && 0 <= c < Cells
    ensures Mark(b, cells)[c] == if c in cells then b[c] + AvailableBit else b[c]
  {
    if cells != [] {
      var init := cells[..|cells| - 1];
      DistinctSnoc(cells);
      MarkAt(b, init, c);
      InSnoc(cells, c);
    }
  }

  /** Clearing marks leaves the unlisted cells untouched. */
  lemma {:induction false} UnmarkOutside(b: seq<Cell>, cells: seq<int>, c: int)
    requires |b| == Cells && InRange(cells) && 0 <= c < Cells && c !in cells
    ensures Unmark(b, cells)[c] == b[c]
  {
    if cells != [] {
      var init := cells[..|cells| - 1];
      assert cells == init + [cells[|cells| - 1]];
      UnmarkOutside(b, init, c);
    }
  }

  /** Clearing marks leaves each listed cell without the available bit and otherwise as it was. */
  lemma {:induction false} UnmarkInside(b: seq<Cell>, cells: seq<int>, c: int)
    requires |b| == Cells && InRange(cells) && 0 <= c < Cells && c in cells
    ensures Unmark(b, cells)[c] == Cleared(b[c])
  {
    var init := cells[..|cells| - 1];
    var last := cells[|cells| - 1];
    var m := Unmark(b, init);
    assert cells == init + [last];
    assert Unmark(b, cells) == m[last := Cleared(m[last])];
    if c == last {
      if c in init {
        UnmarkInside(b, init, c);
        ClearTwice(b[c]);
      } else {
        UnmarkOutside(b, init, c);
      }
    } else {
      UnmarkInside(b, init, c);
    }
  }

  lemma ClearTwice(v: Cell)
    ensures Cleared(Cleared(v)) == Cleared(v)
  {
  }

  lemma ClearUndoesAdd(v: Cell)
    requires v & AvailableBit == 0
    ensures Cleared(v + AvailableBit) == v
  {
  }

  /** Clearing the marks of distinct cells that had no mark restores the board. */
  lemma MarkThenUnmark(b: seq<Cell>, cells: seq<int>)
    requires |b| == Cells && InRange(cells) && Distinct(cells)
    requires forall c :: c in cells ==> b[c] & AvailableBit == 0
    ensures Unmark(Mark(b, cells), cells) == b
  {
    var m := Mark(b, cells);
    forall c | 0 <= c < Cells
      ensures Unmark(m, cells)[c] == b[c]
    {
      MarkAt(b, cells, c);
      if c in cells {
        UnmarkInside(m, cells, c);
        ClearUndoesAdd(b[c]);
      } else {
        UnmarkOutside(m, cells, c);
      }
    }
  }

  /** The enemy piece a walk stopped at, if it stopped at one. */
  function Blocked(k: seq<int>, whites: bool, w: Walk): (r: seq<int>)
    requires |k| == Cells && (w.blocker.Some? ==> 0 <= w.blocker.value < Cells)
  {
    if w.blocker.Some? && EnemyKind(k[w.blocker.value], whites) then [w.blocker.value] else []
  }

  /**
   * The cells a ray reports to the generator's callbacks: the empty cells when
   * the empty-cell callback is not a no-op, then the enemy piece that stopped
   * it when the occupied-cell callback is not a no-op.
   */
  function RayCands(k: seq<int>, whites: bool, i: int, x: int, y: int, lim: int, visitEmpty: bool, visitOccupied: bool): (r: seq<int>)
    requires |k| == Cells && OnBoard(x, y)
    ensures InRange(r) && Targets(k, whites, r)
  {
    var w := Ray(k, i, x, y, lim);
    var r := (if visitEmpty then w.empties else []) + (if visitOccupied then Blocked(k, whites, w) else []);
    if 1 <= i <= 8 then (RayVisitsInOrder(k, i, x, y, lim); r) else r
  }

  /** Both callbacks report exactly the empty or enemy cells in line of sight within the limit. */
  lemma RayCandsIff(k: seq<int>, whites: bool, i: int, x: int, y: int, lim: int, c: int)
    requires |k| == Cells && OnBoard(x, y) && 1 <= i <= 8
    ensures c in RayCands(k, whites, i, x, y, lim, true, true) <==>
      exists n :: 1 <= n && (lim < 0 || n <= lim) && LineOfSight(k, x, y, i, n)
        && c == At(Along(x, Dx(i), n), Along(y, Dy(i), n)) && Capturable(k, whites, c)
  {
    RayEmptyIff(k, i, x, y, lim, c);
    RayBlockerIff(k, i, x, y, lim, c);
  }

  // The rays each sliding piece sends, in the order the source sends them.
  const RookDirs: seq<int> := [1, 3, 5, 7]
  const BishopDirs: seq<int> := [2, 4, 6, 8]
  const QueenDirs: seq<int> := [1, 2, 3, 4, 5, 6, 7, 8]

  /** The candidates of unlimited rays in the directions `dirs`, one ray after the other. */
  function SweepCands(k: seq<int>, whites: bool, x: int, y: int, dirs: seq<int>): (r: seq<int>)
    requires |k| == Cells && OnBoard(x, y)
    ensures InRange(r) && Targets(k, whites, r)
  {
    if dirs == [] then []
    else SweepCands(k, whites, x, y, dirs[..|dirs| - 1]) + RayCands(k, whites, dirs[|dirs| - 1], x, y, -1, true, true)
  }

  /** Some list among `lists` holds `c`. */
  ghost predicate InSome(lists: seq<seq<int>>, c: int) {
    exists j :: 0 <= j < |lists| && c in lists[j]
  }

  lemma InSomeSnoc(lists: seq<seq<int>>, c: int)
    requires lists != []
    ensures InSome(lists, c) <==> InSome(lists[..|lists| - 1], c) || c in lists[|lists| - 1]
  {
    var init := lists[..|lists| - 1];
    if InSome(init, c) {
      var j :| 0 <= j < |init| && c in init[j];
      assert lists[j] == init[j];
    }
    if InSome(lists, c) {
      var j :| 0 <= j < |lists| && c in lists[j];
      if j < |init| {
        assert lists[j] == init[j];
      }
    }
  }

  /** The candidates of each ray in the directions `dirs`. */
  function Rays(k: seq<int>, whites: bool, x: int, y: int, dirs: seq<int>): (r: seq<seq<int>>)
    requires |k| == Cells && OnBoard(x, y)
    ensures |r| == |dirs|
    ensures forall j :: 0 <= j < |dirs| ==> r[j] == RayCands(k, whites, dirs[j], x, y, -1, true, true)
  {
    seq(|dirs|, j requires 0 <= j < |dirs| => RayCands(k, whites, dirs[j], x, y, -1, true, true))
  }

  /** The sweep reports exactly the cells some ray among its directions reports. */
  lemma {:induction false} SweepCandsIff(k: seq<int>, whites: bool, x: int, y: int, dirs: seq<int>, c: int)
    requires |k| == Cells && OnBoard(x, y)
    ensures c in SweepCands(k, whites, x, y, dirs) <==> InSome(Rays(k, whites, x, y, dirs), c)
  {
    if dirs != [] {
      var init := dirs[..|dirs| - 1];
      SweepCandsIff(k, whites, x, y, init, c);
      var rs := Rays(k, whites, x, y, dirs);
      InSomeSnoc(rs, c);
      assert rs[..|rs| - 1] == Rays(k, whites, x, y, init);
    } else {
      assert Rays(k, whites, x, y, dirs) == [];
    }
  }

  /**
   * A rook, bishop or queen on (x, y) may go exactly to the empty or enemy
   * cells in line of sight along its directions whose move keeps its king safe.
   */
  lemma SlidingMovesExact(k: seq<int>, whites: bool, kingPos: int, x: int, y: int, dirs: seq<int>, c: int)
    requires |k| == Cells && 0 <= kingPos < Cells && OnBoard(x, y)
    requires forall j :: 0 <= j < |dirs| ==> 1 <= dirs[j] <= 8
    ensures c in Legal(k, whites, kingPos, At(x, y), SweepCands(k, whites, x, y, dirs)) <==>
      && 0 <= c < Cells
      && (exists j, n :: 0 <= j < |dirs| && 1 <= n && LineOfSight(k, x, y, dirs[j], n)
            && c == At(Along(x, Dx(dirs[j]), n), Along(y, Dy(dirs[j]), n)) && Capturable(k, whites, c))
      && SafeMove(k, whites, kingPos, At(x, y), c)
  {
    var cands := SweepCands(k, whites, x, y, dirs);
    LegalIff(k, whites, kingPos, At(x, y), cands, c);
    SweepCandsIff(k, whites, x, y, dirs, c);
    if c in cands {
      var j :| 0 <= j < |dirs| && c in Rays(k, whites, x, y, dirs)[j];
      RayCandsIff(k, whites, dirs[j], x, y, -1, c);
    }
    if exists j, n :: 0 <= j < |dirs| && 1 <= n && LineOfSight(k, x, y, dirs[j], n)
        && c == At(Along(x, Dx(dirs[j]), n), Along(y, Dy(dirs[j]), n)) && 0 <= c < Cells && Capturable(k, whites, c) {
      var j, n :| 0 <= j < |dirs| && 1 <= n && LineOfSight(k, x, y, dirs[j], n)
        && c == At(Along(x, Dx(dirs[j]), n), Along(y, Dy(dirs[j]), n)) && 0 <= c < Cells && Capturable(k, whites, c);
      RayCandsIff(k, whites, dirs[j], x, y, -1, c);
      assert c in Rays(k, whites, x, y, dirs)[j];
    }
  }

  /** The knight's cells, in order, that are on the board and empty or enemy. */
  function Reachable(k: seq<int>, whites: bool, cells: seq<int>): (r: seq<int>)
    requires |k| == Cells && forall j :: 0 <= j < |cells| ==> -1 <= cells[j] < Cells
    ensures InRange(r) && Targets(k, whites, r)
  {
    if cells == [] then []
    else
      var last := cells[|cells| - 1];
      Reachable(k, whites, cells[..|cells| - 1])
        + (if last >= 0 && Capturable(k, whites, last) then [last] else [])
  }

  lemma {:induction false} ReachableIff(k: seq<int>, whites: bool, cells: seq<int>, c: int)
    requires |k| == Cells && forall j :: 0 <= j < |cells| ==> -1 <= cells[j] < Cells
    ensures c in Reachable(k, whites, cells) <==> c in cells && c >= 0 && Capturable(k, whites, c)
  {
    if cells != [] {
      var init := cells[..|cells| - 1];
      ReachableIff(k, whites, init, c);
      assert cells == init + [cells[|cells| - 1]];
    }
  }

  /** A knight on (x, y) is offered exactly the empty or enemy cells one knight jump away. */
  lemma KnightCandsExact(k: seq<int>, whites: bool, x: int, y: int, c: int)
    requires |k| == Cells && OnBoard(x, y)
    ensures c in Reachable(k, whites, KnightPositions(x, y)) <==>
      exists j :: 0 <= j < 8 && OnBoard(x + KnightDx[j], y + KnightDy[j])
        && c == At(x + KnightDx[j], y + KnightDy[j]) && Capturable(k, whites, c)
  {
    var kp := KnightPositions(x, y);
    ReachableIff(k, whites, kp, c);
    if c in kp {
      var j :| 0 <= j < 8 && kp[j] == c;
    }
    if exists j :: 0 <= j < 8 && OnBoard(x + KnightDx[j], y + KnightDy[j])
        && c == At(x + KnightDx[j], y + KnightDy[j]) && Capturable(k, whites, c) {
      var j :| 0 <= j < 8 && OnBoard(x + KnightDx[j], y + KnightDy[j])
        && c == At(x + KnightDx[j], y + KnightDy[j]) && Capturable(k, whites, c);
      assert kp[j] == c;
    }
  }

  /**
   * A pawn's candidates: up to two empty cells straight ahead (two only from
   * row 6), then an enemy piece on each forward diagonal.
   */
  function PawnCands(k: seq<int>, whites: bool, x: int, y: int): (r: seq<int>)
    requires |k| == Cells && OnBoard(x, y)
    ensures InRange(r) && Targets(k, whites, r)
  {
    var ahead := RayCands(k, whites, 3, x, y, if y == 6 then 2 else 1, true, false);
    var west := RayCands(k, whites, 2, x, y, 1, false, true);
    var east := RayCands(k, whites, 4, x, y, 1, false, true);
    TargetsAppend(k, whites, ahead, west);
    TargetsAppend(k, whites, ahead + west, east);
    ahead + west + east
  }

  lemma TargetsAppend(k: seq<int>, whites: bool, a: seq<int>, b: seq<int>)
    requires |k| == Cells && Targets(k, whites, a) && Targets(k, whites, b)
    ensures InRange(a + b) && Targets(k, whites, a + b)
  {
  }

  /** A pawn's forward ray offers the cell ahead when empty, and from row 6 the one beyond when both are empty. */
  lemma PawnAheadIff(k: seq<int>, whites: bool, x: int, y: int, c: int)
    requires |k| == Cells && OnBoard(x, y)
    ensures c in RayCands(k, whites, 3, x, y, if y == 6 then 2 else 1, true, false) <==>
      || (y >= 1 && c == At(x, y - 1) && k[c] == Void)
      || (y == 6 && c == At(x, 4) && k[At(x, 5)] == Void && k[c] == Void)
  {
    var lim := if y == 6 then 2 else 1;
    assert RayCands(k, whites, 3, x, y, lim, true, false) == Ray(k, 3, x, y, lim).empties;
    RayEmptyIff(k, 3, x, y, lim, c);
    assert LineOfSight(k, x, y, 3, 1) <==> y >= 1;
    if y == 6 {
      assert LineOfSight(k, x, y, 3, 2) <==> k[At(x, 5)] == Void;
    }
  }

  /** A capture ray of one step offers the neighbouring cell exactly when it holds an enemy piece. */
  lemma PawnCaptureIff(k: seq<int>, whites: bool, i: int, x: int, y: int, c: int)
    requires |k| == Cells && OnBoard(x, y) && 1 <= i <= 8
    ensures c in RayCands(k, whites, i, x, y, 1, false, true) <==>
      OnBoard(x + Dx(i), y + Dy(i)) && c == At(x + Dx(i), y + Dy(i)) && EnemyKind(k[c], whites)
  {
    var w := Ray(k, i, x, y, 1);
    assert RayCands(k, whites, i, x, y, 1, false, true) == Blocked(k, whites, w);
    RayBlockerIff(k, i, x, y, 1, c);
    assert Along(x, Dx(i), 1) == x + Dx(i) && Along(y, Dy(i), 1) == y + Dy(i);
    assert LineOfSight(k, x, y, i, 1) <==> OnBoard(x + Dx(i), y + Dy(i));
  }

  /** A pawn steps forward onto empty cells (two from row 6 over an empty cell) and captures forward diagonally. */
  lemma PawnCandsExact(k: seq<int>, whites: bool, x: int, y: int, c: int)
    requires |k| == Cells && OnBoard(x, y)
    ensures c in PawnCands(k, whites, x, y) <==>
      || (y >= 1 && c == At(x, y - 1) && k[c] == Void)
      || (y == 6 && c == At(x, 4) && k[At(x, 5)] == Void && k[c] == Void)
      || (OnBoard(x - 1, y - 1) && c == At(x - 1, y - 1) && EnemyKind(k[c], whites))
      || (OnBoard(x + 1, y - 1) && c == At(x + 1, y - 1) && EnemyKind(k[c], whites))
  {
    InAppend3(RayCands(k, whites, 3, x, y, if y == 6 then 2 else 1, true, false),
      RayCands(k, whites, 2, x, y, 1, false, true), RayCands(k, whites, 4, x, y, 1, false, true), c);
    PawnAheadIff(k, whites, x, y, c);
    PawnCaptureIff(k, whites, 2, x, y, c);
    PawnCaptureIff(k, whites, 4, x, y, c);
  }

  /** The cells of `cells`, in order, that the enemy of `whites` does not attack. */
  function Unattacked(k: seq<int>, whites: bool, cells: seq<int>): (r: seq<int>)
    requires |k| == Cells && InRange(cells)
    ensures InRange(r)
  {
    if cells == [] then []
    else
      var last := cells[|cells| - 1];
      Unattacked(k, whites, cells[..|cells| - 1]) + (if !Attacked(k, whites, last) then [last] else [])
  }

  lemma {:induction false} UnattackedIff(k: seq<int>, whites: bool, cells: seq<int>, c: int)
    requires |k| == Cells && InRange(cells)
    ensures c in Unattacked(k, whites, cells) <==> c in cells && !Attacked(k, whites, c)
  {
    if cells != [] {
      UnattackedIff(k, whites, cells[..|cells| - 1], c);
      InSnoc(cells, c);
    }
  }

  /** Filtering a concatenation by attack filters each part. */
  lemma {:induction false} UnattackedAppend(k: seq<int>, whites: bool, a: seq<int>, b: seq<int>)
    requires |k| == Cells && InRange(a) && InRange(b)
    ensures Unattacked(k, whites, a + b) == Unattacked(k, whites, a) + Unattacked(k, whites, b)
  {
    if b != [] {
      var init := b[..|b| - 1];
      var last := b[|b| - 1];
      var tail := if !Attacked(k, whites, last) then [last] else [];
      UnattackedAppend(k, whites, a, init);
      SnocSplit(a, b);
      assert Unattacked(k, whites, a + b) == Unattacked(k, whites, a + init) + tail;
      AppendAssoc(Unattacked(k, whites, a), Unattacked(k, whites, init), tail);
    } else {
      AppendEmpty(a);
      AppendEmpty(Unattacked(k, whites, a));
    }
  }

  /** The king's one-step destinations in direction `j + 1`, for each `j` below `n`. */
  function KingParts(k: seq<int>, whites: bool, x: int, y: int, n: int): (r: seq<seq<int>>)
    requires |k| == Cells && OnBoard(x, y) && 0 <= n <= 8
  {
    seq(n, j requires 0 <= j < n => KingRayCells(k, whites, x, y, j + 1))
  }

  /** The king's one-step destination in direction `i`, if it is free and not attacked. */
  function KingRayCells(k: seq<int>, whites: bool, x: int, y: int, i: int): (r: seq<int>)
    requires |k| == Cells && OnBoard(x, y)
    ensures InRange(r)
  {
    Unattacked(k, whites, RayCands(k, whites, i, x, y, 1, true, true))
  }

  /** The king's one-step destinations in directions 1 to `n`, judged on the current board. */
  function KingSteps(k: seq<int>, whites: bool, x: int, y: int, n: int): (r: seq<int>)
    requires |k| == Cells && OnBoard(x, y) && 0 <= n <= 8
    ensures InRange(r)
  {
    var parts := KingParts(k, whites, x, y, n);
    JoinedInRange(parts);
    Joined(parts)
  }

  /** Lists of cell indices joined together are cell indices. */
  lemma {:induction false} JoinedInRange(parts: seq<seq<int>>)
    requires forall d :: 0 <= d < |parts| ==> InRange(parts[d])
    ensures InRange(Joined(parts))
  {
    if parts != [] {
      var init := parts[..|parts| - 1];
      assert forall d :: 0 <= d < |init| ==> init[d] == parts[d];
      JoinedInRange(init);
    }
  }

  /** Directions 1 to `i` are directions 1 to `i - 1`, then ray `i`'s free neighbour. */
  lemma KingStepsSnoc(k: seq<int>, whites: bool, x: int, y: int, i: int)
    requires |k| == Cells && OnBoard(x, y) && 1 <= i <= 8
    ensures KingSteps(k, whites, x, y, i) == KingSteps(k, whites, x, y, i - 1) + KingRayCells(k, whites, x, y, i)
  {
    var parts := KingParts(k, whites, x, y, i);
    assert parts[..i - 1] == KingParts(k, whites, x, y, i - 1);
  }

  /** The cell next to (x, y) in direction `i` is on the board, empty or enemy, and not attacked. */
  ghost predicate FreeNeighbour(k: seq<int>, whites: bool, x: int, y: int, i: int, c: int)
    requires |k| == Cells
  {
    OnBoard(x + Dx(i), y + Dy(i)) && c == At(x + Dx(i), y + Dy(i))
      && Capturable(k, whites, c) && !Attacked(k, whites, c)
  }

  /** The king's ray in direction `i` offers exactly the free neighbour in that direction. */
  lemma KingRayIff(k: seq<int>, whites: bool, x: int, y: int, i: int, c: int)
    requires |k| == Cells && OnBoard(x, y) && 1 <= i <= 8
    ensures c in KingRayCells(k, whites, x, y, i) <==> FreeNeighbour(k, whites, x, y, i, c)
  {
    UnattackedIff(k, whites, RayCands(k, whites, i, x, y, 1, true, true), c);
    RayCandsIff(k, whites, i, x, y, 1, c);
    assert LineOfSight(k, x, y, i, 1) <==> OnBoard(x + Dx(i), y + Dy(i));
  }

  /** The king is offered exactly the neighbouring empty or enemy cells the enemy does not attack now. */
  lemma KingStepsExact(k: seq<int>, whites: bool, x: int, y: int, n: int, c: int)
    requires |k| == Cells && OnBoard(x, y) && 0 <= n <= 8
    ensures c in KingSteps(k, whites, x, y, n) <==> exists i :: 1 <= i <= n && FreeNeighbour(k, whites, x, y, i, c)
  {
    KingStepsParts(k, whites, x, y, n, c);
    if c in KingSteps(k, whites, x, y, n) {
      var j :| 0 <= j < n && c in KingParts(k, whites, x, y, n)[j];
      PartsFreeFwd(k, whites, x, y, n, c, j);
    }
    if exists i :: 1 <= i <= n && FreeNeighbour(k, whites, x, y, i, c) {
      var i :| 1 <= i <= n && FreeNeighbour(k, whites, x, y, i, c);
      PartsFreeBack(k, whites, x, y, n, c, i);
    }
  }

  /** The king's steps are the cells of its direction lists. */
  lemma KingStepsParts(k: seq<int>, whites: bool, x: int, y: int, n: int, c: int)
    requires |k| == Cells && OnBoard(x, y) && 0 <= n <= 8
    ensures c in KingSteps(k, whites, x, y, n) <==> exists j :: 0 <= j < n && c in KingParts(k, whites, x, y, n)[j]
  {
    InJoined(KingParts(k, whites, x, y, n), c);
  }

  /** A cell of some direction list is a free neighbour. */
  lemma PartsFreeFwd(k: seq<int>, whites: bool, x: int, y: int, n: int, c: int, j: int)
    requires |k| == Cells && OnBoard(x, y) && 0 <= j < n <= 8
    requires c in KingParts(k, whites, x, y, n)[j]
    ensures exists i :: 1 <= i <= n && FreeNeighbour(k, whites, x, y, i, c)
  {
    KingRayIff(k, whites, x, y, j + 1, c);
  }

  /** A free neighbour is in its direction's list. */
  lemma PartsFreeBack(k: seq<int>, whites: bool, x: int, y: int, n: int, c: int, i: int)
    requires |k| == Cells && OnBoard(x, y) && 1 <= i <= n <= 8
    requires FreeNeighbour(k, whites, x, y, i, c)
    ensures exists j :: 0 <= j < n && c in KingParts(k, whites, x, y, n)[j]
  {
    KingRayIff(k, whites, x, y, i, c);
    assert c in KingParts(k, whites, x, y, n)[i - 1];
  }

  /** Some recorded move begins with the two characters `square`. */
  predicate MovedFrom(moves: seq<MoveRecord>, square: string) {
    exists j :: 0 <= j < |moves| && |moves[j].notation| >= 2 && moves[j].notation[..2] == square
  }

  /**
   * Whether the rook of kind `kind` found along castling ray `i` has left its
   * home: a white rook's home is a1 to the west (ray 1) and h1 to the east; a
   * black rook's is h8 to the west and a8 to the east, as seen from Black.
   */
  predicate RookLeftHome(moves: seq<MoveRecord>, kind: int, i: int) {
    if kind == WRook then MovedFrom(moves, if i == 1 then "a1" else "h1")
    else if kind == BRook then MovedFrom(moves, if i == 1 then "h8" else "a8")
    else false
  }

  /**
   * The castling destination along ray `i` (1 west, 5 east) of the king on
   * (x, y): two cells along, offered when the whole ray is free of attacked
   * empty cells and ends at the edge or at a rook that never left its home.
   * A destination off the board is not offered.
   */
  function CastleTarget(k: seq<int>, whites: bool, moves: seq<MoveRecord>, i: int, x: int, y: int): (r: seq<int>)
    requires |k| == Cells && OnBoard(x, y)
    ensures InRange(r)
  {
    var w := Ray(k, i, x, y, -1);
    var t := if i == 1 then At(x, y) - 2 else At(x, y) + 2;
    if RookMayCastle(k, moves, i, w) && !PathAttacked(k, whites, w) && 0 <= t < Cells then [t] else []
  }

  /** The castling destination along ray `i` in terms of the walk of that ray. */
  lemma CastleTargetOf(k: seq<int>, whites: bool, moves: seq<MoveRecord>, i: int, x: int, y: int, w: Walk, t: int)
    requires |k| == Cells && OnBoard(x, y) && w == Ray(k, i, x, y, -1)
    requires t == if i == 1 then At(x, y) - 2 else At(x, y) + 2
    ensures CastleTarget(k, whites, moves, i, x, y)
      == if RookMayCastle(k, moves, i, w) && !PathAttacked(k, whites, w) && 0 <= t < Cells then [t] else []
  {
  }

  /** Some cell of `cells` is attacked by the enemy of `whites`. */
  predicate AnyAttacked(k: seq<int>, whites: bool, cells: seq<int>)
    requires |k| == Cells && InRange(cells)
  {
    cells != [] && (AnyAttacked(k, whites, cells[..|cells| - 1]) || Attacked(k, whites, cells[|cells| - 1]))
  }

  lemma {:induction false} AnyAttackedIff(k: seq<int>, whites: bool, cells: seq<int>)
    requires |k| == Cells && InRange(cells)
    ensures AnyAttacked(k, whites, cells) <==> exists j :: 0 <= j < |cells| && Attacked(k, whites, cells[j])
  {
    if cells != [] {
      var init := cells[..|cells| - 1];
      AnyAttackedIff(k, whites, init);
      assert forall j :: 0 <= j < |init| ==> init[j] == cells[j];
    }
  }

  /** The empty cells a walk passed over, one of which the enemy of `whites` attacks. */
  predicate PathAttacked(k: seq<int>, whites: bool, w: Walk)
    requires |k| == Cells && InRange(w.empties)
  {
    AnyAttacked(k, whites, w.empties)
  }

  /**
   * The walk along ray `i` reached the edge, or stopped at a rook that never
   * left its home (a walk that stopped at anything else is no free way).
   */
  predicate RookMayCastle(k: seq<int>, moves: seq<MoveRecord>, i: int, w: Walk)
    requires |k| == Cells && (w.blocker.Some? ==> 0 <= w.blocker.value < Cells)
  {
    var freeWay := w.blocker.None? || k[w.blocker.value] == WRook || k[w.blocker.value] == BRook;
    var rookMoved := w.blocker.Some? && RookLeftHome(moves, k[w.blocker.value], i);
    freeWay && !rookMoved
  }

  /** No empty cell in line of sight along ray `i` is attacked. */
  ghost predicate PathSafe(k: seq<int>, whites: bool, i: int, x: int, y: int)
    requires |k| == Cells && OnBoard(x, y)
  {
    forall n :: 1 <= n && LineOfSight(k, x, y, i, n) && k[At(Along(x, Dx(i), n), Along(y, Dy(i), n))] == Void
      ==> !Attacked(k, whites, At(Along(x, Dx(i), n), Along(y, Dy(i), n)))
  }

  /** The first occupied cell in line of sight along ray `i`, if any, is a rook that never left its home. */
  ghost predicate RookAtHome(k: seq<int>, moves: seq<MoveRecord>, i: int, x: int, y: int)
    requires |k| == Cells && OnBoard(x, y)
  {
    forall n :: 1 <= n && LineOfSight(k, x, y, i, n) && k[At(Along(x, Dx(i), n), Along(y, Dy(i), n))] != Void
      ==> var kind := k[At(Along(x, Dx(i), n), Along(y, Dy(i), n))];
          (kind == WRook || kind == BRook) && !RookLeftHome(moves, kind, i)
  }

  ghost predicate CastlePathClear(k: seq<int>, whites: bool, moves: seq<MoveRecord>, i: int, x: int, y: int)
    requires |k| == Cells && OnBoard(x, y)
  {
    PathSafe(k, whites, i, x, y) && RookAtHome(k, moves, i, x, y)
  }

  lemma WalkPathSafe(k: seq<int>, whites: bool, i: int, x: int, y: int, w: Walk)
    requires |k| == Cells && OnBoard(x, y) && 1 <= i <= 8 && IsRay(k, i, x, y, -1, w)
    requires InRange(w.empties)
    ensures !PathAttacked(k, whites, w) <==> PathSafe(k, whites, i, x, y)
  {
    AnyAttackedIff(k, whites, w.empties);
    if PathAttacked(k, whites, w) {
      var j :| 0 <= j < |w.empties| && Attacked(k, whites, w.empties[j]);
      WalkEmptyIff(k, i, x, y, -1, w, w.empties[j]);
      var n :| 1 <= n && LineOfSight(k, x, y, i, n)
        && w.empties[j] == At(Along(x, Dx(i), n), Along(y, Dy(i), n)) && k[w.empties[j]] == Void;
    } else {
      forall n | 1 <= n && LineOfSight(k, x, y, i, n) && k[At(Along(x, Dx(i), n), Along(y, Dy(i), n))] == Void
        ensures !Attacked(k, whites, At(Along(x, Dx(i), n), Along(y, Dy(i), n)))
      {
        var c := At(Along(x, Dx(i), n), Along(y, Dy(i), n));
        WalkEmptyIff(k, i, x, y, -1, w, c);
        var j :| 0 <= j < |w.empties| && w.empties[j] == c;
      }
    }
  }

  lemma WalkRookAtHome(k: seq<int>, moves: seq<MoveRecord>, i: int, x: int, y: int, w: Walk)
    requires |k| == Cells && OnBoard(x, y) && 1 <= i <= 8 && IsRay(k, i, x, y, -1, w)
    requires w.blocker.Some? ==> 0 <= w.blocker.value < Cells
    ensures RookMayCastle(k, moves, i, w) <==> RookAtHome(k, moves, i, x, y)
  {
    forall n | 1 <= n && LineOfSight(k, x, y, i, n) && k[At(Along(x, Dx(i), n), Along(y, Dy(i), n))] != Void
      ensures w.blocker == Some(At(Along(x, Dx(i), n), Along(y, Dy(i), n)))
    {
      WalkBlockerIff(k, i, x, y, -1, w, At(Along(x, Dx(i), n), Along(y, Dy(i), n)));
    }
    if w.blocker.Some? {
      WalkBlockerIff(k, i, x, y, -1, w, w.blocker.value);
    }
  }

  /**
   * Castling along ray `i` is offered exactly when: the destination two cells
   * along is on the board; no empty cell in line of sight along the ray is
   * attacked; and the first occupied cell in line of sight, if any, is a rook
   * that never left its home.
   */
  lemma CastleTargetExact(k: seq<int>, whites: bool, moves: seq<MoveRecord>, i: int, x: int, y: int)
    requires |k| == Cells && OnBoard(x, y) && 1 <= i <= 8
    ensures var t := if i == 1 then At(x, y) - 2 else At(x, y) + 2;
      CastleTarget(k, whites, moves, i, x, y) == (if 0 <= t < Cells && CastlePathClear(k, whites, moves, i, x, y) then [t] else [])
  {
    RayIsRay(k, i, x, y, -1);
    WalkPathSafe(k, whites, i, x, y, Ray(k, i, x, y, -1));
    WalkRookAtHome(k, moves, i, x, y, Ray(k, i, x, y, -1));
  }

  /** The king's destinations: the steps, then the castling destinations west and east while castling is enabled. */
  function KingTargets(k: seq<int>, whites: bool, castling: bool, moves: seq<MoveRecord>, x: int, y: int): (r: seq<int>)
    requires |k| == Cells && OnBoard(x, y)
    ensures InRange(r)
  {
    KingSteps(k, whites, x, y, 8)
      + (if castling then CastleTarget(k, whites, moves, 1, x, y) + CastleTarget(k, whites, moves, 5, x, y) else [])
  }

  /**
   * The candidates of the piece on (x, y) when it is not a king: the rays of
   * a rook, bishop or queen, the knight cells, or the pawn's steps.
   */
  function PieceCands(k: seq<int>, whites: bool, x: int, y: int): (r: seq<int>)
    requires |k| == Cells && OnBoard(x, y)
    ensures InRange(r) && Targets(k, whites, r)
  {
    var kind := k[At(x, y)];
    if kind == WRook || kind == BRook then SweepCands(k, whites, x, y, RookDirs)
    else if kind == WKnight || kind == BKnight then Reachable(k, whites, KnightPositions(x, y))
    else if kind == WBishop || kind == BBishop then SweepCands(k, whites, x, y, BishopDirs)
    else if kind == WQueen || kind == BQueen then SweepCands(k, whites, x, y, QueenDirs)
    else PawnCands(k, whites, x, y)
  }

  /**
   * The cells the generator for the piece on (x, y) offers, in order: none
   * for an empty cell or an enemy piece, the king's targets for the king,
   * and the safe candidates for the other pieces.
   */
  function Destinations(k: seq<int>, whites: bool, kingPos: int, castling: bool, moves: seq<MoveRecord>, x: int, y: int): (r: seq<int>)
    requires |k| == Cells && 0 <= kingPos < Cells && OnBoard(x, y)
    ensures InRange(r)
  {
    var kind := k[At(x, y)];
    if !OwnKind(kind, whites) then []
    else if kind == WKing || kind == BKing then KingTargets(k, whites, castling, moves, x, y)
    else Legal(k, whites, kingPos, At(x, y), PieceCands(k, whites, x, y))
  }

  /** The three cases of `Destinations`, one equation each. */
  lemma DestinationsCases(k: seq<int>, whites: bool, kingPos: int, castling: bool, moves: seq<MoveRecord>, x: int, y: int)
    requires |k| == Cells && 0 <= kingPos < Cells && OnBoard(x, y)
    ensures var kind := k[At(x, y)];
      && (!OwnKind(kind, whites) ==> Destinations(k, whites, kingPos, castling, moves, x, y) == [])
      && (OwnKind(kind, whites) && (kind == WKing || kind == BKing) ==>
            Destinations(k, whites, kingPos, castling, moves, x, y) == KingTargets(k, whites, castling, moves, x, y))
      && (OwnKind(kind, whites) && kind != WKing && kind != BKing ==>
            Destinations(k, whites, kingPos, castling, moves, x, y) == Legal(k, whites, kingPos, At(x, y), PieceCands(k, whites, x, y)))
  {
  }

  /**
   * Every cell offered to a piece other than the king is empty or holds an
   * enemy piece, and moving there leaves the own king unattacked.
   */
  lemma OfferedMovesAreSafe(k: seq<int>, whites: bool, kingPos: int, castling: bool, moves: seq<MoveRecord>, x: int, y: int, c: int)
    requires |k| == Cells && 0 <= kingPos < Cells && OnBoard(x, y)
    requires k[At(x, y)] != WKing && k[At(x, y)] != BKing
    requires c in Destinations(k, whites, kingPos, castling, moves, x, y)
    ensures 0 <= c < Cells && Capturable(k, whites, c) && SafeMove(k, whites, kingPos, At(x, y), c)
  {
    LegalIff(k, whites, kingPos, At(x, y), PieceCands(k, whites, x, y), c);
  }
}
