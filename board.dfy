/**
 * The board of the chess core: 64 packed cells in row-major order
 * (index = row * 8 + col, row 0 at the top of the local view), the piece
 * kinds stored in a cell's low byte, the flag bits above it, the standard
 * starting layout, the ray walk shared by move generation and attack
 * detection, and the knight offsets.
 */
module Board {

  datatype Option<T> = None | Some(value: T)

  /** One entry of the move history: the kind on the destination after the move, and the move's text. */
  datatype MoveRecord = MoveRecord(piece: int, notation: string)

  /** A cell as the source stores it: an unsigned 32-bit word. */
  type Cell = bv32

  const Size := 8
  const Cells := 64

  // Piece kinds (the low byte of a cell).
  const Void := 0
  const BRook := 1
  const BKnight := 2
  const BBishop := 3
  const BQueen := 4
  const BKing := 5
  const BPawn := 6
  const WPawn := 7
  const WRook := 8
  const WKnight := 9
  const WBishop := 10
  const WQueen := 11
  const WKing := 12

  // Flag bits above the low byte.
  const SelectedBit: Cell := 0x100
  const AvailableBit: Cell := 0x200
  const CheckBit: Cell := 0x800

  /** The standard layout as seen by White: Black on rows 0-1, White on rows 6-7. */
  const InitPosition: seq<Cell> :=
    [1, 2, 3, 4, 5, 3, 2, 1] +
    [6, 6, 6, 6, 6, 6, 6, 6] +
    [0, 0, 0, 0, 0, 0, 0, 0] +
    [0, 0, 0, 0, 0, 0, 0, 0] +
    [0, 0, 0, 0, 0, 0, 0, 0] +
    [0, 0, 0, 0, 0, 0, 0, 0] +
    [7, 7, 7, 7, 7, 7, 7, 7] +
    [8, 9, 10, 11, 12, 10, 9, 8]

  /** The piece kind held by a cell: its low byte. */
  function Kind(v: Cell): int {
    (v & 0xFF) as int
  }

  /** The piece kinds of a whole board. */
  function Kinds(b: seq<Cell>): (k: seq<int>)
    ensures |k| == |b|
    ensures forall i :: 0 <= i < |b| ==> k[i] == Kind(b[i])
  {
    seq(|b|, i requires 0 <= i < |b| => Kind(b[i]))
  }

  /** Adding a flag bit or clearing one leaves the piece kind in the low byte as it was. */
  lemma FlagsKeepKind(v: Cell)
    ensures Kind(v + SelectedBit) == Kind(v)
    ensures Kind(v + AvailableBit) == Kind(v)
    ensures Kind(v + CheckBit) == Kind(v)
    ensures Kind(v & !SelectedBit) == Kind(v)
    ensures Kind(v & !AvailableBit) == Kind(v)
    ensures Kind(v & !CheckBit) == Kind(v)
  {
  }

  /** True of the kinds of the side that is NOT `whites`. */
  predicate EnemyKind(kind: int, whites: bool) {
    if whites then BRook <= kind <= BPawn else WPawn <= kind <= WKing
  }

  function Abs(n: int): nat {
    if n < 0 then -n else n
  }

  predicate OnBoard(x: int, y: int) {
    0 <= x < Size && 0 <= y < Size
  }

  function At(x: int, y: int): int {
    y * 8 + x
  }

  lemma AtCoordinates(x: int, y: int)
    requires OnBoard(x, y)
    ensures 0 <= At(x, y) < Cells
    ensures At(x, y) % 8 == x && At(x, y) / 8 == y
  {
  }

  /** Column step of ray direction `i` (1 west, then clockwise to 8 south-west). */
  function Dx(i: int): int {
    if i == 1 || i == 2 || i == 8 then -1
    else if i == 4 || i == 5 || i == 6 then 1
    else 0
  }

  /** Row step of ray direction `i`; row numbers grow downwards. */
  function Dy(i: int): int {
    if i == 2 || i == 3 || i == 4 then -1
    else if i == 6 || i == 7 || i == 8 then 1
    else 0
  }

  /** The coordinate `j` steps from `x` along a unit step `d`. */
  function Along(x: int, d: int, j: int): int {
    if d == 1 then x + j else if d == -1 then x - j else x
  }

  predicate UnitStep(dx: int, dy: int) {
    -1 <= dx <= 1 && -1 <= dy <= 1 && (dx != 0 || dy != 0)
  }

  /** The cells a ray passed over (all empty) and the occupied cell that stopped it, if any. */
  datatype Walk = Walk(empties: seq<int>, blocker: Option<int>)

  function Reach(dx: int, dy: int, x: int, y: int): int {
    if dx == -1 then x + 1
    else if dx == 1 then Size - x
    else if dy == -1 then y + 1
    else Size - y
  }

  /**
   * The recursive walk: from (x, y), stop at the edge or when `lim` reaches
   * zero (a negative `lim` never does), record an empty cell and go on, or
   * record the first occupied cell and stop there.
   */
  function Go(k: seq<int>, dx: int, dy: int, x: int, y: int, lim: int): (w: Walk)
    requires |k| == Cells && UnitStep(dx, dy)
    requires -1 <= x <= Size && -1 <= y <= Size
    ensures forall j :: 0 <= j < |w.empties| ==> 0 <= w.empties[j] < Cells
    ensures w.blocker.Some? ==> 0 <= w.blocker.value < Cells
    decreases Reach(dx, dy, x, y)
  {
    if x < 0 || y == Size || x == Size || y < 0 || lim == 0 then Walk([], None)
    else
      var pos := At(x, y);
      if k[pos] == Void then
        var rest := Go(k, dx, dy, x + dx, y + dy, lim - 1);
        Walk([pos] + rest.empties, rest.blocker)
      else
        Walk([], Some(pos))
  }

  /** A ray in direction `i` from the piece at (x, y), not including (x, y) itself. */
  function Ray(k: seq<int>, i: int, x: int, y: int, lim: int): (w: Walk)
    requires |k| == Cells && OnBoard(x, y)
    ensures forall j :: 0 <= j < |w.empties| ==> 0 <= w.empties[j] < Cells
    ensures w.blocker.Some? ==> 0 <= w.blocker.value < Cells
  {
    if 1 <= i <= 8 then Go(k, Dx(i), Dy(i), x + Dx(i), y + Dy(i), lim) else Walk([], None)
  }

  /** `c` is the cell at (x, y), which is on the board. */
  predicate IsCell(c: int, x: int, y: int) {
    OnBoard(x, y) && c == At(x, y)
  }

  /**
   * The cells a walk from (x, y) in steps (dx, dy) passed over: the j-th is
   * j steps out, on the board and empty.
   */
  ghost predicate WalkCells(k: seq<int>, dx: int, dy: int, x: int, y: int, w: Walk)
    requires |k| == Cells
  {
    forall j {:trigger w.empties[j]} :: 0 <= j < |w.empties| ==>
      && IsCell(w.empties[j], Along(x, dx, j), Along(y, dy, j))
      && k[w.empties[j]] == Void
  }

  /**
   * Where a walk with limit `lim` ended: at most `lim` cells when `lim` is not
   * negative; then either at the occupied cell it reports, one step after the
   * last empty cell, or where the next cell is off the board or the limit is
   * used up.
   */
  ghost predicate WalkEnd(k: seq<int>, dx: int, dy: int, x: int, y: int, lim: int, w: Walk)
    requires |k| == Cells
  {
    var n := |w.empties|;
    && (lim >= 0 ==> n <= lim)
    && if w.blocker.Some? then
         IsCell(w.blocker.value, Along(x, dx, n), Along(y, dy, n)) && k[w.blocker.value] != Void && n != lim
       else
         !OnBoard(Along(x, dx, n), Along(y, dy, n)) || n == lim
  }

  /** Starting one step further along means one step fewer. */
  lemma AlongShift(x: int, d: int, j: int)
    requires -1 <= d <= 1 && j >= 1
    ensures Along(x + d, d, j - 1) == Along(x, d, j)
  {
  }

  /** A walk that passed the empty cell at (x, y) and then walked on from the next cell. */
  lemma WalkCellsStep(k: seq<int>, dx: int, dy: int, x: int, y: int, rest: Walk, w: Walk)
    requires |k| == Cells && -1 <= dx <= 1 && -1 <= dy <= 1 && OnBoard(x, y) && k[At(x, y)] == Void
    requires WalkCells(k, dx, dy, x + dx, y + dy, rest)
    requires w.empties == [At(x, y)] + rest.empties
    ensures WalkCells(k, dx, dy, x, y, w)
  {
    forall j | 0 <= j < |w.empties|
      ensures IsCell(w.empties[j], Along(x, dx, j), Along(y, dy, j)) && k[w.empties[j]] == Void
    {
      if j > 0 {
        var e := rest.empties[j - 1];
        assert w.empties[j] == e;
        assert IsCell(e, Along(x + dx, dx, j - 1), Along(y + dy, dy, j - 1)) && k[e] == Void;
        AlongShift(x, dx, j);
        AlongShift(y, dy, j);
      }
    }
  }

  lemma {:induction false} GoVisitsInOrder(k: seq<int>, dx: int, dy: int, x: int, y: int, lim: int)
    requires |k| == Cells && UnitStep(dx, dy)
    requires -1 <= x <= Size && -1 <= y <= Size
    ensures WalkCells(k, dx, dy, x, y, Go(k, dx, dy, x, y, lim))
    decreases Reach(dx, dy, x, y)
  {
    if x < 0 || y == Size || x == Size || y < 0 || lim == 0 {
    } else if k[At(x, y)] == Void {
      GoVisitsInOrder(k, dx, dy, x + dx, y + dy, lim - 1);
      WalkCellsStep(k, dx, dy, x, y, Go(k, dx, dy, x + dx, y + dy, lim - 1), Go(k, dx, dy, x, y, lim));
    }
  }

  /** The end of a walk that passed the empty cell at (x, y) and then walked on from the next cell. */
  lemma WalkEndStep(k: seq<int>, dx: int, dy: int, x: int, y: int, lim: int, rest: Walk, w: Walk)
    requires |k| == Cells && -1 <= dx <= 1 && -1 <= dy <= 1 && lim != 0
    requires WalkEnd(k, dx, dy, x + dx, y + dy, lim - 1, rest)
    requires w.blocker == rest.blocker && |w.empties| == |rest.empties| + 1
    ensures WalkEnd(k, dx, dy, x, y, lim, w)
  {
    AlongShift(x, dx, |w.empties|);
    AlongShift(y, dy, |w.empties|);
  }

  /** A walk that passed no cell ends where it starts: at the occupied cell it reports, or off the board or out of steps. */
  lemma WalkEndAt(k: seq<int>, dx: int, dy: int, x: int, y: int, lim: int, w: Walk)
    requires |k| == Cells && w.empties == []
    requires w.blocker.Some? ==> OnBoard(x, y) && w.blocker.value == At(x, y) && k[At(x, y)] != Void && lim != 0
    requires w.blocker.None? ==> !OnBoard(x, y) || lim == 0
    ensures WalkEnd(k, dx, dy, x, y, lim, w)
  {
  }

  lemma {:induction false} GoStopsAtFirstOccupied(k: seq<int>, dx: int, dy: int, x: int, y: int, lim: int)
    requires |k| == Cells && UnitStep(dx, dy)
    requires -1 <= x <= Size && -1 <= y <= Size
    ensures WalkEnd(k, dx, dy, x, y, lim, Go(k, dx, dy, x, y, lim))
    decreases Reach(dx, dy, x, y)
  {
    if x < 0 || y == Size || x == Size || y < 0 || lim == 0 {
      assert Go(k, dx, dy, x, y, lim) == Walk([], None);
      WalkEndAt(k, dx, dy, x, y, lim, Walk([], None));
    } else if k[At(x, y)] == Void {
      GoStopsAtFirstOccupied(k, dx, dy, x + dx, y + dy, lim - 1);
      var rest := Go(k, dx, dy, x + dx, y + dy, lim - 1);
      var w := Go(k, dx, dy, x, y, lim);
      assert w == Walk([At(x, y)] + rest.empties, rest.blocker);
      WalkEndStep(k, dx, dy, x, y, lim, rest, w);
    } else {
      assert Go(k, dx, dy, x, y, lim) == Walk([], Some(At(x, y)));
      WalkEndAt(k, dx, dy, x, y, lim, Walk([], Some(At(x, y))));
    }
  }

  /**
   * Line of sight from (x, y) in direction `i`: the cell `n` steps out is on
   * the board and every cell strictly between is empty.
   */
  ghost predicate LineOfSight(k: seq<int>, x: int, y: int, i: int, n: int)
    requires |k| == Cells && OnBoard(x, y)
  {
    && 1 <= n
    && OnBoard(Along(x, Dx(i), n), Along(y, Dy(i), n))
    && forall j :: 1 <= j < n ==> k[At(Along(x, Dx(i), j), Along(y, Dy(i), j))] == Void
  }

  /** The cells a ray from (x, y) in direction `i` passed over: the j-th is j + 1 steps out and empty. */
  ghost predicate RayCells(k: seq<int>, i: int, x: int, y: int, w: Walk)
    requires |k| == Cells
  {
    forall j {:trigger w.empties[j]} :: 0 <= j < |w.empties| ==>
      && IsCell(w.empties[j], Along(x, Dx(i), j + 1), Along(y, Dy(i), j + 1))
      && k[w.empties[j]] == Void
  }

  /** Where a ray from (x, y) in direction `i` ended, counted in steps from (x, y). */
  ghost predicate RayEnd(k: seq<int>, i: int, x: int, y: int, lim: int, w: Walk)
    requires |k| == Cells
  {
    var n := |w.empties| + 1;
    && (lim >= 0 ==> n <= lim + 1)
    && match w.blocker
       case Some(b) =>
         OnBoard(Along(x, Dx(i), n), Along(y, Dy(i), n)) && b == At(Along(x, Dx(i), n), Along(y, Dy(i), n))
         && k[b] != Void && n != lim + 1
       case None =>
         !OnBoard(Along(x, Dx(i), n), Along(y, Dy(i), n)) || n == lim + 1
  }

  /** The cells a walk starting one step out in direction `i` passed, counted from where the ray starts. */
  lemma WalkShift(k: seq<int>, i: int, x: int, y: int, w: Walk)
    requires |k| == Cells && 1 <= i <= 8
    requires WalkCells(k, Dx(i), Dy(i), x + Dx(i), y + Dy(i), w)
    ensures RayCells(k, i, x, y, w)
  {
    forall j | 0 <= j < |w.empties|
      ensures IsCell(w.empties[j], Along(x, Dx(i), j + 1), Along(y, Dy(i), j + 1)) && k[w.empties[j]] == Void
    {
      var e := w.empties[j];
      assert IsCell(e, Along(x + Dx(i), Dx(i), j), Along(y + Dy(i), Dy(i), j));
      AlongShift(x, Dx(i), j + 1);
      AlongShift(y, Dy(i), j + 1);
    }
  }

  /** A ray visits the cells in direction `i` one step at a time, in order, all of them empty. */
  lemma RayVisitsInOrder(k: seq<int>, i: int, x: int, y: int, lim: int)
    requires |k| == Cells && OnBoard(x, y) && 1 <= i <= 8
    ensures RayCells(k, i, x, y, Ray(k, i, x, y, lim))
  {
    GoVisitsInOrder(k, Dx(i), Dy(i), x + Dx(i), y + Dy(i), lim);
    WalkShift(k, i, x, y, Ray(k, i, x, y, lim));
  }

  /** Where a walk starting one step out in direction `i` ended, counted from where the ray starts. */
  lemma WalkEndShift(k: seq<int>, i: int, x: int, y: int, lim: int, w: Walk)
    requires |k| == Cells && 1 <= i <= 8
    requires WalkEnd(k, Dx(i), Dy(i), x + Dx(i), y + Dy(i), lim, w)
    ensures RayEnd(k, i, x, y, lim, w)
  {
    AlongShift(x, Dx(i), |w.empties| + 1);
    AlongShift(y, Dy(i), |w.empties| + 1);
  }

  /**
   * A ray stops at the board's edge, after `lim` cells when `lim` is not
   * negative, or at the first occupied cell, which it reports and does not
   * pass.
   */
  lemma RayStopsAtFirstOccupied(k: seq<int>, i: int, x: int, y: int, lim: int)
    requires |k| == Cells && OnBoard(x, y) && 1 <= i <= 8
    ensures RayEnd(k, i, x, y, lim, Ray(k, i, x, y, lim))
  {
    GoStopsAtFirstOccupied(k, Dx(i), Dy(i), x + Dx(i), y + Dy(i), lim);
    WalkEndShift(k, i, x, y, lim, Ray(k, i, x, y, lim));
  }

  /** The walk `w` passes and stops as the ray in direction `i` from (x, y) with limit `lim` does. */
  ghost predicate IsRay(k: seq<int>, i: int, x: int, y: int, lim: int, w: Walk)
    requires |k| == Cells
  {
    RayCells(k, i, x, y, w) && RayEnd(k, i, x, y, lim, w)
  }

  lemma RayIsRay(k: seq<int>, i: int, x: int, y: int, lim: int)
    requires |k| == Cells && OnBoard(x, y) && 1 <= i <= 8
    ensures IsRay(k, i, x, y, lim, Ray(k, i, x, y, lim))
  {
    RayVisitsInOrder(k, i, x, y, lim);
    RayStopsAtFirstOccupied(k, i, x, y, lim);
  }

  /** Every cell a ray passed before its n-th step is empty. */
  lemma WalkClearBefore(k: seq<int>, i: int, x: int, y: int, lim: int, w: Walk, n: int)
    requires |k| == Cells && OnBoard(x, y) && 1 <= i <= 8 && IsRay(k, i, x, y, lim, w)
    requires 1 <= n <= |w.empties| + 1 && OnBoard(Along(x, Dx(i), n), Along(y, Dy(i), n))
    ensures LineOfSight(k, x, y, i, n)
  {
    forall j | 1 <= j < n
      ensures k[At(Along(x, Dx(i), j), Along(y, Dy(i), j))] == Void
    {
      assert IsCell(w.empties[j - 1], Along(x, Dx(i), j), Along(y, Dy(i), j));
    }
  }

  lemma WalkBlockerInSight(k: seq<int>, i: int, x: int, y: int, lim: int, w: Walk)
    requires |k| == Cells && OnBoard(x, y) && 1 <= i <= 8 && IsRay(k, i, x, y, lim, w)
    requires w.blocker.Some?
    ensures var n := |w.empties| + 1;
      && LineOfSight(k, x, y, i, n) && (lim < 0 || n <= lim)
      && w.blocker.value == At(Along(x, Dx(i), n), Along(y, Dy(i), n))
  {
    WalkClearBefore(k, i, x, y, lim, w, |w.empties| + 1);
  }

  /** A ray that stopped at an occupied cell had that cell in line of sight, within its limit. */
  lemma RayBlockerInSight(k: seq<int>, i: int, x: int, y: int, lim: int)
    requires |k| == Cells && OnBoard(x, y) && 1 <= i <= 8
    requires Ray(k, i, x, y, lim).blocker.Some?
    ensures var w := Ray(k, i, x, y, lim);
      var n := |w.empties| + 1;
      && LineOfSight(k, x, y, i, n) && (lim < 0 || n <= lim)
      && w.blocker.value == At(Along(x, Dx(i), n), Along(y, Dy(i), n))
  {
    RayIsRay(k, i, x, y, lim);
    WalkBlockerInSight(k, i, x, y, lim, Ray(k, i, x, y, lim));
  }

  /** A ray passes over every cell in line of sight before the n-th, within its limit. */
  lemma WalkCoversLineOfSight(k: seq<int>, i: int, x: int, y: int, lim: int, w: Walk, n: int)
    requires |k| == Cells && OnBoard(x, y) && 1 <= i <= 8 && IsRay(k, i, x, y, lim, w)
    requires LineOfSight(k, x, y, i, n) && (lim < 0 || n <= lim)
    ensures |w.empties| >= n - 1
  {
    var m := |w.empties|;
    var next := At(Along(x, Dx(i), m + 1), Along(y, Dy(i), m + 1));
    if m < n - 1 {
      // The cell after the last one passed is in line of sight, so on the board and empty.
      assert false;
    }
  }

  /**
   * A ray finds the n-th cell in line of sight when `n` is within its limit:
   * it stops there exactly when that cell is occupied, and passes over it
   * exactly when it is empty.
   */
  lemma WalkFindsLineOfSight(k: seq<int>, i: int, x: int, y: int, lim: int, w: Walk, n: int)
    requires |k| == Cells && OnBoard(x, y) && 1 <= i <= 8 && IsRay(k, i, x, y, lim, w)
    requires LineOfSight(k, x, y, i, n) && (lim < 0 || n <= lim)
    ensures var c := At(Along(x, Dx(i), n), Along(y, Dy(i), n));
      k[c] != Void <==> (|w.empties| == n - 1 && w.blocker == Some(c))
    ensures var c := At(Along(x, Dx(i), n), Along(y, Dy(i), n));
      k[c] == Void <==> (n <= |w.empties| && w.empties[n - 1] == c)
  {
    WalkCoversLineOfSight(k, i, x, y, lim, w, n);
    var c := At(Along(x, Dx(i), n), Along(y, Dy(i), n));
    if |w.empties| >= n {
      assert IsCell(w.empties[n - 1], Along(x, Dx(i), n), Along(y, Dy(i), n));
    }
  }

  /** The ray in direction `i` finds the n-th cell in line of sight when `n` is within its limit. */
  lemma RayFindsLineOfSight(k: seq<int>, i: int, x: int, y: int, lim: int, n: int)
    requires |k| == Cells && OnBoard(x, y) && 1 <= i <= 8
    requires LineOfSight(k, x, y, i, n) && (lim < 0 || n <= lim)
    ensures var w := Ray(k, i, x, y, lim);
      var c := At(Along(x, Dx(i), n), Along(y, Dy(i), n));
      k[c] != Void <==> (|w.empties| == n - 1 && w.blocker == Some(c))
    ensures var w := Ray(k, i, x, y, lim);
      var c := At(Along(x, Dx(i), n), Along(y, Dy(i), n));
      k[c] == Void <==> (n <= |w.empties| && w.empties[n - 1] == c)
  {
    RayIsRay(k, i, x, y, lim);
    WalkFindsLineOfSight(k, i, x, y, lim, Ray(k, i, x, y, lim), n);
  }

  /** The empty cells in line of sight within the limit, `c` among them. */
  ghost predicate EmptyInSight(k: seq<int>, i: int, x: int, y: int, lim: int, c: int)
    requires |k| == Cells && OnBoard(x, y)
  {
    exists n :: 1 <= n && (lim < 0 || n <= lim) && LineOfSight(k, x, y, i, n)
      && c == At(Along(x, Dx(i), n), Along(y, Dy(i), n)) && k[c] == Void
  }

  /** The occupied cells in line of sight within the limit, `c` among them. */
  ghost predicate OccupiedInSight(k: seq<int>, i: int, x: int, y: int, lim: int, c: int)
    requires |k| == Cells && OnBoard(x, y)
  {
    exists n :: 1 <= n && (lim < 0 || n <= lim) && LineOfSight(k, x, y, i, n)
      && c == At(Along(x, Dx(i), n), Along(y, Dy(i), n)) && k[c] != Void
  }

  lemma WalkEmptyIff(k: seq<int>, i: int, x: int, y: int, lim: int, w: Walk, c: int)
    requires |k| == Cells && OnBoard(x, y) && 1 <= i <= 8 && IsRay(k, i, x, y, lim, w)
    ensures c in w.empties <==> EmptyInSight(k, i, x, y, lim, c)
  {
    if c in w.empties {
      var j :| 0 <= j < |w.empties| && w.empties[j] == c;
      assert IsCell(w.empties[j], Along(x, Dx(i), j + 1), Along(y, Dy(i), j + 1));
      WalkClearBefore(k, i, x, y, lim, w, j + 1);
    }
    if EmptyInSight(k, i, x, y, lim, c) {
      var n :| 1 <= n && (lim < 0 || n <= lim) && LineOfSight(k, x, y, i, n)
        && c == At(Along(x, Dx(i), n), Along(y, Dy(i), n)) && k[c] == Void;
      WalkFindsLineOfSight(k, i, x, y, lim, w, n);
    }
  }

  /**
   * The empty cells a ray passes over are exactly the empty cells in line of
   * sight within its limit.
   */
  lemma RayEmptyIff(k: seq<int>, i: int, x: int, y: int, lim: int, c: int)
    requires |k| == Cells && OnBoard(x, y) && 1 <= i <= 8
    ensures c in Ray(k, i, x, y, lim).empties <==>
      exists n :: 1 <= n && (lim < 0 || n <= lim) && LineOfSight(k, x, y, i, n)
        && c == At(Along(x, Dx(i), n), Along(y, Dy(i), n)) && k[c] == Void
  {
    RayIsRay(k, i, x, y, lim);
    WalkEmptyIff(k, i, x, y, lim, Ray(k, i, x, y, lim), c);
  }

  lemma WalkBlockerIff(k: seq<int>, i: int, x: int, y: int, lim: int, w: Walk, c: int)
    requires |k| == Cells && OnBoard(x, y) && 1 <= i <= 8 && IsRay(k, i, x, y, lim, w)
    ensures w.blocker == Some(c) <==> OccupiedInSight(k, i, x, y, lim, c)
  {
    if w.blocker == Some(c) {
      WalkBlockerInSight(k, i, x, y, lim, w);
      assert k[c] != Void;
    }
    if OccupiedInSight(k, i, x, y, lim, c) {
      var n :| 1 <= n && (lim < 0 || n <= lim) && LineOfSight(k, x, y, i, n)
        && c == At(Along(x, Dx(i), n), Along(y, Dy(i), n)) && k[c] != Void;
      WalkFindsLineOfSight(k, i, x, y, lim, w, n);
    }
  }

  /** A ray stops at a cell exactly when that cell is occupied and in line of sight within its limit. */
  lemma RayBlockerIff(k: seq<int>, i: int, x: int, y: int, lim: int, c: int)
    requires |k| == Cells && OnBoard(x, y) && 1 <= i <= 8
    ensures Ray(k, i, x, y, lim).blocker == Some(c) <==>
      exists n :: 1 <= n && (lim < 0 || n <= lim) && LineOfSight(k, x, y, i, n)
        && c == At(Along(x, Dx(i), n), Along(y, Dy(i), n)) && k[c] != Void
  {
    RayIsRay(k, i, x, y, lim);
    WalkBlockerIff(k, i, x, y, lim, Ray(k, i, x, y, lim), c);
  }

  /** Every listed cell is on the board, empty, and not `start`. */
  predicate Vacant(k: seq<int>, cells: seq<int>, start: int)
    requires |k| == Cells
  {
    forall j :: 0 <= j < |cells| ==> 0 <= cells[j] < Cells && k[cells[j]] == Void && cells[j] != start
  }

  lemma WalkAvoidsStart(k: seq<int>, i: int, x: int, y: int, lim: int, w: Walk)
    requires |k| == Cells && OnBoard(x, y) && 1 <= i <= 8 && IsRay(k, i, x, y, lim, w)
    ensures Vacant(k, w.empties, At(x, y))
    ensures w.blocker != Some(At(x, y))
  {
    AtCoordinates(x, y);
    forall j | 0 <= j < |w.empties|
      ensures 0 <= w.empties[j] < Cells && k[w.empties[j]] == Void && w.empties[j] != At(x, y)
    {
      assert IsCell(w.empties[j], Along(x, Dx(i), j + 1), Along(y, Dy(i), j + 1));
      AtCoordinates(Along(x, Dx(i), j + 1), Along(y, Dy(i), j + 1));
    }
    if w.blocker == Some(At(x, y)) {
      var n := |w.empties| + 1;
      AtCoordinates(Along(x, Dx(i), n), Along(y, Dy(i), n));
      assert false;
    }
  }

  /** A ray never reports the cell it starts from, and the cells it passes are empty. */
  lemma RayAvoidsStart(k: seq<int>, i: int, x: int, y: int, lim: int)
    requires |k| == Cells && OnBoard(x, y) && 1 <= i <= 8
    ensures Vacant(k, Ray(k, i, x, y, lim).empties, At(x, y))
    ensures Ray(k, i, x, y, lim).blocker != Some(At(x, y))
  {
    RayIsRay(k, i, x, y, lim);
    WalkAvoidsStart(k, i, x, y, lim, Ray(k, i, x, y, lim));
  }

  // Knight offsets, in the order the source lists them.
  const KnightDx: seq<int> := [-2, -1, 1, 2, 2, 1, -1, -2]
  const KnightDy: seq<int> := [-1, -2, -2, -1, 1, 2, 2, 1]

  /** The eight knight destinations from (x, y): a cell index, or -1 off the board. */
  function KnightPositions(x: int, y: int): (r: seq<int>)
    requires OnBoard(x, y)
    ensures |r| == 8
    ensures forall j :: 0 <= j < 8 ==>
      if OnBoard(x + KnightDx[j], y + KnightDy[j])
      then r[j] == At(x + KnightDx[j], y + KnightDy[j]) && 0 <= r[j] < Cells
      else r[j] == -1
  {
    [ if y - 1 < 0 || x - 2 < 0 then -1 else (y - 1) * 8 + x - 2,
      if y - 2 < 0 || x - 1 < 0 then -1 else (y - 2) * 8 + x - 1,
      if y - 2 < 0 || x + 1 >= Size then -1 else (y - 2) * 8 + x + 1,
      if y - 1 < 0 || x + 2 >= Size then -1 else (y - 1) * 8 + x + 2,
      if y + 1 >= Size || x + 2 >= Size then -1 else (y + 1) * 8 + x + 2,
      if y + 2 >= Size || x + 1 >= Size then -1 else (y + 2) * 8 + x + 1,
      if y + 2 >= Size || x - 1 < 0 then -1 else (y + 2) * 8 + x - 1,
      if y + 1 >= Size || x - 2 < 0 then -1 else (y + 1) * 8 + x - 2 ]
  }

  /** No knight jump lands on the cell it starts from. */
  lemma KnightAvoidsStart(x: int, y: int)
    requires OnBoard(x, y)
    ensures forall j :: 0 <= j < 8 ==> KnightPositions(x, y)[j] != At(x, y)
  {
    var kp := KnightPositions(x, y);
    forall j | 0 <= j < 8
      ensures kp[j] != At(x, y)
    {
      if OnBoard(x + KnightDx[j], y + KnightDy[j]) {
        AtCoordinates(x, y);
        AtCoordinates(x + KnightDx[j], y + KnightDy[j]);
      }
    }
  }

  /** The board as the other side sees it: cell `c` of one is cell `63 - c` of the other. */
  function Rotated<T>(b: seq<T>): (r: seq<T>)
    requires |b| == Cells
    ensures |r| == Cells
    ensures forall c :: 0 <= c < Cells ==> r[c] == b[Cells - 1 - c]
  {
    seq(Cells, c requires 0 <= c < Cells => b[Cells - 1 - c])
  }

  /** Turning the board half round twice gives it back. */
  lemma RotatedTwice<T>(b: seq<T>)
    requires |b| == Cells
    ensures Rotated(Rotated(b)) == b
  {
    forall c | 0 <= c < Cells
      ensures Rotated(Rotated(b))[c] == b[c]
    {
      assert Rotated(Rotated(b))[c] == Rotated(b)[Cells - 1 - c];
    }
  }

  /** The board with the selection bit of cell `c` cleared; the piece kinds stay as they were. */
  function Unselected(b: seq<Cell>, c: int): (r: seq<Cell>)
    requires 0 <= c < |b|
    ensures |r| == |b| && r[c] == b[c] & !SelectedBit
    ensures forall j :: 0 <= j < |b| && j != c ==> r[j] == b[j]
    ensures Kinds(r) == Kinds(b)
  {
    FlagsKeepKind(b[c]);
    KindsKeepFlag(b, c, b[c] & !SelectedBit);
    b[c := b[c] & !SelectedBit]
  }

  /** The board with the selection bit added to cell `c`; the piece kinds stay as they were. */
  function Selected(b: seq<Cell>, c: int): (r: seq<Cell>)
    requires 0 <= c < |b|
    ensures |r| == |b| && r[c] == b[c] + SelectedBit
    ensures forall j :: 0 <= j < |b| && j != c ==> r[j] == b[j]
    ensures Kinds(r) == Kinds(b)
  {
    FlagsKeepKind(b[c]);
    KindsKeepFlag(b, c, b[c] + SelectedBit);
    b[c := b[c] + SelectedBit]
  }

  /** The board with the check bit of cell `c` cleared; the piece kinds stay as they were. */
  function Unchecked(b: seq<Cell>, c: int): (r: seq<Cell>)
    requires 0 <= c < |b|
    ensures |r| == |b| && r[c] == b[c] & !CheckBit
    ensures forall j :: 0 <= j < |b| && j != c ==> r[j] == b[j]
    ensures Kinds(r) == Kinds(b)
  {
    FlagsKeepKind(b[c]);
    KindsKeepFlag(b, c, b[c] & !CheckBit);
    b[c := b[c] & !CheckBit]
  }

  /** The board with the check bit added to cell `c`; the piece kinds stay as they were. */
  function Checked(b: seq<Cell>, c: int): (r: seq<Cell>)
    requires 0 <= c < |b|
    ensures |r| == |b| && r[c] == b[c] + CheckBit
    ensures forall j :: 0 <= j < |b| && j != c ==> r[j] == b[j]
    ensures Kinds(r) == Kinds(b)
  {
    FlagsKeepKind(b[c]);
    KindsKeepFlag(b, c, b[c] + CheckBit);
    b[c := b[c] + CheckBit]
  }

  /** Changing only the flags of one cell leaves every kind as it was. */
  lemma KindsKeepFlag(b: seq<Cell>, c: int, v: Cell)
    requires 0 <= c < |b| && Kind(v) == Kind(b[c])
    ensures Kinds(b[c := v]) == Kinds(b)
  {
    assert forall j :: 0 <= j < |b| ==> Kinds(b[c := v])[j] == Kinds(b)[j];
  }
}
