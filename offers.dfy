/**
 * The bookkeeping behind the generators. Each callback a generator runs
 * appends the cells it offers to `availables` and adds the available bit to
 * each of them, so after a run of callbacks the offers are the offers before
 * followed by the concatenation of what each callback offered, and the board
 * is the board before marked with that concatenation.
 *
 * `Grow` and `Grow3` state that composition once, over plain sequences; the
 * other lemmas split a generator's list (`Legal` of its candidates,
 * `KingSteps`, `KingTargets`) into what one step of the generator offers
 * after what the earlier steps offered.
 */
module Offers {
  import opened Board
  import opened Attack
  import opened Generate
  import opened Seqs

  /**
   * Offering `done` from offers `a` and board `b`, then `added`, is offering
   * their concatenation `total`; the pieces stay where they were.
   */
  lemma Grow(b: seq<Cell>, a: seq<int>, done: seq<int>, added: seq<int>, total: seq<int>,
             a1: seq<int>, p: seq<Cell>, a2: seq<int>, q: seq<Cell>)
    requires |b| == Cells && InRange(done) && InRange(added) && total == done + added
    requires a1 == a + done && p == Mark(b, done)
    requires a2 == a1 + added && q == Mark(p, added)
    ensures a2 == a + total && q == Mark(b, total)
    ensures InRange(total) && Kinds(q) == Kinds(b)
  {
    assert InRange(total) by {
      forall j | 0 <= j < |total|
        ensures 0 <= total[j] < Cells
      {
        if j < |done| {
          assert total[j] == done[j];
        } else {
          assert total[j] == added[j - |done|];
        }
      }
    }
    AppendAssoc(a, done, added);
    assert q == Mark(b, total) by {
      MarkAppend(b, done, added);
    }
    MarkKeepsKinds(b, total);
  }

  /** Three offers in a row are their concatenation. */
  lemma Grow3(b: seq<Cell>, a: seq<int>, s1: seq<int>, s2: seq<int>, s3: seq<int>, total: seq<int>,
              a1: seq<int>, p1: seq<Cell>, a2: seq<int>, p2: seq<Cell>, a3: seq<int>, p3: seq<Cell>)
    requires |b| == Cells && InRange(s1) && InRange(s2) && InRange(s3) && total == s1 + (s2 + s3)
    requires a1 == a + s1 && p1 == Mark(b, s1)
    requires a2 == a1 + s2 && p2 == Mark(p1, s2)
    requires a3 == a2 + s3 && p3 == Mark(p2, s3)
    ensures a3 == a + total && p3 == Mark(b, total)
    ensures InRange(total) && Kinds(p3) == Kinds(b)
  {
    Grow(b, a, s1, s2, s1 + s2, a1, p1, a2, p2);
    AppendAssoc(s1, s2, s3);
    Grow(b, a, s1 + s2, s3, total, a2, p2, a3, p3);
  }

  /** A callback that offers nothing leaves the offers and the board as they are. */
  lemma NoOffer(a: seq<int>, p: seq<Cell>)
    requires |p| == Cells
    ensures a + [] == a && Mark(p, []) == p
  {
    assert a + [] == a;
  }

  /** Filtering a single candidate keeps it exactly when its move is safe. */
  lemma LegalSingle(k: seq<int>, whites: bool, kingPos: int, from: int, c: int)
    requires |k| == Cells && 0 <= kingPos < Cells && 0 <= from < Cells && 0 <= c < Cells
    ensures Legal(k, whites, kingPos, from, [c]) == if SafeMove(k, whites, kingPos, from, c) then [c] else []
  {
    LegalSnoc(k, whites, kingPos, from, [], c);
    assert [] + [c] == [c];
  }

  /** The safe cells among the first `j + 1` cells: those among the first `j`, then the `j`-th when its move is safe. */
  lemma LegalPrefix(k: seq<int>, whites: bool, kingPos: int, from: int, cells: seq<int>, j: int)
    requires |k| == Cells && 0 <= kingPos < Cells && 0 <= from < Cells && InRange(cells) && 0 <= j < |cells|
    ensures Legal(k, whites, kingPos, from, cells[..j + 1])
      == Legal(k, whites, kingPos, from, cells[..j])
         + (if SafeMove(k, whites, kingPos, from, cells[j]) then [cells[j]] else [])
  {
    assert cells[..j + 1] == cells[..j] + [cells[j]];
    LegalSnoc(k, whites, kingPos, from, cells[..j], cells[j]);
  }

  /** `next_empty` on the `j`-th cell a ray passed: the offers grow by that cell when its move is safe. */
  lemma SlideStep(k: seq<int>, whites: bool, kingPos: int, from: int, cells: seq<int>, j: int,
                  a: seq<int>, b: seq<Cell>, a1: seq<int>, p: seq<Cell>, a2: seq<int>, q: seq<Cell>)
    requires |k| == Cells && 0 <= kingPos < Cells && 0 <= from < Cells && InRange(cells) && 0 <= j < |cells|
    requires |b| == Cells
    requires a1 == a + Legal(k, whites, kingPos, from, cells[..j])
    requires p == Mark(b, Legal(k, whites, kingPos, from, cells[..j]))
    requires var added := if SafeMove(k, whites, kingPos, from, cells[j]) then [cells[j]] else [];
      a2 == a1 + added && q == Mark(p, added)
    ensures a2 == a + Legal(k, whites, kingPos, from, cells[..j + 1])
    ensures q == Mark(b, Legal(k, whites, kingPos, from, cells[..j + 1]))
    ensures Kinds(q) == Kinds(b)
  {
    LegalPrefix(k, whites, kingPos, from, cells, j);
    Grow(b, a, Legal(k, whites, kingPos, from, cells[..j]),
         if SafeMove(k, whites, kingPos, from, cells[j]) then [cells[j]] else [],
         Legal(k, whites, kingPos, from, cells[..j + 1]), a1, p, a2, q);
  }

  /**
   * The safe candidates of a ray: the safe empty cells it passed (when the
   * empty-cell callback is not a no-op), then the enemy piece that stopped it
   * when the occupied-cell callback is not a no-op and the capture is safe.
   */
  lemma RaySplit(k: seq<int>, whites: bool, kingPos: int, from: int, i: int, x: int, y: int, lim: int,
                 visitEmpty: bool, visitOccupied: bool)
    requires |k| == Cells && 0 <= kingPos < Cells && 0 <= from < Cells && OnBoard(x, y) && 1 <= i <= 8
    ensures var w := Ray(k, i, x, y, lim);
      Legal(k, whites, kingPos, from, RayCands(k, whites, i, x, y, lim, visitEmpty, visitOccupied))
        == Legal(k, whites, kingPos, from, if visitEmpty then w.empties else [])
           + (if visitOccupied && w.blocker.Some? && EnemyKind(k[w.blocker.value], whites)
                 && SafeMove(k, whites, kingPos, from, w.blocker.value) then [w.blocker.value] else [])
  {
    var w := Ray(k, i, x, y, lim);
    var empties := if visitEmpty then w.empties else [];
    var blocked := if visitOccupied then Blocked(k, whites, w) else [];
    assert RayCands(k, whites, i, x, y, lim, visitEmpty, visitOccupied) == empties + blocked;
    if blocked != [] {
      LegalSingle(k, whites, kingPos, from, w.blocker.value);
    }
    LegalAppend(k, whites, kingPos, from, empties, blocked);
  }

  /**
   * A ray's occupied-cell callback after its empty-cell callbacks: what
   * `non_empty` offered (nothing when that callback is a no-op or the ray met
   * no piece) follows the empty cells, and together they are the ray's safe
   * candidates.
   */
  lemma RayStep(k: seq<int>, whites: bool, kingPos: int, from: int, i: int, x: int, y: int, lim: int,
                visitEmpty: bool, visitOccupied: bool,
                a: seq<int>, b: seq<Cell>, a1: seq<int>, p: seq<Cell>, a2: seq<int>, q: seq<Cell>)
    requires |k| == Cells && 0 <= kingPos < Cells && 0 <= from < Cells && OnBoard(x, y) && 1 <= i <= 8
    requires |b| == Cells
    requires var w := Ray(k, i, x, y, lim);
      var empties := Legal(k, whites, kingPos, from, if visitEmpty then w.empties else []);
      a1 == a + empties && p == Mark(b, empties)
    requires var w := Ray(k, i, x, y, lim);
      var added := if visitOccupied && w.blocker.Some? && EnemyKind(k[w.blocker.value], whites)
                     && SafeMove(k, whites, kingPos, from, w.blocker.value) then [w.blocker.value] else [];
      a2 == a1 + added && q == Mark(p, added)
    ensures a2 == a + Legal(k, whites, kingPos, from, RayCands(k, whites, i, x, y, lim, visitEmpty, visitOccupied))
    ensures q == Mark(b, Legal(k, whites, kingPos, from, RayCands(k, whites, i, x, y, lim, visitEmpty, visitOccupied)))
    ensures Kinds(q) == Kinds(b)
  {
    var w := Ray(k, i, x, y, lim);
    RaySplit(k, whites, kingPos, from, i, x, y, lim, visitEmpty, visitOccupied);
    Grow(b, a, Legal(k, whites, kingPos, from, if visitEmpty then w.empties else []),
         if visitOccupied && w.blocker.Some? && EnemyKind(k[w.blocker.value], whites)
           && SafeMove(k, whites, kingPos, from, w.blocker.value) then [w.blocker.value] else [],
         Legal(k, whites, kingPos, from, RayCands(k, whites, i, x, y, lim, visitEmpty, visitOccupied)),
         a1, p, a2, q);
  }

  /** The safe candidates of the first `j + 1` directions: those of the first `j`, then those of direction `j`'s ray. */
  lemma SweepPrefix(k: seq<int>, whites: bool, kingPos: int, from: int, x: int, y: int, dirs: seq<int>, j: int)
    requires |k| == Cells && 0 <= kingPos < Cells && 0 <= from < Cells && OnBoard(x, y) && 0 <= j < |dirs|
    ensures Legal(k, whites, kingPos, from, SweepCands(k, whites, x, y, dirs[..j + 1]))
      == Legal(k, whites, kingPos, from, SweepCands(k, whites, x, y, dirs[..j]))
         + Legal(k, whites, kingPos, from, RayCands(k, whites, dirs[j], x, y, -1, true, true))
  {
    var front := SweepCands(k, whites, x, y, dirs[..j]);
    var ray := RayCands(k, whites, dirs[j], x, y, -1, true, true);
    assert dirs[..j + 1][..j] == dirs[..j];
    assert SweepCands(k, whites, x, y, dirs[..j + 1]) == front + ray;
    LegalAppend(k, whites, kingPos, from, front, ray);
  }

  /** One more direction of a sliding piece: its ray's safe candidates follow those of the earlier directions. */
  lemma SweepStep(k: seq<int>, whites: bool, kingPos: int, from: int, x: int, y: int, dirs: seq<int>, j: int,
                  a: seq<int>, b: seq<Cell>, a1: seq<int>, p: seq<Cell>, a2: seq<int>, q: seq<Cell>)
    requires |k| == Cells && 0 <= kingPos < Cells && 0 <= from < Cells && OnBoard(x, y) && 0 <= j < |dirs|
    requires |b| == Cells
    requires a1 == a + Legal(k, whites, kingPos, from, SweepCands(k, whites, x, y, dirs[..j]))
    requires p == Mark(b, Legal(k, whites, kingPos, from, SweepCands(k, whites, x, y, dirs[..j])))
    requires var added := Legal(k, whites, kingPos, from, RayCands(k, whites, dirs[j], x, y, -1, true, true));
      a2 == a1 + added && q == Mark(p, added)
    ensures a2 == a + Legal(k, whites, kingPos, from, SweepCands(k, whites, x, y, dirs[..j + 1]))
    ensures q == Mark(b, Legal(k, whites, kingPos, from, SweepCands(k, whites, x, y, dirs[..j + 1])))
    ensures Kinds(q) == Kinds(b)
  {
    SweepPrefix(k, whites, kingPos, from, x, y, dirs, j);
    Grow(b, a, Legal(k, whites, kingPos, from, SweepCands(k, whites, x, y, dirs[..j])),
         Legal(k, whites, kingPos, from, RayCands(k, whites, dirs[j], x, y, -1, true, true)),
         Legal(k, whites, kingPos, from, SweepCands(k, whites, x, y, dirs[..j + 1])), a1, p, a2, q);
  }

  /** What the knight's callbacks offer for one of its cells is that cell's safe candidate, if any. */
  lemma KnightOffer(k: seq<int>, whites: bool, kingPos: int, from: int, v: int)
    requires |k| == Cells && 0 <= kingPos < Cells && 0 <= from < Cells && -1 <= v < Cells
    ensures Legal(k, whites, kingPos, from, if v >= 0 && Capturable(k, whites, v) then [v] else []) ==
      if v < 0 then []
      else if k[v] == Void then (if SafeMove(k, whites, kingPos, from, v) then [v] else [])
      else if EnemyKind(k[v], whites) && SafeMove(k, whites, kingPos, from, v) then [v] else []
  {
    if v >= 0 && Capturable(k, whites, v) {
      LegalSingle(k, whites, kingPos, from, v);
    }
  }

  /**
   * The safe candidates among the knight's first `j + 1` cells: those among
   * the first `j`, then what the callbacks offer for the `j`-th.
   */
  lemma KnightPrefix(k: seq<int>, whites: bool, kingPos: int, from: int, cells: seq<int>, j: int)
    requires |k| == Cells && 0 <= kingPos < Cells && 0 <= from < Cells && 0 <= j < |cells|
    requires forall t :: 0 <= t < |cells| ==> -1 <= cells[t] < Cells
    ensures var v := cells[j];
      Legal(k, whites, kingPos, from, Reachable(k, whites, cells[..j + 1]))
        == Legal(k, whites, kingPos, from, Reachable(k, whites, cells[..j]))
           + (if v < 0 then []
              else if k[v] == Void then (if SafeMove(k, whites, kingPos, from, v) then [v] else [])
              else if EnemyKind(k[v], whites) && SafeMove(k, whites, kingPos, from, v) then [v] else [])
  {
    var v := cells[j];
    var front := Reachable(k, whites, cells[..j]);
    var step := if v >= 0 && Capturable(k, whites, v) then [v] else [];
    assert cells[..j + 1][..j] == cells[..j];
    assert Reachable(k, whites, cells[..j + 1]) == front + step;
    KnightOffer(k, whites, kingPos, from, v);
    LegalAppend(k, whites, kingPos, from, front, step);
  }

  /**
   * The knight's `j`-th cell: nothing when it is off the board (-1),
   * `next_empty` when it is empty and `non_empty` otherwise.
   */
  lemma KnightStep(k: seq<int>, whites: bool, kingPos: int, from: int, cells: seq<int>, j: int,
                   a: seq<int>, b: seq<Cell>, a1: seq<int>, p: seq<Cell>, a2: seq<int>, q: seq<Cell>)
    requires |k| == Cells && 0 <= kingPos < Cells && 0 <= from < Cells && 0 <= j < |cells|
    requires forall t :: 0 <= t < |cells| ==> -1 <= cells[t] < Cells
    requires |b| == Cells
    requires a1 == a + Legal(k, whites, kingPos, from, Reachable(k, whites, cells[..j]))
    requires p == Mark(b, Legal(k, whites, kingPos, from, Reachable(k, whites, cells[..j])))
    requires var v := cells[j];
      var added := if v < 0 then []
        else if k[v] == Void then (if SafeMove(k, whites, kingPos, from, v) then [v] else [])
        else if EnemyKind(k[v], whites) && SafeMove(k, whites, kingPos, from, v) then [v] else [];
      a2 == a1 + added && q == Mark(p, added)
    ensures a2 == a + Legal(k, whites, kingPos, from, Reachable(k, whites, cells[..j + 1]))
    ensures q == Mark(b, Legal(k, whites, kingPos, from, Reachable(k, whites, cells[..j + 1])))
    ensures Kinds(q) == Kinds(b)
  {
    var v := cells[j];
    KnightPrefix(k, whites, kingPos, from, cells, j);
    Grow(b, a, Legal(k, whites, kingPos, from, Reachable(k, whites, cells[..j])),
         if v < 0 then []
         else if k[v] == Void then (if SafeMove(k, whites, kingPos, from, v) then [v] else [])
         else if EnemyKind(k[v], whites) && SafeMove(k, whites, kingPos, from, v) then [v] else [],
         Legal(k, whites, kingPos, from, Reachable(k, whites, cells[..j + 1])), a1, p, a2, q);
  }

  /** The pawn's safe candidates: those of its ray ahead, then of its west and east diagonals. */
  lemma PawnSplit(k: seq<int>, whites: bool, kingPos: int, from: int, x: int, y: int)
    requires |k| == Cells && 0 <= kingPos < Cells && 0 <= from < Cells && OnBoard(x, y)
    ensures Legal(k, whites, kingPos, from, PawnCands(k, whites, x, y))
      == Legal(k, whites, kingPos, from, RayCands(k, whites, 3, x, y, if y == 6 then 2 else 1, true, false))
         + (Legal(k, whites, kingPos, from, RayCands(k, whites, 2, x, y, 1, false, true))
            + Legal(k, whites, kingPos, from, RayCands(k, whites, 4, x, y, 1, false, true)))
  {
    var ahead := RayCands(k, whites, 3, x, y, if y == 6 then 2 else 1, true, false);
    var west := RayCands(k, whites, 2, x, y, 1, false, true);
    var east := RayCands(k, whites, 4, x, y, 1, false, true);
    LegalAppend(k, whites, kingPos, from, ahead, west);
    LegalAppend(k, whites, kingPos, from, ahead + west, east);
    var la := Legal(k, whites, kingPos, from, ahead);
    var lw := Legal(k, whites, kingPos, from, west);
    var le := Legal(k, whites, kingPos, from, east);
    AppendAssoc(la, lw, le);
  }

  /** The pawn's three rays, ahead, west and east, offer its safe candidates. */
  lemma PawnSteps(k: seq<int>, whites: bool, kingPos: int, from: int, x: int, y: int,
                  a: seq<int>, b: seq<Cell>, a1: seq<int>, p1: seq<Cell>, a2: seq<int>, p2: seq<Cell>,
                  a3: seq<int>, p3: seq<Cell>)
    requires |k| == Cells && 0 <= kingPos < Cells && 0 <= from < Cells && OnBoard(x, y)
    requires |b| == Cells
    requires var ahead := Legal(k, whites, kingPos, from, RayCands(k, whites, 3, x, y, if y == 6 then 2 else 1, true, false));
      a1 == a + ahead && p1 == Mark(b, ahead)
    requires var west := Legal(k, whites, kingPos, from, RayCands(k, whites, 2, x, y, 1, false, true));
      a2 == a1 + west && p2 == Mark(p1, west)
    requires var east := Legal(k, whites, kingPos, from, RayCands(k, whites, 4, x, y, 1, false, true));
      a3 == a2 + east && p3 == Mark(p2, east)
    ensures a3 == a + Legal(k, whites, kingPos, from, PawnCands(k, whites, x, y))
    ensures p3 == Mark(b, Legal(k, whites, kingPos, from, PawnCands(k, whites, x, y)))
    ensures Kinds(p3) == Kinds(b)
  {
    PawnSplit(k, whites, kingPos, from, x, y);
    Grow3(b, a, Legal(k, whites, kingPos, from, RayCands(k, whites, 3, x, y, if y == 6 then 2 else 1, true, false)),
          Legal(k, whites, kingPos, from, RayCands(k, whites, 2, x, y, 1, false, true)),
          Legal(k, whites, kingPos, from, RayCands(k, whites, 4, x, y, 1, false, true)),
          Legal(k, whites, kingPos, from, PawnCands(k, whites, x, y)), a1, p1, a2, p2, a3, p3);
  }

  /** The unattacked cells among the first `j + 1`: those among the first `j`, then the `j`-th when unattacked. */
  lemma UnattackedPrefix(k: seq<int>, whites: bool, cells: seq<int>, j: int)
    requires |k| == Cells && InRange(cells) && 0 <= j < |cells|
    ensures Unattacked(k, whites, cells[..j + 1])
      == Unattacked(k, whites, cells[..j]) + (if Attacked(k, whites, cells[j]) then [] else [cells[j]])
  {
    assert cells[..j + 1][..j] == cells[..j];
  }

  /** The king's `j`-th empty neighbour along a ray: offered when the enemy does not attack it. */
  lemma GuardStep(k: seq<int>, whites: bool, cells: seq<int>, j: int,
                  a: seq<int>, b: seq<Cell>, a1: seq<int>, p: seq<Cell>, a2: seq<int>, q: seq<Cell>)
    requires |k| == Cells && InRange(cells) && 0 <= j < |cells| && |b| == Cells
    requires a1 == a + Unattacked(k, whites, cells[..j]) && p == Mark(b, Unattacked(k, whites, cells[..j]))
    requires var added := if Attacked(k, whites, cells[j]) then [] else [cells[j]];
      a2 == a1 + added && q == Mark(p, added)
    ensures a2 == a + Unattacked(k, whites, cells[..j + 1])
    ensures q == Mark(b, Unattacked(k, whites, cells[..j + 1]))
    ensures Kinds(q) == Kinds(b)
  {
    UnattackedPrefix(k, whites, cells, j);
    Grow(b, a, Unattacked(k, whites, cells[..j]), if Attacked(k, whites, cells[j]) then [] else [cells[j]],
         Unattacked(k, whites, cells[..j + 1]), a1, p, a2, q);
  }

  /**
   * The king's unattacked candidates along ray `i`: the unattacked empty
   * neighbour, then the enemy piece next to it when the enemy does not defend it.
   */
  lemma GuardSplit(k: seq<int>, whites: bool, i: int, x: int, y: int)
    requires |k| == Cells && OnBoard(x, y) && 1 <= i <= 8
    ensures var w := Ray(k, i, x, y, 1);
      Unattacked(k, whites, RayCands(k, whites, i, x, y, 1, true, true))
        == Unattacked(k, whites, w.empties)
           + (if w.blocker.Some? && EnemyKind(k[w.blocker.value], whites) && !Attacked(k, whites, w.blocker.value)
              then [w.blocker.value] else [])
  {
    var w := Ray(k, i, x, y, 1);
    RayVisitsInOrder(k, i, x, y, 1);
    var blocked := Blocked(k, whites, w);
    assert RayCands(k, whites, i, x, y, 1, true, true) == w.empties + blocked;
    if blocked != [] {
      assert blocked[..0] == [];
    }
    UnattackedAppend(k, whites, w.empties, blocked);
  }

  /**
   * The king's occupied neighbour along ray `i`, after its empty ones: it is
   * offered when it is an enemy piece the enemy does not defend.
   */
  lemma GuardRayStep(k: seq<int>, whites: bool, i: int, x: int, y: int,
                     a: seq<int>, b: seq<Cell>, a1: seq<int>, p: seq<Cell>, a2: seq<int>, q: seq<Cell>)
    requires |k| == Cells && OnBoard(x, y) && 1 <= i <= 8 && |b| == Cells
    requires var w := Ray(k, i, x, y, 1);
      a1 == a + Unattacked(k, whites, w.empties) && p == Mark(b, Unattacked(k, whites, w.empties))
    requires var w := Ray(k, i, x, y, 1);
      var added := if w.blocker.Some? && EnemyKind(k[w.blocker.value], whites) && !Attacked(k, whites, w.blocker.value)
                   then [w.blocker.value] else [];
      a2 == a1 + added && q == Mark(p, added)
    ensures a2 == a + Unattacked(k, whites, RayCands(k, whites, i, x, y, 1, true, true))
    ensures q == Mark(b, Unattacked(k, whites, RayCands(k, whites, i, x, y, 1, true, true)))
    ensures Kinds(q) == Kinds(b)
  {
    var w := Ray(k, i, x, y, 1);
    GuardSplit(k, whites, i, x, y);
    Grow(b, a, Unattacked(k, whites, w.empties),
         if w.blocker.Some? && EnemyKind(k[w.blocker.value], whites) && !Attacked(k, whites, w.blocker.value)
         then [w.blocker.value] else [],
         Unattacked(k, whites, RayCands(k, whites, i, x, y, 1, true, true)), a1, p, a2, q);
  }

  /** The king's steps in directions 1 to `i`: the steps of directions 1 to `i - 1`, then ray `i`'s. */
  lemma KingStep(k: seq<int>, whites: bool, x: int, y: int, i: int,
                 a: seq<int>, b: seq<Cell>, a1: seq<int>, p: seq<Cell>, a2: seq<int>, q: seq<Cell>)
    requires |k| == Cells && OnBoard(x, y) && 1 <= i <= 8 && |b| == Cells
    requires a1 == a + KingSteps(k, whites, x, y, i - 1) && p == Mark(b, KingSteps(k, whites, x, y, i - 1))
    requires var added := Unattacked(k, whites, RayCands(k, whites, i, x, y, 1, true, true));
      a2 == a1 + added && q == Mark(p, added)
    ensures a2 == a + KingSteps(k, whites, x, y, i) && q == Mark(b, KingSteps(k, whites, x, y, i))
    ensures Kinds(q) == Kinds(b)
  {
    KingStepsSnoc(k, whites, x, y, i);
    Grow(b, a, KingSteps(k, whites, x, y, i - 1), Unattacked(k, whites, RayCands(k, whites, i, x, y, 1, true, true)),
         KingSteps(k, whites, x, y, i), a1, p, a2, q);
  }

  /** The king's targets while castling is enabled: its steps, then the castling destinations west and east. */
  lemma KingCastles(k: seq<int>, whites: bool, moves: seq<MoveRecord>, x: int, y: int,
                    a: seq<int>, b: seq<Cell>, a1: seq<int>, p1: seq<Cell>, a2: seq<int>, p2: seq<Cell>,
                    a3: seq<int>, p3: seq<Cell>)
    requires |k| == Cells && OnBoard(x, y) && |b| == Cells
    requires a1 == a + KingSteps(k, whites, x, y, 8) && p1 == Mark(b, KingSteps(k, whites, x, y, 8))
    requires a2 == a1 + CastleTarget(k, whites, moves, 1, x, y) && p2 == Mark(p1, CastleTarget(k, whites, moves, 1, x, y))
    requires a3 == a2 + CastleTarget(k, whites, moves, 5, x, y) && p3 == Mark(p2, CastleTarget(k, whites, moves, 5, x, y))
    ensures a3 == a + KingTargets(k, whites, true, moves, x, y)
    ensures p3 == Mark(b, KingTargets(k, whites, true, moves, x, y))
    ensures Kinds(p3) == Kinds(b)
  {
    Grow3(b, a, KingSteps(k, whites, x, y, 8), CastleTarget(k, whites, moves, 1, x, y), CastleTarget(k, whites, moves, 5, x, y),
          KingTargets(k, whites, true, moves, x, y), a1, p1, a2, p2, a3, p3);
  }

  /** The king's targets while castling is disabled: its steps alone. */
  lemma KingStays(k: seq<int>, whites: bool, moves: seq<MoveRecord>, x: int, y: int, a: seq<int>, b: seq<Cell>, a1: seq<int>, p1: seq<Cell>)
    requires |k| == Cells && OnBoard(x, y) && |b| == Cells
    requires a1 == a + KingSteps(k, whites, x, y, 8) && p1 == Mark(b, KingSteps(k, whites, x, y, 8))
    ensures a1 == a + KingTargets(k, whites, false, moves, x, y)
    ensures p1 == Mark(b, KingTargets(k, whites, false, moves, x, y))
    ensures Kinds(p1) == Kinds(b)
  {
    var steps := KingSteps(k, whites, x, y, 8);
    assert steps + [] == steps;
    MarkKeepsKinds(b, steps);
  }
}
