/**
 * What the apply-move primitives do to the board: an ordinary move, the two
 * castling moves, and the dispatch between them. The engine's methods are
 * proved to produce exactly these boards; the lemmas say what they mean for
 * the pieces.
 */
module Apply {
  import opened Board
  import opened Attack
  import opened Generate

  /** Which kind of move was made. */
  datatype Choose = LongCastling | ShortCastling | Move

  /** The board with cells `p` and `q` exchanged. */
  function Swap(b: seq<Cell>, p: int, q: int): (r: seq<Cell>)
    requires |b| == Cells && 0 <= p < Cells && 0 <= q < Cells
    ensures |r| == Cells
  {
    b[p := b[q]][q := b[p]]
  }

  /**
   * An ordinary move of the piece on `from` to `where` by side `whites`: onto
   * an empty cell the two cells are exchanged and the origin is then cleared
   * of everything, flags included; onto an enemy piece the destination is
   * overwritten and the origin cleared; onto anything else nothing happens.
   */
  function MoveBoard(b: seq<Cell>, whites: bool, where: int, from: int): (r: seq<Cell>)
    requires |b| == Cells && 0 <= where < Cells && 0 <= from < Cells
    ensures |r| == Cells
    ensures forall c :: 0 <= c < Cells && c != where && c != from ==> r[c] == b[c]
  {
    if Kind(b[where]) == Void then Swap(b, where, from)[from := 0]
    else if EnemyKind(Kind(b[where]), whites) then b[where := b[from]][from := 0]
    else b
  }

  /** A move onto an empty or enemy cell puts the moving cell there and empties the origin. */
  lemma MoveOntoCapturable(b: seq<Cell>, whites: bool, where: int, from: int)
    requires |b| == Cells && 0 <= where < Cells && 0 <= from < Cells
    requires Capturable(Kinds(b), whites, where)
    ensures MoveBoard(b, whites, where, from) == b[where := b[from]][from := 0]
    ensures Kinds(MoveBoard(b, whites, where, from)) == MovedKinds(Kinds(b), from, where)
  {
    var r := MoveBoard(b, whites, where, from);
    assert r == b[where := b[from]][from := 0];
    assert Kind(0) == Void;
  }

  /** A move onto a piece of one's own side changes nothing. */
  lemma MoveOntoOwnPiece(b: seq<Cell>, whites: bool, where: int, from: int)
    requires |b| == Cells && 0 <= where < Cells && 0 <= from < Cells
    requires OwnKind(Kind(b[where]), whites)
    ensures MoveBoard(b, whites, where, from) == b
  {
  }

  /** The board of a long castling: the rook two cells beyond `where` swaps with the cell next to it, then the king moves. */
  function LongCastleBoard(b: seq<Cell>, whites: bool, where: int, from: int): (r: seq<Cell>)
    requires |b| == Cells && 0 <= where < Cells && 0 <= from < Cells
    requires if whites then 2 <= where < Cells - 1 else 1 <= where < Cells - 2
    ensures |r| == Cells
    ensures var rook, next := if whites then where - 2 else where + 2, if whites then where + 1 else where - 1;
      forall c :: 0 <= c < Cells && c != where && c != from && c != rook && c != next ==> r[c] == b[c]
  {
    var rooked := if whites then Swap(b, where - 2, where + 1) else Swap(b, where + 2, where - 1);
    Swap(rooked, where, from)[from := 0]
  }

  /** The board of a short castling: the rook one cell beyond `where` swaps with the cell the king crosses, then the king moves. */
  function ShortCastleBoard(b: seq<Cell>, whites: bool, where: int, from: int): (r: seq<Cell>)
    requires |b| == Cells && 0 <= where < Cells && 0 <= from < Cells
    requires 1 <= where < Cells - 1
    ensures |r| == Cells
    ensures forall c :: 0 <= c < Cells && c != where && c != from && c != where + 1 && c != where - 1 ==> r[c] == b[c]
  {
    var rooked := if whites then Swap(b, where + 1, where - 1) else Swap(b, where - 1, where + 1);
    Swap(rooked, where, from)[from := 0]
  }

  /** `do_move` castles when castling is enabled and the king moves two cells sideways. */
  predicate IsCastle(castling: bool, kingPos: int, where: int, from: int) {
    castling && kingPos == from && Abs(where - from) == 2
  }

  /** White castles long towards lower indices; Black, whose board is reversed, towards higher ones. */
  function CastleChoice(whites: bool, where: int, from: int): Choose {
    if whites then (if from > where then LongCastling else ShortCastling)
    else (if from > where then ShortCastling else LongCastling)
  }

  /** The castling move chosen for `where` and `from` stays on the board. */
  predicate CastleFits(whites: bool, where: int, from: int) {
    if CastleChoice(whites, where, from) == LongCastling then
      (if whites then 2 <= where < Cells - 1 else 1 <= where < Cells - 2)
    else 1 <= where < Cells - 1
  }

  /** The cells `do_move` indexes all lie on the board. */
  predicate DoMoveFits(whites: bool, castling: bool, kingPos: int, where: int, from: int) {
    && 0 <= where < Cells && 0 <= from < Cells
    && (IsCastle(castling, kingPos, where, from) ==> CastleFits(whites, where, from))
  }

  /** The move `do_move` chooses. */
  function DoMoveChoice(whites: bool, castling: bool, kingPos: int, where: int, from: int): Choose {
    if IsCastle(castling, kingPos, where, from) then CastleChoice(whites, where, from) else Move
  }

  /** The board after `do_move`. */
  function DoMoveBoard(b: seq<Cell>, whites: bool, castling: bool, kingPos: int, where: int, from: int): (r: seq<Cell>)
    requires |b| == Cells && DoMoveFits(whites, castling, kingPos, where, from)
    ensures |r| == Cells
  {
    match DoMoveChoice(whites, castling, kingPos, where, from)
    case LongCastling => LongCastleBoard(b, whites, where, from)
    case ShortCastling => ShortCastleBoard(b, whites, where, from)
    case Move => MoveBoard(b, whites, where, from)
  }

  /**
   * Castling moves the king two cells sideways to `where`, empties its
   * origin, and exchanges the rook's cell (two cells beyond `where` for a
   * long castling, one for a short one) with the cell the king crossed;
   * nothing else changes.
   */
  lemma CastleLayout(b: seq<Cell>, whites: bool, castling: bool, kingPos: int, where: int, from: int)
    requires |b| == Cells && DoMoveFits(whites, castling, kingPos, where, from)
    requires IsCastle(castling, kingPos, where, from)
    ensures var r := DoMoveBoard(b, whites, castling, kingPos, where, from);
      var d := (where - from) / 2;
      var rook := if DoMoveChoice(whites, castling, kingPos, where, from) == LongCastling then where + 2 * d else where + d;
      && (d == 1 || d == -1) && 0 <= rook < Cells
      && r[where] == b[from] && r[from] == 0
      && r[from + d] == b[rook] && r[rook] == b[from + d]
      && forall c :: 0 <= c < Cells && c != where && c != from && c != from + d && c != rook ==> r[c] == b[c]
  {
  }

  /**
   * A cell offered to a piece other than the king, moved to by `do_move`
   * without castling, leaves the own king unattacked.
   */
  lemma OfferedMoveKeepsKingSafe(b: seq<Cell>, whites: bool, kingPos: int, castling: bool, moves: seq<MoveRecord>, x: int, y: int, c: int)
    requires |b| == Cells && 0 <= kingPos < Cells && OnBoard(x, y)
    requires Kind(b[At(x, y)]) != WKing && Kind(b[At(x, y)]) != BKing
    requires c in Destinations(Kinds(b), whites, kingPos, castling, moves, x, y)
    requires !IsCastle(castling, kingPos, c, At(x, y))
    ensures DoMoveFits(whites, castling, kingPos, c, At(x, y))
    ensures !Attacked(Kinds(DoMoveBoard(b, whites, castling, kingPos, c, At(x, y))), whites, kingPos)
  {
    OfferedMovesAreSafe(Kinds(b), whites, kingPos, castling, moves, x, y, c);
    MoveOntoCapturable(b, whites, c, At(x, y));
  }
}
