/**
 * The move notation the two peers exchange. Each side numbers the cells of
 * its own view of the board (White's view is the standard one, Black's is
 * rotated by half a turn), and writes a cell as a file letter and a rank
 * digit of the standard board; castling is written as a token.
 */
module Notation {
  import opened Board
  import opened Apply

  /** The file letter and rank digit of cell `c` on the board of side `whites`. */
  function Square(whites: bool, c: int): (s: string)
    requires 0 <= c < Cells
    ensures |s| == 2 && 'a' <= s[0] <= 'h' && '1' <= s[1] <= '8'
  {
    if whites then [('a' as int + c % 8) as char, ('0' as int + (8 - c / 8)) as char]
    else [('h' as int - c % 8) as char, ('0' as int + (1 + c / 8)) as char]
  }

  /** The text recorded for a move: a castling token, or the origin's and the destination's squares. */
  function MoveText(choose: Choose, whites: bool, from: int, where: int): (t: string)
    requires 0 <= from < Cells && 0 <= where < Cells
    ensures choose == Move <==> !IsCastleToken(t)
    ensures choose == Move ==> |t| == 4
  {
    match choose
    case LongCastling => "0-0-0"
    case ShortCastling => "0-0"
    case Move => Square(whites, from) + Square(whites, where)
  }

  /** The cell index the receiving side computes from a file and a rank character, by the formula it applies. */
  function SquareIndex(whites: bool, file: char, rank: char): (c: int)
    ensures 'a' <= file <= 'h' && '1' <= rank <= '8' ==> 0 <= c < Cells
  {
    if whites then ('8' as int - rank as int) * 8 + (file as int - 'a' as int)
    else (rank as int - '1' as int) * 8 + ('h' as int - file as int)
  }

  /** Reading a square back on the same side gives the cell it was written from. */
  lemma SquareRoundTrip(whites: bool, c: int)
    requires 0 <= c < Cells
    ensures SquareIndex(whites, Square(whites, c)[0], Square(whites, c)[1]) == c
  {
  }

  /** A square written by one side names, on the other side's rotated board, cell `63 - c`. */
  lemma SquareAcrossSides(whites: bool, c: int)
    requires 0 <= c < Cells
    ensures SquareIndex(whites, Square(!whites, c)[0], Square(!whites, c)[1]) == Cells - 1 - c
  {
  }

  /** Every well-formed square reads as a cell on the board, and writing that cell gives the square back. */
  lemma SquareIndexRoundTrip(whites: bool, file: char, rank: char)
    requires 'a' <= file <= 'h' && '1' <= rank <= '8'
    ensures 0 <= SquareIndex(whites, file, rank) < Cells
    ensures Square(whites, SquareIndex(whites, file, rank)) == [file, rank]
  {
  }

  /**
   * An ordinary move written by one side, read by the other with the
   * formula `opponent_move` applies, names the rotated origin and destination.
   */
  lemma MoveTextAcrossSides(whites: bool, from: int, where: int)
    requires 0 <= from < Cells && 0 <= where < Cells
    ensures var t := MoveText(Move, !whites, from, where);
      && |t| == 4
      && SquareIndex(whites, t[0], t[1]) == Cells - 1 - from
      && SquareIndex(whites, t[2], t[3]) == Cells - 1 - where
  {
    SquareAcrossSides(whites, from);
    SquareAcrossSides(whites, where);
  }

  /** The two castling tokens, which the receiver applies to the sender's king without decoding squares. */
  predicate IsCastleToken(move: string) {
    move == "0-0" || move == "0-0-0"
  }

  /** The origin of a received move on the receiving side `whites`'s board. */
  function RemoteFrom(whites: bool, move: string): int
    requires IsCastleToken(move) || |move| >= 4
  {
    if IsCastleToken(move) then (if whites then 4 else 3)
    else SquareIndex(whites, move[0], move[1])
  }

  /** The destination of a received move on the receiving side `whites`'s board. */
  function RemoteWhere(whites: bool, move: string): int
    requires IsCastleToken(move) || |move| >= 4
  {
    if move == "0-0" then (if whites then 6 else 1)
    else if move == "0-0-0" then (if whites then 2 else 5)
    else SquareIndex(whites, move[2], move[3])
  }

  /**
   * A received move the receiving side can apply: a castling token, or four
   * characters naming cells on the board that `do_move`, run for the sender's
   * colour with the receiver's castling state, indexes within the board.
   */
  predicate RemoteFits(whites: bool, castling: bool, kingPos: int, move: string) {
    || IsCastleToken(move)
    || (|move| >= 4 && DoMoveFits(!whites, castling, kingPos, RemoteWhere(whites, move), RemoteFrom(whites, move)))
  }

  /**
   * The receiver's board after a received move: a castling token castles the
   * sender's king (on `enemyKing`) with castling forced on; any other move
   * runs `do_move` for the sender's colour with the receiver's own castling
   * state and king.
   */
  function RemoteBoard(b: seq<Cell>, whites: bool, castling: bool, kingPos: int, enemyKing: int, move: string): (r: seq<Cell>)
    requires |b| == Cells && RemoteFits(whites, castling, kingPos, move)
    ensures |r| == Cells
  {
    var from, where := RemoteFrom(whites, move), RemoteWhere(whites, move);
    if IsCastleToken(move) then
      assert DoMoveFits(whites, true, enemyKing, where, from);
      DoMoveBoard(b, whites, true, enemyKing, where, from)
    else DoMoveBoard(b, !whites, castling, kingPos, where, from)
  }

  /** Exchanging two cells and then turning the board is turning it and then exchanging the turned cells. */
  lemma RotatedSwap(b: seq<Cell>, p: int, q: int)
    requires |b| == Cells && 0 <= p < Cells && 0 <= q < Cells
    ensures Rotated(Swap(b, p, q)) == Swap(Rotated(b), Cells - 1 - p, Cells - 1 - q)
  {
    assert forall c :: 0 <= c < Cells ==> Rotated(Swap(b, p, q))[c] == Swap(Rotated(b), Cells - 1 - p, Cells - 1 - q)[c];
  }

  /** Writing a cell and then turning the board is turning it and then writing the turned cell. */
  lemma RotatedUpdate(b: seq<Cell>, p: int, v: Cell)
    requires |b| == Cells && 0 <= p < Cells
    ensures Rotated(b[p := v]) == Rotated(b)[Cells - 1 - p := v]
  {
    var turned, written := Rotated(b[p := v]), Rotated(b)[Cells - 1 - p := v];
    assert forall c :: 0 <= c < Cells ==> turned[c] == written[c];
  }

  /**
   * An ordinary move sent by side `sender` and applied by the receiver to
   * its rotated board gives the sender's board after the move, rotated:
   * both peers agree on the position, unless the receiver's own `do_move`
   * takes the received cells for a castling of its king.
   */
  lemma MoveMirrored(b: seq<Cell>, sender: bool, castling: bool, kingPos: int, enemyKing: int, from: int, where: int)
    requires |b| == Cells && 0 <= from < Cells && 0 <= where < Cells
    requires !IsCastle(castling, kingPos, Cells - 1 - where, Cells - 1 - from)
    ensures RemoteFits(!sender, castling, kingPos, MoveText(Move, sender, from, where))
    ensures RemoteBoard(Rotated(b), !sender, castling, kingPos, enemyKing, MoveText(Move, sender, from, where))
      == Rotated(MoveBoard(b, sender, where, from))
  {
    var t := MoveText(Move, sender, from, where);
    MoveTextAcrossSides(!sender, from, where);
    assert !IsCastleToken(t) by { assert |t| == 4; }
    var rb := Rotated(b);
    var f', w' := Cells - 1 - from, Cells - 1 - where;
    assert rb[w'] == b[where] && rb[f'] == b[from];
    if Kind(b[where]) == Void {
      RotatedSwap(b, where, from);
      RotatedUpdate(Swap(b, where, from), from, 0);
    } else if EnemyKind(Kind(b[where]), sender) {
      RotatedUpdate(b, where, b[from]);
      RotatedUpdate(b[where := b[from]], from, 0);
    }
  }

  /**
   * A castling of side `sender`'s king from its home cell, sent as a token
   * and applied by the receiver to the enemy king on the turned home cell,
   * gives the sender's board after the castling, rotated.
   */
  lemma CastleMirrored(b: seq<Cell>, sender: bool, castling: bool, kingPos: int, where: int, from: int, castling': bool, kingPos': int)
    requires |b| == Cells && DoMoveFits(sender, castling, kingPos, where, from)
    requires IsCastle(castling, kingPos, where, from) && from == (if sender then 60 else 59)
    ensures var t := MoveText(DoMoveChoice(sender, castling, kingPos, where, from), sender, from, where);
      && IsCastleToken(t)
      && RemoteFits(!sender, castling', kingPos', t)
      && RemoteBoard(Rotated(b), !sender, castling', kingPos', Cells - 1 - from, t)
        == Rotated(DoMoveBoard(b, sender, castling, kingPos, where, from))
  {
    if DoMoveChoice(sender, castling, kingPos, where, from) == LongCastling {
      RotatedSwap(b, if sender then where - 2 else where + 2, if sender then where + 1 else where - 1);
      var rooked := if sender then Swap(b, where - 2, where + 1) else Swap(b, where + 2, where - 1);
      RotatedSwap(rooked, where, from);
      RotatedUpdate(Swap(rooked, where, from), from, 0);
    } else {
      RotatedSwap(b, if sender then where + 1 else where - 1, if sender then where - 1 else where + 1);
      var rooked := if sender then Swap(b, where + 1, where - 1) else Swap(b, where - 1, where + 1);
      RotatedSwap(rooked, where, from);
      RotatedUpdate(Swap(rooked, where, from), from, 0);
    }
  }
}
