# Two-player network chess: the engine and the message router

This project models the core of a two-player chess game played over a TCP
connection.

- **The engine** (`src/chess.cpp`) keeps one player's view of the board: 64
  packed cells, where the low byte of a cell is the piece kind and bits 8, 9
  and 11 are the selected, available and check flags. It also keeps the list
  of cells offered to the selected piece, the move history and the turn
  state. A click on a cell either selects a piece or ends the choice:
  - on selection, the engine offers a piece other than the king every
    destination whose tentative move leaves the own king unattacked; the
    king's steps are tested with the king still on its origin, and castling
    by the source's own rule (see "## Findings");
  - on an offered cell, it makes the move, records the move's text,
    marks checks and passes the turn.
- **Moves from the peer** arrive as text in a side-relative notation, and the
  engine applies them to its board.
- **The router** (`src/game.cpp`, `on_message`) dispatches the text messages
  the two peers exchange: greeting, colour negotiation, and the relay of
  moves.

The model has these modules:

- `Board`: cells as 32-bit words (`bv32`), piece kinds, flags, the starting
  layout, and the recursive ray walk `go`/`ray`. The walk is proved to visit
  cells in order and to stop at the first occupied one. It also holds the
  knight offsets.
- `Attack`: the attack test `atacked`, as the source computes it, proved
  equal to an independent geometric description.
- `Generate`: the destinations each piece is offered, as functions of the
  kinds on the board. Each comes with an exact membership characterisation,
  including the self-check filter and castling.
- `Offers`: the step lemmas that connect the engine's loops to those
  functions.
- `Apply`: the boards that `make_move`, the two castling moves and
  `do_move` produce.
- `Notation`: the move text the engine writes and the decoding
  `opponent_move` does, with the round trips between the two sides' frames.
- `Chess`: the class `Engine`. It owns the `position` array and the
  engine's globals. Every operation that changes them is a method proved
  against the functions above. The methods cover:
  - `init`;
  - `add_available`, `next_empty`, `non_empty`;
  - the piece generators;
  - `on_choose_begin`;
  - the apply-move primitives and `write_move`;
  - `on_choose_end`, `on_select_cell`, `opponent_move`.
- `Game`: `on_message` as a function from the connection state, the message
  and the own colour to an action and the new colour.
- `Seqs`: a few generic sequence lemmas.
- `Intended`: the rules the source gets wrong (the king's steps, castling,
  and the pawn and knight parts of the attack test), each with a board that
  shows the difference and a corrected rule with its property proved. The
  engine keeps the rules as written.

The generators in the source hand each cell to a callback while the ray is
walked. The model first computes the walk (`Board.Ray`) and then runs the
callbacks over its cells in the same order. The two orders agree because the
callbacks change only flag bits and never a kind, and the walk reads kinds
only. The methods prove this (`ensures Kinds(position[..]) == ...`).

The model keeps these quirks of the source as written:

- the knight test in `atacked` ignores a knight on cell 0;
- the check and selection bits are added with `+=`, so the 32-bit
  arithmetic is modelled exactly;
- the selected cell is marked even when its piece has no moves;
- a message without a colon passes the whole message on, because
  `npos + 1` wraps round to 0.

## Model

| member | source | states |
|---|---|---|
| Board.FlagsKeepKind | src/chess.cpp:84-88 | Adding or clearing the selected, available or check bit of a cell never changes its piece kind. |
| Board.AtCoordinates | src/chess.cpp:220-222 | The index `y*8+x` of a cell on the board is in 0..63 and gives back `x` as the remainder and `y` as the quotient by 8. |
| Board.Go | src/chess.cpp:96-103 | Every cell the recursive walk reports, empty or occupied, is a cell of the board. |
| Board.GoVisitsInOrder | src/chess.cpp:96-103 | The j-th empty cell the walk reports is exactly j steps out along its direction, on the board and empty. |
| Board.GoStopsAtFirstOccupied | src/chess.cpp:96-103 | The walk stops at the edge, after `lim` steps (never for a negative `lim`), or at the first occupied cell, which it reports and does not go past. |
| Board.Ray | src/chess.cpp:105-117 | The cells a ray in any direction reports are cells of the board. |
| Board.RayVisitsInOrder | src/chess.cpp:105-117 | The j-th empty cell of ray `i` is j steps from the piece in direction `i`, on the board and empty. |
| Board.RayStopsAtFirstOccupied | src/chess.cpp:105-117 | Ray `i` ends at the edge, at its limit, or at the first occupied cell in direction `i`, which it reports as its blocker. |
| Board.RayEmptyIff | src/chess.cpp:96-117 | A cell is reported empty by ray `i` exactly when it lies within the limit in direction `i`, every cell before it is empty, and it is empty. |
| Board.RayBlockerIff | src/chess.cpp:96-117 | A cell is the ray's blocker exactly when it lies within the limit in direction `i`, every cell before it is empty, and it is occupied. |
| Board.RayAvoidsStart | src/chess.cpp:105-117 | A ray never reports the cell it starts from, and the empty cells it reports are empty. |
| Board.KnightPositions | src/chess.cpp:181-191 | Eight entries; the j-th is the index of the j-th knight offset from (x, y) when that is on the board, and -1 otherwise. |
| Board.KnightAvoidsStart | src/chess.cpp:181-191 | No knight entry is the cell it is computed from. |
| Board.Rotated | src/chess.cpp:78-79 | The board as the other side sees it, as Black's starting board is made: cell `c` holds cell `63 - c`. |
| Board.RotatedTwice | src/chess.cpp:78-79 | Reversing the layout twice gives it back, so each side's starting board is the other's rotated. |
| Board.Unselected | src/chess.cpp:415 | The cell loses its selection bit, every other cell keeps its value, and no piece kind on the board changes. |
| Board.Selected | src/chess.cpp:430 | The cell gets the selection bit added, every other cell keeps its value, and no piece kind on the board changes. |
| Board.Unchecked | src/chess.cpp:398 | The cell loses its check bit, every other cell keeps its value, and no piece kind on the board changes. |
| Board.Checked | src/chess.cpp:400 | The cell gets the check bit added, every other cell keeps its value, and no piece kind on the board changes. |
| Attack.ThreatensIffReaches | src/chess.cpp:236-251 | The switch in `atacked` accepts the piece first on ray `i`, `n` steps away, exactly when it is an enemy rook on an orthogonal ray, an enemy bishop on a diagonal, an enemy queen, an enemy king one step away, or an enemy pawn one step away on a forward diagonal. |
| Attack.KnightAttackIffThreat | src/chess.cpp:223-227 | The knight test finds an enemy knight exactly when one stands at a knight offset on the board, at a cell other than 0. |
| Attack.AttackedIffAttackerInSight | src/chess.cpp:220-257 | A cell is reported attacked exactly when an enemy knight stands at a knight offset (cell 0 excepted) or an enemy piece that threatens it along a ray is the first occupied cell on that ray. |
| Generate.Legal | src/chess.cpp:121-163 | The filtered candidates are cell indices, and there are no more of them than candidates. |
| Generate.LegalIff | src/chess.cpp:121-163 | A candidate is kept exactly when its tentative move leaves the own king unattacked. |
| Generate.LegalAppend | src/chess.cpp:121-163 | Filtering candidates one after another gives the concatenation of the filtered parts, in order. |
| Generate.MarkKeepsKinds | src/chess.cpp:84-88 | Marking cells available changes no piece kind. |
| Generate.MarkAt | src/chess.cpp:84-88 | After marking distinct cells, each marked cell holds its old value plus the available bit, and every other cell is unchanged. |
| Generate.UnmarkInside | src/chess.cpp:388-389 | Every offered cell ends with its available bit cleared. |
| Generate.UnmarkOutside | src/chess.cpp:388-389 | A cell that was not offered is left unchanged. |
| Generate.MarkThenUnmark | src/chess.cpp:386-389 | Clearing the offers of a board whose offered cells had no available bit gives back the board before the offers. |
| Generate.RayCands | src/chess.cpp:140-142 | The candidates of a ray are cells of the board that are empty or hold an enemy piece. |
| Generate.RayCandsIff | src/chess.cpp:140-142 | A cell is a candidate of ray `i` exactly when it is in line of sight within the limit and is empty or holds an enemy piece. |
| Generate.SweepCandsIff | src/chess.cpp:175-179 | The candidates of several rays, in order, are exactly the cells that are candidates of one of them. |
| Generate.SlidingMovesExact | src/chess.cpp:175-218 | A rook, bishop or queen is offered exactly the cells in line of sight along one of its directions that are empty or hold an enemy, and whose tentative move leaves the own king unattacked. |
| Generate.ReachableIff | src/chess.cpp:198-204 | Among the knight entries, a cell is a candidate exactly when it is not -1 and is empty or holds an enemy. |
| Generate.KnightCandsExact | src/chess.cpp:193-206 | A knight's candidates are exactly the cells at a knight offset on the board that are empty or hold an enemy. |
| Generate.PawnCandsExact | src/chess.cpp:165-173 | A pawn's candidates are exactly: the empty cell ahead; from row 6, the cell two ahead when both are empty; and each forward diagonal holding an enemy. |
| Generate.UnattackedIff | src/chess.cpp:261-266 | The king keeps a candidate exactly when the enemy does not attack it on the current board. |
| Generate.KingStepsExact | src/chess.cpp:261-266 | The king's one-step offers are exactly the neighbours that are empty or hold an enemy and that the enemy does not attack. |
| Attack.Attacked | src/chess.cpp:220-257 | The attack test as the source computes it; Attack.AttackedIffAttackerInSight gives its meaning. |
| Generate.AnyAttackedIff | src/chess.cpp:272-275 | The castling walk notes an attacked cell exactly when one of the empty cells it passed is attacked. |
| Generate.CastleTargetExact | src/chess.cpp:268-293 | Castling towards ray 1 or 5 offers the cell two from the king, when that is on the board, exactly when no empty cell up to the first occupied one is attacked, and the first occupied cell, if there is one, holds a rook of either colour whose home square starts no recorded move. The king's own cell is not tested, and an edge with no rook qualifies. |
| Generate.PawnCands | src/chess.cpp:165-173 | A pawn's candidates are cells of the board that are empty or hold an enemy; Generate.PawnCandsExact lists them exactly. |
| Generate.KingTargets | src/chess.cpp:259-295 | The king's targets are cells of the board; Generate.KingStepsExact and Generate.CastleTargetExact say which. |
| Generate.Destinations | src/chess.cpp:297-315 | The offered cells are cells of the board; Generate.DestinationsCases and Generate.OfferedMovesAreSafe say which. |
| Generate.DestinationsCases | src/chess.cpp:297-315 | A cell not holding a piece of the side to move offers nothing; the own king offers its steps and castling targets; any other own piece offers its filtered candidates. |
| Generate.OfferedMovesAreSafe | src/chess.cpp:121-163 | Every cell offered to a piece other than the king is empty or an enemy, and moving there leaves the own king unattacked. |
| Apply.MoveBoard | src/chess.cpp:341-352 | An ordinary move changes no cell other than its origin and destination; Apply.MoveOntoCapturable and Apply.MoveOntoOwnPiece give those two. |
| Apply.LongCastleBoard | src/chess.cpp:317-327 | A long castling changes no cell other than the king's two cells and the rook's two cells (the rook two beyond the destination and the cell the king crosses). |
| Apply.ShortCastleBoard | src/chess.cpp:329-339 | A short castling changes no cell other than the king's two cells and the two cells beside the destination. |
| Apply.DoMoveBoard | src/chess.cpp:354-365 | The board after `do_move` has 64 cells; Apply.CastleLayout gives it for a castling and Apply.MoveOntoCapturable for an ordinary move. |
| Apply.MoveOntoCapturable | src/chess.cpp:341-352 | A move onto an empty or enemy cell leaves the destination holding the origin's old value and the origin 0, and moves the kind. |
| Apply.MoveOntoOwnPiece | src/chess.cpp:341-352 | A move onto a cell holding an own piece changes nothing. |
| Apply.CastleLayout | src/chess.cpp:317-365 | A castling move puts the king two cells along, empties its cell, exchanges the cell next to it with the rook's cell, and changes no other cell. |
| Apply.OfferedMoveKeepsKingSafe | src/chess.cpp:354-365 | Making an offered non-castling move of a piece other than the king leaves the own king unattacked. |
| Notation.Square | src/chess.cpp:375-379 | A cell is written as a file letter a..h followed by a rank digit 1..8. |
| Notation.SquareRoundTrip | src/chess.cpp:464-470 | Decoding a square in the frame that wrote it gives back the cell. |
| Notation.SquareAcrossSides | src/chess.cpp:464-470 | A square written by one side and decoded by the other gives cell `63 - c`. |
| Notation.SquareIndexRoundTrip | src/chess.cpp:464-470 | Any file a..h and rank 1..8 decode to a cell, and writing that cell gives back the same two characters. |
| Notation.MoveText | src/chess.cpp:367-384 | The text is a castling token exactly for a castling move, and four characters for an ordinary move. |
| Notation.SquareIndex | src/chess.cpp:464-470 | Any file a..h and rank 1..8 decode to a cell of the board. |
| Notation.RemoteBoard | src/chess.cpp:445-475 | The receiver's board after a received move has 64 cells; Notation.MoveMirrored and Notation.CastleMirrored tie it to the sender's board. |
| Notation.MoveMirrored | src/chess.cpp:463-475 | An ordinary move made by one side and applied by the other to its turned board gives the sender's new board, turned, unless the receiver's `do_move` takes the cells for a castling of its own king. |
| Notation.CastleMirrored | src/chess.cpp:445-462 | A castling from the king's home, sent as its token and applied by the other side to the enemy king, gives the sender's new board, turned. |
| Notation.MoveTextAcrossSides | src/chess.cpp:367-382 | A move text written by one side is four characters, and the other side decodes its origin and destination to the rotated cells. |
| Game.MoveTextChars | src/chess.cpp:367-382 | Every move text uses only the file letters, the rank digits, `0` and `-`. |
| Chess.StartBoardKings | src/chess.cpp:65-80 | Each side starts with its own king on 60 (White) or 59 (Black) and the enemy king on 4 or 3, and each side's starting board is the other's rotated. |
| Chess.Engine.Init | src/chess.cpp:65-80 | The board is the layout for White and its reversal for Black; `wait` is `!whites`; the kings are at home; castling is enabled; the check flags and the selection are cleared. |
| Chess.Engine.CopyLayout | src/chess.cpp:78-79 | The board becomes the starting layout, reversed for Black. |
| Chess.Engine.IsAttacked | src/chess.cpp:220-257 | The loops over the knight cells and the eight rays return exactly the attack test on the current board. |
| Chess.Engine.AddAvailable | src/chess.cpp:84-88 | The cell gets the available bit and is appended to the offers. |
| Chess.Engine.NextEmpty | src/chess.cpp:121-138 | The board is restored after the tentative exchange, and the empty cell is offered exactly when that exchange leaves the own king unattacked. |
| Chess.Engine.NonEmpty | src/chess.cpp:140-163 | The board is restored after the tentative capture, and the cell is offered exactly when it holds an enemy and the capture leaves the own king unattacked. |
| Chess.Engine.SlideEmpties | src/chess.cpp:96-103 | Running `next_empty` over the empty cells a walk reports, in order, offers exactly their safe sub-list and leaves every kind as it was. |
| Chess.Engine.SlideRay | src/chess.cpp:105-117 | A ray with `next_empty` and `non_empty` as its callbacks offers exactly the safe candidates of the ray. |
| Chess.Engine.Sweep | src/chess.cpp:175-179 | The rays of a rook, bishop or queen offer exactly the safe candidates of all its directions, in order, and the result says whether anything is offered. |
| Chess.Engine.Knight | src/chess.cpp:193-206 | The knight offers exactly the safe candidates among its knight cells, in order. |
| Chess.Engine.Pawn | src/chess.cpp:165-173 | The pawn offers exactly its safe candidates: forward steps, then the west and east captures. |
| Chess.Engine.KingRay | src/chess.cpp:261-266 | One step of the king offers the neighbour on ray `i` when it is empty or an enemy and not attacked. |
| Chess.Engine.KingRayStep | src/chess.cpp:261-266 | After ray `i`, the offers are those of rays 1 to `i`, in order. |
| Chess.Engine.KingRays | src/chess.cpp:261-266 | The eight one-step rays offer exactly the king's unattacked neighbours that are empty or enemies. |
| Chess.Engine.AnyMoveFrom | src/chess.cpp:280-285 | The search is true exactly when some recorded move text begins with the given square. |
| Chess.Engine.ScanCastleRay | src/chess.cpp:272-290 | The castling walk notes whether an empty cell on the way is attacked, and whether the first occupied cell is a rook still at home. |
| Chess.Engine.CastleSide | src/chess.cpp:270-292 | One castling ray offers exactly its castling target. |
| Chess.Engine.King | src/chess.cpp:259-295 | The king offers its safe steps and, while castling is enabled, its castling targets; the result says whether anything is offered. |
| Chess.Engine.ChooseBegin | src/chess.cpp:297-315 | The offers are exactly the destinations of the chosen piece, and none for a piece not of the side to move; the result says whether an own piece has any offer. |
| Chess.Engine.PieceMoves | src/chess.cpp:301-311 | The generator chosen by the piece's kind offers exactly that piece's safe candidates. |
| Chess.Engine.MakeMove | src/chess.cpp:341-352 | The board becomes the ordinary-move board. |
| Chess.Engine.MakeLongCastling | src/chess.cpp:317-327 | The board becomes the long-castling board. |
| Chess.Engine.MakeShortCastling | src/chess.cpp:329-339 | The board becomes the short-castling board. |
| Chess.Engine.DoMove | src/chess.cpp:354-365 | The engine castles exactly when castling is enabled, the king moves, and it moves two cells sideways; otherwise it makes an ordinary move. |
| Chess.Engine.WriteMove | src/chess.cpp:367-384 | Exactly one record is appended: the kind now on the destination, and the move text (a castling token, or the two squares in the mover's frame). |
| Chess.Engine.ClearAvailables | src/chess.cpp:388-389 | The available bit of every offered cell is cleared. |
| Chess.Engine.ClearOwnCheck | src/chess.cpp:398 | The own check flag ends false, and the check bit on the king's cell is cleared only when the flag was set. |
| Chess.Engine.MarkEnemyCheck | src/chess.cpp:399-401 | With the sides swapped and restored, the enemy king's cell gets the check bit exactly when it is attacked. |
| Chess.Engine.OnChooseEnd | src/chess.cpp:386-406 | The offers are always cleared. A cell not offered leaves the pieces, history, turn and king state as they were. An offered cell is moved to; exactly one move is recorded and sent to the listener; the king and castling state follow the king; the own check is cleared; the enemy check is marked; the turn passes. |
| Chess.Engine.MoveAndRecord | src/chess.cpp:393-396 | The move is made and recorded; a king moved from `from` has its cell updated and castling ended. |
| Chess.Engine.MarkChecks | src/chess.cpp:398-401 | The own check mark is cleared, and the enemy king is marked exactly when it is attacked. |
| Chess.Engine.MakeOfferedMove | src/chess.cpp:393-403 | Moving to an offered cell leaves the state `on_choose_end` describes, and the offers are untouched. |
| Chess.Engine.NotifyMove | src/chess.cpp:402-403 | The listener receives `move_done:` and the last move's text, and `wait` flips exactly once. |
| Chess.Engine.FinishMove | src/chess.cpp:398-403 | After the move is recorded, the check marks are updated as `MarkChecks` states, the move's text is announced once, and the turn passes. |
| Chess.Engine.Deselect | src/chess.cpp:415 | The selection bit of the last selected cell is cleared. |
| Chess.Engine.EndChoice | src/chess.cpp:419-425 | Ending a choice runs `on_choose_end` from the start cell, then empties the offers and clears the selection. |
| Chess.Engine.BeginChoice | src/chess.cpp:426-432 | Selecting a cell offers its piece's destinations, marks the cell selected even when nothing is offered, and enters phase two exactly when an own piece has an offer. |
| Chess.Engine.OnSelectCell | src/chess.cpp:412-433 | Nothing changes while waiting. In phase two, every available bit and the offers are cleared and the choice ends; in phase one, the cell is selected and its destinations offered. |
| Chess.Engine.OpponentMove | src/chess.cpp:439-483 | A received move is applied exactly when its cells fit the board; otherwise nothing changes. On success: the enemy piece is moved or castled; the enemy king follows it; exactly one move is recorded; the enemy check is cleared; the own king is tested and marked; the turn passes. |
| Chess.Engine.ApplyRemote | src/chess.cpp:439-481 | Applying a fitting received move leaves the state `opponent_move` describes. |
| Chess.Engine.RemoteDoMove | src/chess.cpp:445-475 | A castling token castles the enemy king; a four-character move is decoded in the receiver's frame and made for the enemy's colour; the enemy king follows the piece moved. |
| Chess.Engine.RemoteCastle | src/chess.cpp:445-462 | The enemy king castles from its home with castling forced on; the own king and castling state are restored afterwards. |
| Chess.Engine.MarkRemote | src/chess.cpp:476-479 | The enemy check mark is cleared, the received text is recorded, and the own king is marked exactly when attacked. |
| Chess.Engine.ClearEnemyCheck | src/chess.cpp:476 | The enemy check flag ends false, and its check bit is cleared only when the flag was set. |
| Chess.Engine.RecordMove | src/chess.cpp:477 | Exactly one record is appended: the kind on the destination, and the received text. |
| Chess.Engine.CheckOwnKing | src/chess.cpp:478-479 | The own check flag becomes the attack test on the king's cell, and the cell gets the check bit exactly when it is attacked. |
| Intended.SafeKingSteps | src/chess.cpp:259-266 | The corrected king steps are cells of the board that are empty or hold an enemy. |
| Intended.SafeKingStepsExact | src/chess.cpp:259-266 | A corrected king step is offered exactly when it is a neighbour, empty or an enemy, where the king is not attacked once it has moved there. |
| Intended.SafeKingStepKeepsKingSafe | src/chess.cpp:259-266 | Making a corrected king step with `do_move` is never a castling and leaves the king unattacked on its new cell. |
| Intended.KingStepsIntoCheck | src/chess.cpp:259-266 | As written, the white king on e4 with a black rook on a4 is offered f4, where the rook attacks it after the move; the corrected steps leave f4 out. |
| Intended.IntendedCastleTarget | src/chess.cpp:268-293 | The corrected castling targets are cells of the board. |
| Intended.IntendedCastleTargetExact | src/chess.cpp:268-293 | Corrected castling is offered exactly when an own rook that never left home stands in the corner, at least two empty cells lie between, and the king's cell, the cell it crosses and its destination are not attacked. |
| Intended.CastlesOutOfCheck | src/chess.cpp:268-293 | As written, the white king on e1, in check from a rook on e8, is offered castling to g1; corrected castling is not offered. |
| Intended.CastlesWithoutRook | src/chess.cpp:268-293 | As written, a white king alone on e1 is offered castling to g1; corrected castling is not offered. |
| Intended.AttackSeenAlike | src/chess.cpp:220-257 | With pawns attacking in their direction of travel and no cell skipped, a cell of one side's board is attacked exactly when the turned cell of the other side's board is. |
| Intended.IntendedAgreesOnOwnKing | src/chess.cpp:220-257 | When the side under attack owns the board and no enemy knight stands on cell 0, the source's test and the corrected one agree. |
| Intended.PawnCheckMissed | src/chess.cpp:243-244 | As written, White's board misses the check of the black king on e5 by the pawn on f4, which Black's board shows; the corrected test shows it on both. |
| Intended.KnightCheckMissed | src/chess.cpp:223-227 | As written, White's board misses the check of the white king on b6 by the knight on a8 (cell 0), which Black's board shows; the corrected test shows it on both. |
| Game.FindFrom | src/game.cpp:54 | The search returns the first index at or after `from` where the text occurs, or -1 (`npos`) when there is none. |
| Game.ContainsIff | src/game.cpp:54-69 | `find(t) != npos` holds exactly when `t` occurs in the message. |
| Game.AfterColon | src/game.cpp:61-68 | The text after the first colon is a suffix of the message, preceded by that colon with no colon before it; with no colon, it is the whole message. |
| Game.OnMessage | src/game.cpp:50-91 | Without a connection nothing happens and nothing is read. Otherwise the connection is always read again, and the own colour changes only when a new game starts. |
| Game.GreetingAnswered | src/game.cpp:54-57 | A message containing `Hello` is answered with exactly `color`. |
| Game.MoveDoneForwarded | src/game.cpp:59-64 | A `move_done` message without `Hello` is forwarded as `move:` plus the text after its first colon, and is not applied, although it also contains `move`. |
| Game.MoveApplied | src/game.cpp:66-69 | Any other message containing `move` passes the text after its first colon to the engine. |
| Game.OpponentIff | src/game.cpp:54-69 | The engine receives a move exactly when the message contains `move` but neither `Hello` nor `move_done`. |
| Game.ColorAnswered | src/game.cpp:71-76 | The message `color` is answered with `color:` and the own colour. |
| Game.WhitesTaken | src/game.cpp:78-82 | `color:whites` starts a game as Black, and the own colour becomes `blacks`. |
| Game.BlacksTaken | src/game.cpp:84-88 | `color:blacks` starts a game as White, and the own colour becomes `whites`. |
| Game.NoneOf | src/game.cpp:54-69 | A message without the characters `H`, `_` and `v` takes none of the three search branches. |
| Game.MoveRelayed | src/game.cpp:59-69 | For any move text: the mover's router forwards the engine's `move_done:` message as `move:` with the same text, and the receiver's router hands exactly that text to its engine. |

## Left out

- Rendering, windowing and input are not part of this model. That covers `src/board.cpp`, `src/opengl.cpp`, `src/GLFW_wnd.cpp` and their headers, all of which are foreign library calls.
- The sockets of `src/connection.h`, `src/client.h` and `src/server.h` are not part of this model. Sending a message and reading again are returned by `Game.OnMessage` as an action and a flag.
- The router does not call the engine. `Game.Action.NewGame` stands for the call to `init` (`Chess.Engine.Init`), and `Game.Action.Opponent` for the call to `opponent_move` (`Chess.Engine.OpponentMove`).
- The following `src/game.cpp` functions are window, thread and socket setup or float arithmetic and are not modelled: `on_opponent_move`, `init_internal`, `as_server`, `as_client`, `loop` and `clear`.
- `self_color` is modelled as a string argument. Its value before `as_server` or `as_client` assigns it is not modelled.
- Logging is not modelled. That covers `LOGD`, `LOGI` and `state_to_str` (`src/chess.cpp:52-63`), which only feeds the log.
- `chess::clear` (`src/chess.cpp:485-487`) has an empty body.
- The move listener is not modelled as a function value. What `on_choose_end` hands it is appended to `Chess.Engine`'s `outbox` field.
- `Chess.Engine.Init` takes no listener arguments. `src/chess.h` declares `init` with a second listener that `src/chess.cpp` neither takes nor calls.
- `availables.reserve(64)` only sets capacity and is not modelled.
- Chess.Engine.OpponentMove: some received texts make the source read or write outside the board array, which is undefined behaviour. These are texts shorter than four characters that are not a castling token, and texts whose decoded cells, or the castling cells derived from them, fall outside 0..63. The model refuses such a text with `ok == false` and changes nothing. For ASCII texts, characters that decode to a cell on the board are accepted without further checks, as in the source.
- Notation.SquareIndex: texts are modelled as sequences of characters, and the decoding subtracts their code points. The source subtracts `char` values, which are signed bytes on common platforms, so for non-ASCII bytes its result differs; neither the byte encoding nor the signedness of `char` is modelled.
- Generate.OfferedMovesAreSafe: holds for pieces other than the king only. The source tests each king step with the king still on its origin, and castling by its own rule, so a king move can leave the king attacked (see "## Findings").
- Apply.OfferedMoveKeepsKingSafe: holds for moves of pieces other than the king only, for the same reason.
- Generate.CastleTargetExact: states the source's castling rule, which differs from the game's in four ways. It does not test the king's own cell. It tests every empty cell up to the rook, b1 included. It offers castling at an edge with no rook. It accepts a rook of either colour. See "## Findings".
- Chess.Engine.MarkEnemyCheck: marks the enemy king only for the attacks the source's test finds. A check given by the mover's own pawn, or by a knight on cell 0 of the mover's board, is not marked (see "## Findings").
- Chess.Engine.CastleSide: the source writes outside the board when `pos-2` or `pos+2` is off the board. The model offers only targets on the board. With the king at home while castling is enabled (`Chess.Engine.CastlingAtHome`), the targets are always on the board.
- Chess.Engine.OnSelectCell requires `x` and `y` in 0..7, because the window converts clicks to board coordinates before the call. `Chess.Engine.OnChooseEnd` requires its cell on the board for the same reason.
- Chess.Engine.NextEmpty, Chess.Engine.NonEmpty: the source tests `is_check` first, but both branches do the same thing. The model has one branch.
- Chess.Engine.Init: the model copies the layout before assigning the flags. The source assigns the flags first. The two orders write disjoint state.
- Chess.Engine.OnChooseEnd: `is_check` and `enemy_checked` are set after the write to their cell's check bit rather than before it. The two writes are independent.
- Chess.Engine.OpponentMove: `enemy_checked` is set after its cell's check bit is cleared. The two writes are independent.
- The generators walk each ray first and then run its callbacks over the cells, where the source interleaves the two. The order of offers is the same, and the callbacks are proved to leave every kind unchanged.

## Findings

The engine keeps the behaviour as written. Each corrected rule is defined in
`Intended` beside the source's, with its intended property proved.

| source | as written | input that shows it | evidently intended | confidence | as-written member | corrected member |
|---|---|---|---|---|---|---|
| src/chess.cpp:259-266 | Each king step is tested for attack on the current board, with the king still on its origin. | White's board: white king on e4 (cell 36), black rook on a4 (cell 32). The king is offered f4 (cell 37), and the rook attacks f4 once the king stands there. | A king step is offered only when the king is not attacked on its new cell. | not executed | Intended.KingStepsIntoCheck | Intended.SafeKingStepKeepsKingSafe |
| src/chess.cpp:268-293 | Castling tests the empty cells up to the first occupied one, but not the king's cell; any rook, or none at the edge, qualifies. | White's board: white king on e1 (cell 60), white rook on h1 (cell 63), black rook on e8 (cell 4). The king is in check and is offered g1 (cell 62). A white king alone on e1 is offered g1 too. | Castling needs an own unmoved rook in the corner, and the king's cell, the cell it crosses and its destination must not be attacked. | not executed | Intended.CastlesOutOfCheck | Intended.IntendedCastleTargetExact |
| src/chess.cpp:243-244 | A pawn threatens a cell one row below it (`y-py==1`) whichever side it belongs to, so after the side swap of `on_choose_end` the mover's own pawns are taken to attack backwards. | White's board: black king on e5 (cell 28), white pawn on f4 (cell 37). White's board shows no attack on the king; Black's board, the same position turned, shows one on cell 35. | A pawn attacks in the direction it moves, so both peers agree on every check. | not executed | Intended.PawnCheckMissed | Intended.AttackSeenAlike |
| src/chess.cpp:223-227 | The knight test skips index 0 (`p>0`), which is a cell of the board. | White's board: white king on b6 (cell 17), black knight on a8 (cell 0). White's board shows no attack on the king; Black's board, where the knight is on cell 63, shows one on cell 46. | Only the off-board marker -1 is skipped, so both peers agree on every check. | not executed | Intended.KnightCheckMissed | Intended.AttackSeenAlike |
