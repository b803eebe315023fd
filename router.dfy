/**
 * The peer message router `on_message`: the text protocol the two players'
 * connections carry. A message is routed by the first test it passes, in
 * this order: it contains `Hello`, it contains `move_done`, it contains
 * `move`, it is `color`, it is `color:whites`, it is `color:blacks`. The
 * effects on the connection and the engine are returned as an action.
 */
module Game {
  import opened Board
  import opened Apply
  import opened Notation

  const Whites: string := "whites"
  const Blacks: string := "blacks"

  /** `t` occurs in `s` at index `i`. */
  predicate OccursAt(s: string, t: string, i: int) {
    0 <= i && i + |t| <= |s| && s[i..i + |t|] == t
  }

  /** `t` occurs in `s` at some index. */
  ghost predicate Occurs(s: string, t: string) {
    exists i :: OccursAt(s, t, i)
  }

  /**
   * `std::string_view::find(t, from)`: the first index at or after `from`
   * where `t` occurs in `s`, or -1 standing for `npos`.
   */
  function FindFrom(s: string, t: string, from: nat): (r: int)
    ensures r == -1 || (from <= r && OccursAt(s, t, r))
    ensures r == -1 ==> forall i :: from <= i ==> !OccursAt(s, t, i)
    ensures r != -1 ==> forall i :: from <= i < r ==> !OccursAt(s, t, i)
    decreases |s| - from
  {
    if from + |t| > |s| then -1
    else if OccursAt(s, t, from) then from
    else FindFrom(s, t, from + 1)
  }

  /** `s.find(t) != npos`. */
  predicate Contains(s: string, t: string) {
    FindFrom(s, t, 0) != -1
  }

  /** The search finds `t` exactly when it occurs in `s`. */
  lemma ContainsIff(s: string, t: string)
    ensures Contains(s, t) <==> Occurs(s, t)
  {
    var r := FindFrom(s, t, 0);
    if r != -1 {
      assert OccursAt(s, t, r);
    }
  }

  /** Where `t` occurs in `s` at index `i`, the text holds `t`'s characters from `i` on. */
  lemma OccursChars(s: string, t: string, i: int, j: int)
    requires OccursAt(s, t, i) && 0 <= j < |t|
    ensures s[i + j] == t[j]
  {
    assert s[i..i + |t|][j] == s[i + j];
  }

  /**
   * `message.substr(message.find(":") + 1)`: the text after the first
   * colon. With no colon, `npos + 1` wraps round to 0 and the whole message
   * is kept.
   */
  function AfterColon(m: string): (r: string)
    ensures |r| <= |m| && r == m[|m| - |r|..]
    ensures ':' !in m ==> r == m
    ensures ':' in m ==> |r| < |m| && m[|m| - |r| - 1] == ':' && ':' !in m[..|m| - |r| - 1]
  {
    FirstColon(m);
    var colon := FindFrom(m, ":", 0);
    if colon == -1 then m else m[colon + 1..]
  }

  /** The search for `:` finds the first colon of `m`, and finds none exactly when `m` has none. */
  lemma FirstColon(m: string)
    ensures var c := FindFrom(m, ":", 0);
      && (c == -1 <==> ':' !in m)
      && (c != -1 ==> 0 <= c < |m| && m[c] == ':' && ':' !in m[..c])
  {
    forall i
      ensures OccursAt(m, ":", i) <==> 0 <= i < |m| && m[i] == ':'
    {
      OccursCharIff(m, ':', i);
    }
    var c := FindFrom(m, ":", 0);
    if c != -1 {
      assert forall i :: 0 <= i < c ==> m[..c][i] == m[i];
    }
  }

  /** A one-character text `[ch]` occurs at index `i` exactly when the text holds `ch` there. */
  lemma OccursCharIff(m: string, ch: char, i: int)
    ensures OccursAt(m, [ch], i) <==> 0 <= i < |m| && m[i] == ch
  {
    if 0 <= i < |m| {
      assert m[i..i + 1] == [m[i]];
    }
  }

  /** What `on_message` does to the connection or the engine. */
  datatype Action =
    | Idle                      // no branch taken
    | Reply(text: string)       // `connection->send_message`
    | Opponent(move: string)    // `chess::opponent_move`
    | NewGame(whites: bool)     // `chess::init`

  /** The outcome of one message: the action, whether the connection is read again, and the own colour after it. */
  datatype Routed = Routed(action: Action, readAgain: bool, selfColor: string)

  /**
   * `on_message` with connection present when `connected`, and the own
   * colour `selfColor`. A message that takes no branch is still followed by
   * a new read.
   */
  function OnMessage(connected: bool, message: string, selfColor: string): (r: Routed)
    ensures !connected ==> r == Routed(Idle, false, selfColor)
    ensures connected ==> r.readAgain
    ensures r.selfColor != selfColor ==> r.action.NewGame?
  {
    if !connected then Routed(Idle, false, selfColor)
    else if Contains(message, "Hello") then Routed(Reply("color"), true, selfColor)
    else if Contains(message, "move_done") then Routed(Reply("move:" + AfterColon(message)), true, selfColor)
    else if Contains(message, "move") then Routed(Opponent(AfterColon(message)), true, selfColor)
    else if message == "color" then Routed(Reply("color:" + selfColor), true, selfColor)
    else if message == "color:whites" then Routed(NewGame(false), true, Blacks)
    else if message == "color:blacks" then Routed(NewGame(true), true, Whites)
    else Routed(Idle, true, selfColor)
  }

  /** A greeting, wherever it stands in the message, is answered with `color` and nothing else. */
  lemma GreetingAnswered(message: string, selfColor: string)
    requires Occurs(message, "Hello")
    ensures OnMessage(true, message, selfColor) == Routed(Reply("color"), true, selfColor)
  {
    ContainsIff(message, "Hello");
  }

  /**
   * A `move_done` message without a greeting is forwarded as `move:` and
   * the text after its first colon, and is never applied to the own engine;
   * the test comes before the `move` test that the same message passes too.
   */
  lemma MoveDoneForwarded(message: string, selfColor: string)
    requires !Occurs(message, "Hello") && Occurs(message, "move_done")
    ensures OnMessage(true, message, selfColor) == Routed(Reply("move:" + AfterColon(message)), true, selfColor)
    ensures Occurs(message, "move")
  {
    ContainsIff(message, "Hello");
    ContainsIff(message, "move_done");
    var i :| OccursAt(message, "move_done", i);
    assert message[i..i + 4] == message[i..i + 9][..4];
    assert OccursAt(message, "move", i);
  }

  /** Any other message holding `move` hands the text after its first colon to the engine. */
  lemma MoveApplied(message: string, selfColor: string)
    requires !Occurs(message, "Hello") && !Occurs(message, "move_done") && Occurs(message, "move")
    ensures OnMessage(true, message, selfColor) == Routed(Opponent(AfterColon(message)), true, selfColor)
  {
    ContainsIff(message, "Hello");
    ContainsIff(message, "move_done");
    ContainsIff(message, "move");
  }

  /** The engine is handed a move exactly for a message that holds `move` but neither `Hello` nor `move_done`. */
  lemma OpponentIff(connected: bool, message: string, selfColor: string)
    ensures OnMessage(connected, message, selfColor).action.Opponent? <==>
      connected && !Occurs(message, "Hello") && !Occurs(message, "move_done") && Occurs(message, "move")
  {
    ContainsIff(message, "Hello");
    ContainsIff(message, "move_done");
    ContainsIff(message, "move");
  }

  /** The exact request `color` is answered with `color:` and the own colour. */
  lemma ColorAnswered(selfColor: string)
    ensures OnMessage(true, "color", selfColor) == Routed(Reply("color:" + selfColor), true, selfColor)
  {
    NoneOf("color");
  }

  /** `color:whites` starts the own game as Black, and the own colour becomes `blacks`. */
  lemma WhitesTaken(selfColor: string)
    ensures OnMessage(true, "color:whites", selfColor) == Routed(NewGame(false), true, Blacks)
  {
    NoneOf("color:whites");
  }

  /** `color:blacks` starts the own game as White, and the own colour becomes `whites`. */
  lemma BlacksTaken(selfColor: string)
    ensures OnMessage(true, "color:blacks", selfColor) == Routed(NewGame(true), true, Whites)
  {
    NoneOf("color:blacks");
  }

  /** A message without the characters `H`, `_` and `v` takes none of the three search branches. */
  lemma NoneOf(message: string)
    requires 'H' !in message && '_' !in message && 'v' !in message
    ensures !Contains(message, "Hello") && !Contains(message, "move_done") && !Contains(message, "move")
  {
    ContainsIff(message, "Hello");
    ContainsIff(message, "move_done");
    ContainsIff(message, "move");
    if i :| OccursAt(message, "Hello", i) {
      OccursChars(message, "Hello", i, 0);
    }
    if i :| OccursAt(message, "move_done", i) {
      OccursChars(message, "move_done", i, 4);
    }
    if i :| OccursAt(message, "move", i) {
      OccursChars(message, "move", i, 2);
    }
  }

  /** The characters a move text is written with: file letters, rank digits, and `0` and `-` of the castling tokens. */
  predicate NotationChars(n: string) {
    forall i :: 0 <= i < |n| ==> n[i] in "abcdefgh12345678-0"
  }

  /** Every text `write_move` records is written with notation characters only. */
  lemma MoveTextChars(choose: Choose, whites: bool, from: int, where: int)
    requires 0 <= from < Cells && 0 <= where < Cells
    ensures NotationChars(MoveText(choose, whites, from, where))
  {
    var n := MoveText(choose, whites, from, where);
    if choose == Move {
      var a, b := Square(whites, from), Square(whites, where);
      assert n == a + b;
      forall i | 0 <= i < |n|
        ensures n[i] in "abcdefgh12345678-0"
      {
        var ch := if i < 2 then a[i] else b[i - 2];
        assert n[i] == ch;
        assert 'a' <= ch <= 'h' || '1' <= ch <= '8';
      }
    }
  }

  /**
   * The relay of a move between the peers: the `move_done:` message the
   * engine hands its listener for move text `n` is forwarded by the
   * mover's router as `move:` and `n`, and the receiver's router hands
   * exactly `n` to its engine.
   */
  lemma MoveRelayed(n: string, moverColor: string, receiverColor: string)
    requires NotationChars(n)
    ensures OnMessage(true, "move_done:" + n, moverColor) == Routed(Reply("move:" + n), true, moverColor)
    ensures OnMessage(true, "move:" + n, receiverColor) == Routed(Opponent(n), true, receiverColor)
  {
    DoneForwarded(n, moverColor);
    RelayApplied(n, receiverColor);
  }

  /** The mover's half of the relay: `move_done:` and `n` goes out as `move:` and `n`. */
  lemma DoneForwarded(n: string, selfColor: string)
    requires NotationChars(n)
    ensures OnMessage(true, "move_done:" + n, selfColor) == Routed(Reply("move:" + n), true, selfColor)
  {
    var done := "move_done:" + n;
    CharAbsent("move_done:", n, 'H');
    Missing(done, "Hello", 0);
    assert done[..9] == "move_done";
    assert OccursAt(done, "move_done", 0);
    CharAbsent("", n, ':');
    ColonAt(done, 9, n);
    MoveDoneForwarded(done, selfColor);
  }

  /** The receiver's half of the relay: `move:` and `n` hands `n` to the engine. */
  lemma RelayApplied(n: string, selfColor: string)
    requires NotationChars(n)
    ensures OnMessage(true, "move:" + n, selfColor) == Routed(Opponent(n), true, selfColor)
  {
    var relayed := "move:" + n;
    CharAbsent("move:", n, 'H');
    Missing(relayed, "Hello", 0);
    CharAbsent("move:", n, '_');
    Missing(relayed, "move_done", 4);
    assert relayed[..4] == "move";
    assert OccursAt(relayed, "move", 0);
    CharAbsent("", n, ':');
    ColonAt(relayed, 4, n);
    MoveApplied(relayed, selfColor);
  }

  /** A character in neither the prefix `p` nor the notation characters is not in `p` followed by move text `n`. */
  lemma CharAbsent(p: string, n: string, c: char)
    requires NotationChars(n) && c !in p && c !in "abcdefgh12345678-0"
    ensures c !in p + n
  {
  }

  /** A text without the `j`-th character of `t` does not contain `t`. */
  lemma Missing(s: string, t: string, j: int)
    requires 0 <= j < |t| && t[j] !in s
    ensures !Occurs(s, t)
  {
    if i :| OccursAt(s, t, i) {
      OccursChars(s, t, i, j);
    }
  }

  /** A message whose only colon stands at index `k` keeps, after its first colon, the text `n` that follows it. */
  lemma ColonAt(m: string, k: int, n: string)
    requires 0 <= k < |m| && m[k] == ':' && m[k + 1..] == n && ':' !in m[..k]
    requires NotationChars(n)
    ensures AfterColon(m) == n
  {
  }
}
