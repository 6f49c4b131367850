/** The client game controller (src/index.ts): the `Game` class that owns
    the typed-letter buffer, the full-row override, the remaining override
    attempts and the history, and keeps the board and the keyboard in step.
    The `fetch` round trip is split in two: `SubmitGuess` builds the request
    and `HandleGuessResponse` applies the decoded response. Callbacks and
    on-screen messages become returned events. */
module Client {
  import opened Basics
  import opened Board
  import opened Keyboard

  /** The fields of `Game` that its methods read and write. */
  datatype Engine = Engine(
    currentGuess: seq<string>,
    shape: Option<Shape>,
    pastGuesses: seq<SrordleAnswer>,
    requestedFull: bool,
    remaining: int,
    total: int,
    gameOver: bool)

  /** What the controller tells the page: the submit and count-changed
      callbacks and the three message cards. */
  datatype Event =
    | GuessesSubmitted(answers: seq<SrordleAnswer>)
    | AttemptsChanged(remaining: int)
    | ShowError(message: string)
    | ShowWin
    | ShowLose

  /** The decoded body of `/api/guess` (`AddGuessResponse`); absent fields are None / false. */
  datatype GuessResponse = GuessResponse(answer: Option<seq<LetterAnswer>>, won: bool, error: Option<string>)

  /** The body `submitGuess` posts. */
  datatype GuessRequest = GuessRequest(guess: string, tzOffset: int, useFull: bool, guessIndex: nat)

  /** A method that either finishes or throws an `Error` with a message. */
  datatype Outcome = Done | Threw(message: string)

  /** The day the client plays, as `GameDate` holds it. */
  datatype GameDate = GameDate(str: string, tzOffset: int)

  /** `asKey`: the local-storage key of a value for this day. */
  function AsKey(gd: GameDate, prefix: string): (key: string)
    ensures |key| == |prefix| + 1 + |gd.str|
    ensures key[..|prefix|] == prefix && key[|prefix|] == ':' && key[|prefix| + 1..] == gd.str
  {
    prefix + ":" + gd.str
  }

  /** Keys of one day differ exactly when their prefixes do. */
  lemma AsKeySeparatesPrefixes(gd: GameDate, p: string, q: string)
    ensures AsKey(gd, p) == AsKey(gd, q) <==> p == q
  {
    if AsKey(gd, p) == AsKey(gd, q) {
      assert |p| == |q|;
      assert p == AsKey(gd, p)[..|p|];
    }
  }

  /** Every row of the shape is seven columns wide. */
  predicate WellShaped(shape: Shape) {
    forall r :: 0 <= r < |shape| ==> |shape[r]| == WordLength
  }

  /** `currentRowLength`: how many letters the current row takes. */
  function RowLength(e: Engine): Result<nat, string> {
    if e.shape.None? then Failure("no shape was set")
    else
      var k := NonRequestedFullCount(e.pastGuesses);
      if k >= |e.shape.value| || e.requestedFull then Success(WordLength)
      else Success(TrueCount(e.shape.value[k]))
  }

  /** The row length is at most seven, and exactly seven while the override is armed. */
  lemma RowLengthBounds(e: Engine)
    requires e.shape.Some? && WellShaped(e.shape.value)
    ensures RowLength(e).Success? && RowLength(e).value <= WordLength
    ensures e.requestedFull ==> RowLength(e) == Success(WordLength)
  {
  }

  /** Without a shape the row length throws, and so does everything built on it. */
  lemma RowLengthNeedsShape(e: Engine)
    ensures RowLength(e).Failure? <==> e.shape.None?
  {
  }

  /** An override guess does not move the pointer into the shape: the row
      the player was on is still the next one ("we just go to it after"). */
  lemma OverrideGuessKeepsRow(e: Engine, answers: seq<LetterAnswer>)
    requires !e.requestedFull
    ensures RowLength(e.(pastGuesses := e.pastGuesses + [SrordleAnswer(answers, true)])) == RowLength(e)
  {
    NonRequestedFullCountAppend(e.pastGuesses, SrordleAnswer(answers, true));
  }

  /** A normal guess moves on to the next row of the shape. */
  lemma NormalGuessAdvancesRow(e: Engine, answers: seq<LetterAnswer>)
    requires e.shape.Some? && !e.requestedFull
    requires NonRequestedFullCount(e.pastGuesses) + 1 < |e.shape.value|
    ensures RowLength(e.(pastGuesses := e.pastGuesses + [SrordleAnswer(answers, false)])) ==
      Success(TrueCount(e.shape.value[NonRequestedFullCount(e.pastGuesses) + 1]))
  {
    NonRequestedFullCountAppend(e.pastGuesses, SrordleAnswer(answers, false));
  }

  /** `addLetter`: the row length is computed first (and may throw), then
      the letter is appended unless the row is full or the game is over. */
  function AddLetterStep(e: Engine, letter: string): Result<Engine, string> {
    match RowLength(e)
    case Failure(msg) => Failure(msg)
    case Success(n) =>
      if |e.currentGuess| >= n || e.gameOver then Success(e)
      else Success(e.(currentGuess := e.currentGuess + [letter]))
  }

  /** A letter is appended exactly when the game is running and the row has
      room; otherwise nothing changes. */
  lemma AddLetterAppendsOrNothing(e: Engine, letter: string)
    requires e.shape.Some?
    ensures AddLetterStep(e, letter).Success?
    ensures var e2 := AddLetterStep(e, letter).value;
      (e2 != e <==> !e.gameOver && |e.currentGuess| < RowLength(e).value) &&
      (e2 != e ==> e2 == e.(currentGuess := e.currentGuess + [letter])) &&
      (e2 == e || e2.currentGuess == e.currentGuess + [letter])
  {
    if !e.gameOver && |e.currentGuess| < RowLength(e).value {
      assert |AddLetterStep(e, letter).value.currentGuess| == |e.currentGuess| + 1;
    }
  }

  /** Typing never overfills the row. */
  lemma AddLetterNeverOverflows(e: Engine, letter: string)
    requires e.shape.Some? && |e.currentGuess| <= RowLength(e).value
    ensures AddLetterStep(e, letter).Success?
    ensures |AddLetterStep(e, letter).value.currentGuess| <= RowLength(AddLetterStep(e, letter).value).value
  {
  }

  /** `deleteLetter`: pop the last letter unless the game is over (pop on an empty buffer does nothing). */
  function DeleteLetterStep(e: Engine): Engine {
    if e.gameOver || e.currentGuess == [] then e
    else e.(currentGuess := e.currentGuess[..|e.currentGuess| - 1])
  }

  /** Only the last letter goes, and only while the game runs. */
  lemma DeleteLetterRemovesOnlyTheLast(e: Engine)
    ensures var e2 := DeleteLetterStep(e);
      (e.gameOver || e.currentGuess == [] ==> e2 == e) &&
      (!e.gameOver && e.currentGuess != [] ==>
        e2.currentGuess + [e.currentGuess[|e.currentGuess| - 1]] == e.currentGuess &&
        e2 == e.(currentGuess := e2.currentGuess))
  {
  }

  /** Deleting undoes typing. */
  lemma DeleteUndoesAdd(e: Engine, letter: string)
    requires AddLetterStep(e, letter).Success? && AddLetterStep(e, letter).value != e
    ensures DeleteLetterStep(AddLetterStep(e, letter).value) == e
  {
    var e2 := AddLetterStep(e, letter).value;
    assert e2.currentGuess[..|e2.currentGuess| - 1] == e.currentGuess;
  }

  /** `handleRequestedFull`: empty the buffer, flip the override, and move
      one attempt out of (arming) or back into (disarming) the counter. */
  function ToggleStep(e: Engine): Engine {
    e.(currentGuess := [], requestedFull := !e.requestedFull,
       remaining := if !e.requestedFull then e.remaining - 1 else e.remaining + 1)
  }

  /** Two toggles restore the flag and the counter; only the buffer stays empty. */
  lemma ToggleTwiceRestores(e: Engine)
    ensures ToggleStep(ToggleStep(e)) == e.(currentGuess := [])
  {
  }

  /** Arming spends one attempt; while the page keeps the button enabled
      only for a positive count, the counter never goes negative. */
  lemma ToggleKeepsCounterNonNegative(e: Engine)
    requires e.remaining > 0
    ensures ToggleStep(e).remaining >= 0
    ensures ToggleStep(e).requestedFull <==> !e.requestedFull
    ensures ToggleStep(e).remaining == e.remaining + (if e.requestedFull then 1 else -1)
  {
  }

  /** The letters of the buffer joined into one string. */
  function Join(buf: seq<string>): string {
    if buf == [] then "" else Join(buf[..|buf| - 1]) + buf[|buf| - 1]
  }

  lemma {:induction false} JoinLetters(buf: seq<string>)
    requires forall k :: 0 <= k < |buf| ==> |buf[k]| == 1
    ensures |Join(buf)| == |buf|
    ensures forall k :: 0 <= k < |buf| ==> Join(buf)[k] == buf[k][0]
    decreases |buf|
  {
    if buf != [] {
      JoinLetters(buf[..|buf| - 1]);
    }
  }

  /** `submitGuess` before the network: no request once the game is over. */
  function SubmitRequest(e: Engine, gd: GameDate): Option<GuessRequest> {
    if e.gameOver then None
    else Some(GuessRequest(Join(e.currentGuess), gd.tzOffset, e.requestedFull, NonRequestedFullCount(e.pastGuesses)))
  }

  /** The index sent is the count of non-override guesses, whatever the override flag. */
  lemma GuessIndexIgnoresOverride(e: Engine, gd: GameDate, armed: bool)
    requires !e.gameOver
    ensures SubmitRequest(e, gd).Some? && SubmitRequest(e.(requestedFull := armed), gd).Some?
    ensures SubmitRequest(e.(requestedFull := armed), gd).value.guessIndex == SubmitRequest(e, gd).value.guessIndex
    ensures SubmitRequest(e, gd).value.guessIndex <= |e.pastGuesses|
    ensures SubmitRequest(e.(requestedFull := armed), gd).value.useFull == armed
  {
  }

  /** The response handler after `fetch` resolves, for the `useFull` and
      `guessIndex` captured when the request was built. */
  function ResponseStep(e: Engine, useFull: bool, guessIndex: nat, resp: GuessResponse): (Engine, seq<Event>) {
    if resp.error.Some? && resp.error.value != "" then (e, [ShowError(resp.error.value)])
    else
      var h := if resp.answer.Some? then e.pastGuesses + [SrordleAnswer(resp.answer.value, useFull)] else e.pastGuesses;
      var submitted := if resp.answer.Some? then [GuessesSubmitted(h)] else [];
      var e1 := e.(pastGuesses := h, requestedFull := false, currentGuess := []);
      var counted := if useFull || (e.shape.Some? && guessIndex >= |e.shape.value|) then [AttemptsChanged(e.remaining)] else [];
      if resp.won then (e1.(gameOver := true), submitted + counted + [ShowWin])
      else if (e.shape.Some? && |h| >= |e.shape.value| + e.total) || e.remaining == 0 then
        (e1.(gameOver := true), submitted + counted + [ShowLose])
      else (e1, submitted + counted)
  }

  /** A non-empty error leaves the whole state as it was and only shows the message. */
  lemma ErrorResponseChangesNothing(e: Engine, useFull: bool, guessIndex: nat, resp: GuessResponse)
    requires resp.error.Some? && resp.error.value != ""
    ensures ResponseStep(e, useFull, guessIndex, resp).0 == e
    ensures ResponseStep(e, useFull, guessIndex, resp).1 == [ShowError(resp.error.value)]
  {
  }

  /** Any other response appends one guess iff it carries an answer, tagged
      with the captured override flag, then disarms and clears the buffer. */
  lemma ResponseRecordsTheAnswer(e: Engine, useFull: bool, guessIndex: nat, resp: GuessResponse)
    requires resp.error.None? || resp.error.value == ""
    ensures var e2 := ResponseStep(e, useFull, guessIndex, resp).0;
      |e2.pastGuesses| == |e.pastGuesses| + (if resp.answer.Some? then 1 else 0) &&
      e2.pastGuesses[..|e.pastGuesses|] == e.pastGuesses &&
      (resp.answer.Some? ==> e2.pastGuesses[|e.pastGuesses|] == SrordleAnswer(resp.answer.value, useFull)) &&
      !e2.requestedFull && e2.currentGuess == [] &&
      e2.shape == e.shape && e2.remaining == e.remaining && e2.total == e.total
  {
  }

  /** The game ends on a win, when the history reaches the shape's rows plus
      the total override attempts, or when no override attempts remain; it
      never restarts. */
  lemma ResponseGameOverIff(e: Engine, useFull: bool, guessIndex: nat, resp: GuessResponse)
    requires resp.error.None? || resp.error.value == ""
    ensures var e2 := ResponseStep(e, useFull, guessIndex, resp).0;
      e2.gameOver <==> (e.gameOver || resp.won ||
        (e.shape.Some? && |e2.pastGuesses| >= |e.shape.value| + e.total) || e.remaining == 0)
    ensures var ev := ResponseStep(e, useFull, guessIndex, resp).1;
      (ShowWin in ev <==> resp.won) && (ShowLose in ev ==> !resp.won)
  {
  }

  /** Once the game is over, typing, deleting and submitting do nothing. */
  lemma GameOverIsFinal(e: Engine, letter: string, gd: GameDate)
    requires e.gameOver
    ensures AddLetterStep(e, letter).Success? ==> AddLetterStep(e, letter).value == e
    ensures DeleteLetterStep(e) == e
    ensures SubmitRequest(e, gd).None?
  {
  }

  /** While a shape is set, the history holds at most the shape's rows plus
      the total override attempts, and reaching that bound ends the game. */
  predicate HistoryBounded(e: Engine) {
    e.shape.Some? ==>
      |e.pastGuesses| <= |e.shape.value| + e.total &&
      (!e.gameOver ==> |e.pastGuesses| < |e.shape.value| + e.total)
  }

  /** Answering a running game keeps the bound. */
  lemma ResponseKeepsHistoryBounded(e: Engine, useFull: bool, guessIndex: nat, resp: GuessResponse)
    requires HistoryBounded(e) && !e.gameOver
    ensures HistoryBounded(ResponseStep(e, useFull, guessIndex, resp).0)
  {
  }

  /** Typing, deleting and toggling leave the history alone, so they keep the bound too. */
  lemma EditingKeepsHistoryBounded(e: Engine, letter: string)
    requires HistoryBounded(e)
    ensures AddLetterStep(e, letter).Success? ==> HistoryBounded(AddLetterStep(e, letter).value)
    ensures HistoryBounded(DeleteLetterStep(e))
    ensures HistoryBounded(ToggleStep(e))
  {
  }

  /** What `handleKeydown` does with a key. */
  datatype KeyAction = DeleteKey | SubmitKey | TypeKey(letter: string) | IgnoreKey

  /** JavaScript's `<=` on strings: code-unit lexicographic order. */
  predicate JsLessEq(a: string, b: string)
    decreases |a|
  {
    a == [] || (b != [] && (a[0] < b[0] || (a[0] == b[0] && JsLessEq(a[1..], b[1..]))))
  }

  function KeyActionOf(key: string): KeyAction {
    if key == "Backspace" then DeleteKey
    else if key == "Enter" then SubmitKey
    else if JsLessEq("a", key) && JsLessEq(key, "z") then TypeKey(key)
    else IgnoreKey
  }

  /** The range test `'a' <= key <= 'z'` compares strings, so besides the 26
      letters it lets through any key name that starts with 'a'..'y'. */
  lemma KeyRangeTest(key: string)
    ensures KeyActionOf(key).TypeKey? <==>
      key != [] && 'a' <= key[0] && (key[0] < 'z' || key == "z")
  {
    if key != [] && key != "Backspace" && key != "Enter" {
      assert JsLessEq("a", key) <==> 'a' <= key[0] by {
        assert "a"[1..] == [];
      }
      if key[0] == 'z' {
        assert JsLessEq(key, "z") <==> key[1..] == [] by {
          assert "z"[1..] == [];
        }
        if key[1..] == [] {
          assert key == "z";
        }
      }
    }
  }

  /** Every single lowercase letter is typed as itself. */
  lemma LettersAreTyped(c: char)
    requires 'a' <= c <= 'z'
    ensures KeyActionOf([c]) == TypeKey([c])
  {
    KeyRangeTest([c]);
  }

  /** The controller, with its board and keyboard. */
  class Game {
    const board: SrordleBoard
    const kb: SrordleKeyboard
    const gd: GameDate
    var currentGuess: seq<string>
    var shape: Option<Shape>
    var pastGuesses: seq<SrordleAnswer>
    var currentRequestedFull: bool
    var remainingFullAttempts: int
    var totalFullAttempts: int
    var gameOver: bool

    function State(): Engine
      reads this
    {
      Engine(currentGuess, shape, pastGuesses, currentRequestedFull, remainingFullAttempts, totalFullAttempts, gameOver)
    }

    /** The board and the keyboard show this game's history and shape. */
    predicate Valid()
      reads this, board, kb
    {
      board.pastGuesses == pastGuesses && kb.pastGuesses == pastGuesses &&
      board.shape == (if shape.Some? then shape.value else [])
    }

    constructor (board: SrordleBoard, kb: SrordleKeyboard, gd: GameDate)
      ensures this.board == board && this.kb == kb && this.gd == gd
      ensures State() == Engine([], None, [], false, 0, 0, false)
    {
      this.board := board;
      this.kb := kb;
      this.gd := gd;
      currentGuess := [];
      shape := None;
      pastGuesses := [];
      currentRequestedFull := false;
      remainingFullAttempts := 0;
      totalFullAttempts := 0;
      gameOver := false;
    }

    /** `start`: take the shape, the stored history and the attempt counts,
        and hand shape and history to the board and the keyboard. */
    method Start(s: Shape, guesses: seq<SrordleAnswer>, remaining: int, total: int) returns (events: seq<Event>)
      modifies this, board, kb
      ensures State() == old(State()).(shape := Some(s), pastGuesses := guesses, remaining := remaining, total := total)
      ensures Valid()
      ensures board.currentGuess == old(board.currentGuess) && board.currentRequestedFull == old(board.currentRequestedFull)
      ensures events == [AttemptsChanged(remaining)]
    {
      shape := Some(s);
      remainingFullAttempts := remaining;
      totalFullAttempts := total;
      pastGuesses := guesses;
      board.SetGameShape(s);
      board.SetPastGuesses(guesses);
      kb.SetPastGuesses(guesses);
      events := [AttemptsChanged(remainingFullAttempts)];
    }

    /** `handleRequestedFull`; the page only enables its button while attempts remain. */
    method HandleRequestedFull() returns (events: seq<Event>)
      requires remainingFullAttempts > 0
      modifies this, board
      ensures State() == ToggleStep(old(State()))
      ensures board.currentGuess == [] && board.currentRequestedFull == currentRequestedFull
      ensures board.shape == old(board.shape) && board.pastGuesses == old(board.pastGuesses)
      ensures events == [AttemptsChanged(remainingFullAttempts)]
    {
      currentGuess := [];
      board.UpdateCurrentGuess(currentGuess);
      currentRequestedFull := !currentRequestedFull;
      if currentRequestedFull {
        remainingFullAttempts := remainingFullAttempts - 1;
      } else {
        remainingFullAttempts := remainingFullAttempts + 1;
      }
      events := [AttemptsChanged(remainingFullAttempts)];
      board.SetRequestedFull(currentRequestedFull);
    }

    /** `currentRowLength`, with its two counting loops. */
    method CurrentRowLength() returns (r: Result<nat, string>)
      ensures r == RowLength(State())
    {
      if shape.None? {
        return Failure("no shape was set");
      }
      var s := shape.value;
      var curShape := 0;
      var i := 0;
      while i < |pastGuesses|
        invariant 0 <= i <= |pastGuesses|
        invariant curShape == Board.NonRequestedFullCount(pastGuesses[..i])
      {
        assert pastGuesses[..i + 1][..i] == pastGuesses[..i];
        if !pastGuesses[i].requestedFull {
          curShape := curShape + 1;
        }
        i := i + 1;
      }
      assert pastGuesses[..i] == pastGuesses;
      if curShape >= |s| || currentRequestedFull {
        return Success(WordLength);
      }
      var row := s[curShape];
      var cnt := 0;
      var x := 0;
      while x < |row|
        invariant 0 <= x <= |row|
        invariant cnt == TrueCount(row[..x])
      {
        assert row[..x + 1][..x] == row[..x];
        if row[x] {
          cnt := cnt + 1;
        }
        x := x + 1;
      }
      assert row[..x] == row;
      return Success(cnt);
    }

    /** `nonRequestedFullCount`: the guess index a new request carries. */
    method NonRequestedFullCount() returns (cnt: nat)
      ensures cnt == Board.NonRequestedFullCount(pastGuesses)
    {
      cnt := 0;
      var i := 0;
      while i < |pastGuesses|
        invariant 0 <= i <= |pastGuesses|
        invariant cnt == Board.NonRequestedFullCount(pastGuesses[..i])
      {
        assert pastGuesses[..i + 1][..i] == pastGuesses[..i];
        if !pastGuesses[i].requestedFull {
          cnt := cnt + 1;
        }
        i := i + 1;
      }
      assert pastGuesses[..i] == pastGuesses;
    }

    /** `addLetter`. */
    method AddLetter(letter: string) returns (outcome: Outcome)
      modifies this, board
      ensures AddLetterStep(old(State()), letter).Failure? ==>
        outcome == Threw(AddLetterStep(old(State()), letter).error) && State() == old(State()) &&
        unchanged(board)
      ensures AddLetterStep(old(State()), letter).Success? ==>
        outcome == Done && State() == AddLetterStep(old(State()), letter).value
      ensures AddLetterStep(old(State()), letter).Success? && State() != old(State()) ==>
        board.currentGuess == currentGuess
      ensures AddLetterStep(old(State()), letter).Success? && State() == old(State()) ==>
        unchanged(board)
      ensures board.shape == old(board.shape) && board.pastGuesses == old(board.pastGuesses)
      ensures board.currentRequestedFull == old(board.currentRequestedFull)
    {
      var n := CurrentRowLength();
      if n.Failure? {
        return Threw(n.error);
      }
      if |currentGuess| >= n.value || gameOver {
        return Done;
      }
      currentGuess := currentGuess + [letter];
      board.UpdateCurrentGuess(currentGuess);
      return Done;
    }

    /** `deleteLetter`. */
    method DeleteLetter()
      modifies this, board
      ensures State() == DeleteLetterStep(old(State()))
      ensures !old(gameOver) ==> board.currentGuess == currentGuess
      ensures old(gameOver) ==> unchanged(board)
      ensures board.shape == old(board.shape) && board.pastGuesses == old(board.pastGuesses)
      ensures board.currentRequestedFull == old(board.currentRequestedFull)
    {
      if gameOver {
        return;
      }
      if currentGuess != [] {
        currentGuess := currentGuess[..|currentGuess| - 1];
      }
      board.UpdateCurrentGuess(currentGuess);
    }

    /** `submitGuess` up to the `fetch` call: the request it would post. */
    method SubmitGuess() returns (req: Option<GuessRequest>)
      ensures req == SubmitRequest(State(), gd)
    {
      if gameOver {
        return None;
      }
      var useFull := currentRequestedFull;
      var guessIndex := NonRequestedFullCount();
      var guess := "";
      var i := 0;
      while i < |currentGuess|
        invariant 0 <= i <= |currentGuess|
        invariant guess == Join(currentGuess[..i])
      {
        assert currentGuess[..i + 1][..i] == currentGuess[..i];
        guess := guess + currentGuess[i];
        i := i + 1;
      }
      assert currentGuess[..i] == currentGuess;
      req := Some(GuessRequest(guess, gd.tzOffset, useFull, guessIndex));
    }

    /** The `then` handler of `submitGuess` for a decoded response. */
    method HandleGuessResponse(useFull: bool, guessIndex: nat, resp: GuessResponse) returns (events: seq<Event>)
      requires Valid()
      modifies this, board, kb
      ensures (State(), events) == ResponseStep(old(State()), useFull, guessIndex, resp)
      ensures Valid()
      ensures resp.error.Some? && resp.error.value != "" ==> unchanged(board) && unchanged(kb)
      ensures (resp.error.None? || resp.error.value == "") ==>
        board.currentGuess == [] &&
        board.currentRequestedFull == (if resp.answer.Some? then false else old(board.currentRequestedFull))
    {
      if resp.error.Some? && resp.error.value != "" {
        return [ShowError(resp.error.value)];
      }
      ghost var e := State();
      ghost var h := if resp.answer.Some? then e.pastGuesses + [SrordleAnswer(resp.answer.value, useFull)] else e.pastGuesses;
      ghost var submitted := if resp.answer.Some? then [GuessesSubmitted(h)] else [];
      ghost var counted := if useFull || (e.shape.Some? && guessIndex >= |e.shape.value|) then [AttemptsChanged(e.remaining)] else [];
      events := [];
      if resp.answer.Some? {
        var sa := SrordleAnswer(resp.answer.value, useFull);
        board.AddGuess(sa);
        kb.AddGuess(sa);
        pastGuesses := pastGuesses + [sa];
        events := events + [GuessesSubmitted(pastGuesses)];
      }
      currentRequestedFull := false;
      currentGuess := [];
      board.UpdateCurrentGuess([]);
      if useFull || (shape.Some? && guessIndex >= |shape.value|) {
        events := events + [AttemptsChanged(remainingFullAttempts)];
      }
      assert pastGuesses == h && events == submitted + counted;
      if resp.won {
        gameOver := true;
        events := events + [ShowWin];
        return;
      }
      if (shape.Some? && |pastGuesses| >= |shape.value| + totalFullAttempts) || remainingFullAttempts == 0 {
        gameOver := true;
        events := events + [ShowLose];
        return;
      }
    }

    /** `handleKeydown`: Backspace deletes, Enter submits, a letter key types. */
    method HandleKeydown(key: string) returns (req: Option<GuessRequest>, outcome: Outcome)
      modifies this, board
      ensures KeyActionOf(key) == DeleteKey ==>
        State() == DeleteLetterStep(old(State())) && req == None && outcome == Done &&
        (if old(gameOver) then unchanged(board) else board.currentGuess == currentGuess)
      ensures KeyActionOf(key) == SubmitKey ==>
        State() == old(State()) && req == SubmitRequest(old(State()), gd) && outcome == Done &&
        unchanged(board)
      ensures KeyActionOf(key).TypeKey? ==> req == None
      ensures KeyActionOf(key).TypeKey? && AddLetterStep(old(State()), key).Failure? ==>
        State() == old(State()) && outcome == Threw(AddLetterStep(old(State()), key).error) &&
        unchanged(board)
      ensures KeyActionOf(key).TypeKey? && AddLetterStep(old(State()), key).Success? ==>
        State() == AddLetterStep(old(State()), key).value && outcome == Done &&
        (if State() == old(State()) then unchanged(board) else board.currentGuess == currentGuess)
      ensures KeyActionOf(key) == IgnoreKey ==>
        State() == old(State()) && req == None && outcome == Done && unchanged(board)
      ensures board.shape == old(board.shape) && board.pastGuesses == old(board.pastGuesses)
      ensures board.currentRequestedFull == old(board.currentRequestedFull)
    {
      req := None;
      outcome := Done;
      if key == "Backspace" {
        DeleteLetter();
        return;
      }
      if key == "Enter" {
        req := SubmitGuess();
        return;
      }
      if JsLessEq("a", key) && JsLessEq(key, "z") {
        outcome := AddLetter(key);
      }
    }
  }
}
