/** The board renderer of the client (src/lib/board/index.ts): the shared
    answer types, the board's own copy of the game state, and the decision of
    what each of the eight board rows shows. Canvas drawing is not modelled;
    a row's drawing is described by a `RowView` value. */
module Board {
  import opened Basics

  /** Letter status; the TypeScript enum numbers these 1 to 6 in this order. */
  datatype LetterStatus = NotInWord | WrongPosition | Correct | PositionNotUsed | Guessing | Untried

  datatype LetterAnswer = LetterAnswer(letter: string, status: LetterStatus)

  /** A completed guess as the client stores it. */
  datatype SrordleAnswer = SrordleAnswer(letterAnswers: seq<LetterAnswer>, requestedFull: bool)

  type Row = seq<bool>

  type Shape = seq<Row>

  const WordLength: nat := 7

  /** Rows of cells the board lays out (`heightChars` in initPaper). */
  const BoardRows: nat := 8

  /** The seven-column all-active row used past the end of the shape or with the override. */
  function FullRow(): (r: Row)
    ensures |r| == WordLength && forall x :: 0 <= x < |r| ==> r[x]
  {
    [true, true, true, true, true, true, true]
  }

  /** Number of past guesses that did not use the full-row override: the
      pointer into the shape (`curShape`, `guessIndex`, `nonRequestedFullCount`). */
  function NonRequestedFullCount(h: seq<SrordleAnswer>): (n: nat)
    ensures n <= |h|
  {
    if h == [] then 0
    else NonRequestedFullCount(h[..|h| - 1]) + (if h[|h| - 1].requestedFull then 0 else 1)
  }

  lemma NonRequestedFullCountAppend(h: seq<SrordleAnswer>, g: SrordleAnswer)
    ensures NonRequestedFullCount(h + [g]) == NonRequestedFullCount(h) + (if g.requestedFull then 0 else 1)
  {
    assert (h + [g])[..|h + [g]| - 1] == h;
  }

  /** Without override guesses the shape pointer is the number of guesses. */
  lemma {:induction false} NoOverrideCountsEveryGuess(h: seq<SrordleAnswer>)
    requires forall k :: 0 <= k < |h| ==> !h[k].requestedFull
    ensures NonRequestedFullCount(h) == |h|
    decreases |h|
  {
    if h != [] {
      NoOverrideCountsEveryGuess(h[..|h| - 1]);
    }
  }

  /** Every letter of the guess is Correct (vacuously so for an empty guess,
      as `Array.prototype.every` is on an empty array). */
  predicate AllCorrect(g: SrordleAnswer) {
    forall k :: 0 <= k < |g.letterAnswers| ==> g.letterAnswers[k].status == Correct
  }

  /** `correctGuess`: the index of the first fully correct past guess, if any. */
  function CorrectGuess(h: seq<SrordleAnswer>): (r: Option<nat>)
    ensures r.Some? ==> r.value < |h| && AllCorrect(h[r.value])
    ensures r.Some? ==> forall k :: 0 <= k < r.value ==> !AllCorrect(h[k])
    ensures r.None? ==> forall k :: 0 <= k < |h| ==> !AllCorrect(h[k])
  {
    if h == [] then None
    else if AllCorrect(h[0]) then Some(0)
    else match CorrectGuess(h[1..]) {
      case None => None
      case Some(k) => Some(k + 1)
    }
  }

  /** A guess with no letter answers at all counts as a correct guess. */
  lemma EmptyGuessCountsAsCorrect(h: seq<SrordleAnswer>, b: bool)
    ensures CorrectGuess([SrordleAnswer([], b)] + h) == Some(0)
  {
  }

  /** The first fully correct guess is determined: any index with that
      property is the value `CorrectGuess` returns. */
  lemma CorrectGuessIsFirst(h: seq<SrordleAnswer>, w: nat)
    requires w < |h| && AllCorrect(h[w])
    requires forall k :: 0 <= k < w ==> !AllCorrect(h[k])
    ensures CorrectGuess(h) == Some(w)
  {
  }

  /** The falsy test `!correctGuess`: true when there is no correct guess
      and ALSO when the correct guess is the first one (index 0). */
  predicate NoWinShown(cg: Option<nat>) {
    cg.None? || cg.value == 0
  }

  /** The mask of the row being typed: the shape row the pointer selects,
      or seven active columns past the shape's end or with the override armed. */
  function RowTemplate(shape: Shape, h: seq<SrordleAnswer>, armed: bool): Row {
    var k := NonRequestedFullCount(h);
    if k < |shape| && !armed then shape[k] else FullRow()
  }

  /** The cells of the row being typed: active columns take the buffer's
      letters left to right (status Guessing), leftover active columns are
      blank Guessing, inactive columns blank PositionNotUsed. */
  function ActiveCells(row: Row, buf: seq<string>): (cells: seq<LetterAnswer>)
    ensures |cells| == |row|
  {
    if row == [] then []
    else if !row[0] then [LetterAnswer("", PositionNotUsed)] + ActiveCells(row[1..], buf)
    else if buf == [] then [LetterAnswer("", Guessing)] + ActiveCells(row[1..], buf)
    else [LetterAnswer(buf[0], Guessing)] + ActiveCells(row[1..], buf[1..])
  }

  /** Column by column: an inactive column is blank PositionNotUsed; an
      active one is Guessing and shows the buffer letter numbered by the
      active columns before it, or nothing once the buffer is used up. */
  lemma {:induction false} ActiveCellsColumns(row: Row, buf: seq<string>, x: nat)
    requires x < |row|
    ensures var c := ActiveCells(row, buf)[x];
      var i := TrueCount(row[..x]);
      (!row[x] ==> c == LetterAnswer("", PositionNotUsed)) &&
      (row[x] ==> c == LetterAnswer(if i < |buf| then buf[i] else "", Guessing))
    decreases x
  {
    if x > 0 {
      var rest := if row[0] && buf != [] then buf[1..] else buf;
      ActiveCellsColumns(row[1..], rest, x - 1);
      TrueCountCons(row[..x]);
      assert row[..x][1..] == row[1..][..x - 1];
    }
  }

  /** The letters of the Guessing cells, left to right. */
  function GuessingLetters(cells: seq<LetterAnswer>): seq<string> {
    if cells == [] then []
    else (if cells[0].status == Guessing then [cells[0].letter] else []) + GuessingLetters(cells[1..])
  }

  function Blanks(n: nat): (s: seq<string>)
    ensures |s| == n && forall k :: 0 <= k < n ==> s[k] == ""
  {
    if n == 0 then [] else [""] + Blanks(n - 1)
  }

  function Min(a: nat, b: nat): nat { if a <= b then a else b }

  /** The active row shows exactly min(|buffer|, active columns) typed letters,
      the buffer's first ones in order, followed by blanks for the other
      active columns. */
  lemma {:induction false} ActiveRowShowsBufferPrefix(row: Row, buf: seq<string>)
    ensures var m := Min(|buf|, TrueCount(row));
      GuessingLetters(ActiveCells(row, buf)) == buf[..m] + Blanks(TrueCount(row) - m)
    decreases |row|
  {
    if row != [] {
      TrueCountCons(row);
      var cells := ActiveCells(row, buf);
      var m := Min(|buf|, TrueCount(row));
      if !row[0] {
        assert cells == [LetterAnswer("", PositionNotUsed)] + ActiveCells(row[1..], buf);
        assert GuessingLetters(cells) == GuessingLetters(ActiveCells(row[1..], buf));
        ActiveRowShowsBufferPrefix(row[1..], buf);
      } else if buf == [] {
        assert cells == [LetterAnswer("", Guessing)] + ActiveCells(row[1..], buf);
        assert GuessingLetters(cells) == [""] + GuessingLetters(ActiveCells(row[1..], buf));
        ActiveRowShowsBufferPrefix(row[1..], buf);
        assert Blanks(TrueCount(row)) == [""] + Blanks(TrueCount(row[1..]));
      } else {
        var rest := ActiveCells(row[1..], buf[1..]);
        assert cells == [LetterAnswer(buf[0], Guessing)] + rest;
        assert GuessingLetters(cells) == [buf[0]] + GuessingLetters(rest);
        ActiveRowShowsBufferPrefix(row[1..], buf[1..]);
        assert m - 1 == Min(|buf[1..]|, TrueCount(row[1..]));
        assert buf[..m] == [buf[0]] + buf[1..][..m - 1];
      }
    }
  }

  /** What one board row shows after a render. */
  datatype RowView =
    | PastGuessRow(answers: seq<LetterAnswer>)   // a past guess's letters and statuses
    | CurrentGuessRow(cells: seq<LetterAnswer>)  // the row being typed
    | BlankBar                                    // a filled bar across the row
    | Untouched                                   // nothing is drawn on this row

  /** The per-row decision of `render`, first match wins. */
  function RowViewAt(i: nat, shape: Shape, h: seq<SrordleAnswer>, buf: seq<string>, armed: bool): RowView {
    var cg := CorrectGuess(h);
    if i < |h| && (NoWinShown(cg) || cg.value >= i) then PastGuessRow(h[i].letterAnswers)
    else if i == |h| && NoWinShown(cg) then CurrentGuessRow(ActiveCells(RowTemplate(shape, h, armed), buf))
    else if i != |h| then BlankBar
    else Untouched
  }

  /** Without any fully correct guess: past rows show their guesses, the
      next row is the one being typed, all later rows are blank bars. */
  lemma RowsWithoutWin(i: nat, shape: Shape, h: seq<SrordleAnswer>, buf: seq<string>, armed: bool)
    requires forall k :: 0 <= k < |h| ==> !AllCorrect(h[k])
    ensures i < |h| ==> RowViewAt(i, shape, h, buf, armed) == PastGuessRow(h[i].letterAnswers)
    ensures i == |h| ==> RowViewAt(i, shape, h, buf, armed) == CurrentGuessRow(ActiveCells(RowTemplate(shape, h, armed), buf))
    ensures i > |h| ==> RowViewAt(i, shape, h, buf, armed) == BlankBar
  {
  }

  /** With a first fully correct guess at index w > 0: rows up to w show
      their guesses, later past rows and future rows are blank bars, and the
      row after the history is not drawn at all. */
  lemma RowsAfterWin(i: nat, shape: Shape, h: seq<SrordleAnswer>, buf: seq<string>, armed: bool, w: nat)
    requires 0 < w < |h| && AllCorrect(h[w])
    requires forall k :: 0 <= k < w ==> !AllCorrect(h[k])
    ensures i <= w ==> RowViewAt(i, shape, h, buf, armed) == PastGuessRow(h[i].letterAnswers)
    ensures w < i && i != |h| ==> RowViewAt(i, shape, h, buf, armed) == BlankBar
    ensures RowViewAt(|h|, shape, h, buf, armed) == Untouched
  {
    CorrectGuessIsFirst(h, w);
  }

  /** With the very first guess fully correct, the falsy index 0 makes the
      board behave as if nothing had been won: every past guess is shown and
      the row after them is drawn as the row being typed. */
  lemma WinAtFirstRowLooksLikeNoWin(i: nat, shape: Shape, h: seq<SrordleAnswer>, buf: seq<string>, armed: bool)
    requires |h| > 0 && AllCorrect(h[0])
    ensures i < |h| ==> RowViewAt(i, shape, h, buf, armed).PastGuessRow?
    ensures RowViewAt(|h|, shape, h, buf, armed).CurrentGuessRow?
  {
    CorrectGuessIsFirst(h, 0);
  }

  /** The board's copy of the game state and its render. */
  class SrordleBoard {
    var shape: Shape
    var pastGuesses: seq<SrordleAnswer>
    var currentGuess: seq<string>
    var currentRequestedFull: bool

    constructor ()
      ensures shape == [] && pastGuesses == [] && currentGuess == [] && !currentRequestedFull
    {
      shape := [];
      pastGuesses := [];
      currentGuess := [];
      currentRequestedFull := false;
    }

    /** `addGuess`: append exactly one guess and disarm the override. */
    method AddGuess(guess: SrordleAnswer)
      modifies this
      ensures pastGuesses == old(pastGuesses) + [guess] && !currentRequestedFull
      ensures shape == old(shape) && currentGuess == old(currentGuess)
    {
      currentRequestedFull := false;
      pastGuesses := pastGuesses + [guess];
    }

    method SetRequestedFull(v: bool)
      modifies this
      ensures currentRequestedFull == v
      ensures shape == old(shape) && pastGuesses == old(pastGuesses) && currentGuess == old(currentGuess)
    {
      currentRequestedFull := v;
    }

    method SetGameShape(s: Shape)
      modifies this
      ensures shape == s
      ensures pastGuesses == old(pastGuesses) && currentGuess == old(currentGuess)
      ensures currentRequestedFull == old(currentRequestedFull)
    {
      shape := s;
    }

    method SetPastGuesses(guesses: seq<SrordleAnswer>)
      modifies this
      ensures pastGuesses == guesses
      ensures shape == old(shape) && currentGuess == old(currentGuess)
      ensures currentRequestedFull == old(currentRequestedFull)
    {
      pastGuesses := guesses;
    }

    method UpdateCurrentGuess(guess: seq<string>)
      modifies this
      ensures currentGuess == guess
      ensures shape == old(shape) && pastGuesses == old(pastGuesses)
      ensures currentRequestedFull == old(currentRequestedFull)
    {
      currentGuess := guess;
    }

    /** The loop of `render` over the eight rows: the view of every row. */
    method Render() returns (views: seq<RowView>)
      ensures |views| == BoardRows
      ensures forall i :: 0 <= i < BoardRows ==>
        views[i] == RowViewAt(i, shape, pastGuesses, currentGuess, currentRequestedFull)
    {
      var correctGuess := CorrectGuess(pastGuesses);
      views := [];
      var i := 0;
      while i < BoardRows
        invariant 0 <= i <= BoardRows && |views| == i
        invariant forall k :: 0 <= k < i ==>
          views[k] == RowViewAt(k, shape, pastGuesses, currentGuess, currentRequestedFull)
      {
        if |pastGuesses| > i && (NoWinShown(correctGuess) || correctGuess.value >= i) {
          views := views + [PastGuessRow(pastGuesses[i].letterAnswers)];
          i := i + 1;
          continue;
        }

        var curShape := 0;
        var g := 0;
        while g < |pastGuesses|
          invariant 0 <= g <= |pastGuesses|
          invariant curShape == NonRequestedFullCount(pastGuesses[..g])
        {
          assert pastGuesses[..g + 1] == pastGuesses[..g] + [pastGuesses[g]];
          NonRequestedFullCountAppend(pastGuesses[..g], pastGuesses[g]);
          if !pastGuesses[g].requestedFull {
            curShape := curShape + 1;
          }
          g := g + 1;
        }
        assert pastGuesses[..g] == pastGuesses;
        var row := if curShape < |shape| && !currentRequestedFull then shape[curShape] else FullRow();

        if i == |pastGuesses| && NoWinShown(correctGuess) {
          var cells := LayOutActiveRow(row, currentGuess);
          views := views + [CurrentGuessRow(cells)];
          i := i + 1;
          continue;
        }

        if i != |pastGuesses| {
          views := views + [BlankBar];
        } else {
          views := views + [Untouched];
        }
        i := i + 1;
      }
    }
  }

  /** The column loop of `render` for the row being typed (`x`, `letterIdx`). */
  method LayOutActiveRow(row: Row, buf: seq<string>) returns (cells: seq<LetterAnswer>)
    ensures cells == ActiveCells(row, buf)
  {
    cells := [];
    var x := 0;
    var letterIdx := 0;
    while x < |row|
      invariant 0 <= x <= |row| && 0 <= letterIdx <= |buf|
      invariant cells + ActiveCells(row[x..], buf[letterIdx..]) == ActiveCells(row, buf)
    {
      ghost var rest := ActiveCells(row[x..], buf[letterIdx..]);
      assert row[x..][0] == row[x] && row[x..][1..] == row[x + 1..];
      var v := row[x];
      if v && letterIdx < |buf| {
        assert buf[letterIdx..][0] == buf[letterIdx] && buf[letterIdx..][1..] == buf[letterIdx + 1..];
        assert rest == [LetterAnswer(buf[letterIdx], Guessing)] + ActiveCells(row[x + 1..], buf[letterIdx + 1..]);
        cells := cells + [LetterAnswer(buf[letterIdx], Guessing)];
        letterIdx := letterIdx + 1;
      } else if !v {
        assert rest == [LetterAnswer("", PositionNotUsed)] + ActiveCells(row[x + 1..], buf[letterIdx..]);
        cells := cells + [LetterAnswer("", PositionNotUsed)];
      } else {
        assert buf[letterIdx..] == [];
        assert rest == [LetterAnswer("", Guessing)] + ActiveCells(row[x + 1..], buf[letterIdx..]);
        cells := cells + [LetterAnswer("", Guessing)];
      }
      x := x + 1;
    }
    assert row[x..] == [];
  }
}
