/** The game server's request handlers (cmd/server/main.go): the decision
    logic of `serveGuess`, the answer blanking of `serveSrordle` and the
    asset test `isAsset`. JSON decoding, the clock, the time-zone offset and
    the game store are left out: the handlers receive the decoded request
    fields and the day's game. A panic inside a handler is turned into a
    500 response by `recoverWrap`; here that is the reply
    `HttpError(InternalServerError)`. */
module Server {
  import opened Basics
  import opened Srordle
  import Trie

  const MethodNotAllowed: nat := 405
  const InternalServerError: nat := 500

  /** The fields of the guess request the handler decides on. */
  datatype GuessRequest = GuessRequest(isPost: bool, guess: string, guessIndex: int, useFull: bool)

  /** A guess the handler refuses with a JSON `Error` message. */
  datatype Refusal =
    | WrongShape
    | WrongCount(want: nat, got: nat)
    | WrongLength(word: string, want: nat)
    | NotAWord(word: string)
    | NoRealWords

  /** The `Error` text of a refusal. */
  function Message(r: Refusal): string {
    match r
    case WrongShape => "Your guess wasn't the right shape"
    case WrongCount(want, got) => "Wanted " + Decimal(want) + " guesses, got " + Decimal(got)
    case WrongLength(word, want) => word + " isn't " + Decimal(want) + " letters long"
    case NotAWord(word) => word + " isn't a word"
    case NoRealWords => "Neither of those are real words"
  }

  /** What `serveGuess` writes back: a scored guess, a refusal, or an HTTP
      error status. */
  datatype GuessReply =
    | Scored(answer: seq<LetterAnswer>, won: bool, words: seq<string>)
    | Refused(why: Refusal)
    | HttpError(status: nat)

  // ---------------------------------------------------------------------
  // Case mapping

  /** The two runes outside ASCII whose lower case is an ASCII letter. */
  const KelvinSign: char := '\U{212A}'
  const CapitalIWithDot: char := '\U{0130}'

  /** `strings.ToLower` on one rune: the ASCII capitals, and the Kelvin sign
      and the capital I with dot above, which lower to 'k' and 'i'. Other
      runes keep their case here. */
  function LowerRune(c: char): char {
    if 'A' <= c <= 'Z' then (c as int + 32) as char
    else if c == KelvinSign then 'k'
    else if c == CapitalIWithDot then 'i'
    else c
  }

  /** `strings.ToUpper` on one rune, for the ASCII small letters. */
  function UpperRune(c: char): char {
    if 'a' <= c <= 'z' then (c as int - 32) as char else c
  }

  /** Go maps the case rune by rune, so the rune count never changes. */
  function ToLower(s: string): string {
    seq(|s|, k requires 0 <= k < |s| => LowerRune(s[k]))
  }

  function ToUpper(s: string): string {
    seq(|s|, k requires 0 <= k < |s| => UpperRune(s[k]))
  }

  /** A rune whose lower case is one of 'a' to 'z'. */
  predicate LowersToLetter(c: char) {
    'a' <= c <= 'z' || 'A' <= c <= 'Z' || c == KelvinSign || c == CapitalIWithDot
  }

  /** Lowering keeps the rune count and leaves no ASCII capital; the lowered
      guess is a word the dictionary can look up exactly when each of its
      runes lowers to a letter; and lowering undoes upper-casing on such
      words. */
  lemma CaseMapping(s: string, w: string)
    requires Trie.IsWord(w)
    ensures |ToLower(s)| == |s|
    ensures forall k :: 0 <= k < |s| ==> !('A' <= ToLower(s)[k] <= 'Z')
    ensures forall k :: 0 <= k < |s| && !LowersToLetter(s[k]) ==> ToLower(s)[k] == s[k]
    ensures Trie.IsWord(ToLower(s)) <==> forall k :: 0 <= k < |s| ==> LowersToLetter(s[k])
    ensures ToLower(w) == w && ToLower(ToUpper(w)) == w
    ensures forall k :: 0 <= k < |w| ==> 'A' <= ToUpper(w)[k] <= 'Z'
  {
    if Trie.IsWord(ToLower(s)) {
      forall k | 0 <= k < |s|
        ensures LowersToLetter(s[k])
      {
        assert Trie.IsLowerAscii(ToLower(s)[k]);
      }
    }
  }

  /** A guess typed with the Kelvin sign reaches the dictionary as an
      ordinary word. */
  lemma KelvinSignLowers()
    ensures ToLower("\U{212A}itchen") == "kitchen"
    ensures ToLower("\U{0130}NK") == "ink"
  {
  }

  // ---------------------------------------------------------------------
  // The word loop of `serveGuess`

  /** A word passes the loop's checks when its rune count is its run's
      length and the dictionary can look it up (`HasWord` refuses any rune
      that is not 'a' to 'z'). */
  predicate Admissible(len: nat, w: string) {
    |w| == len && Trie.IsWord(w)
  }

  /** Word `k` is the first that does not pass. */
  predicate FirstRejected(lens: seq<nat>, words: seq<string>, k: int)
    requires |lens| == |words|
  {
    0 <= k < |words| && !Admissible(lens[k], words[k]) &&
    forall j :: 0 <= j < k ==> Admissible(lens[j], words[j])
  }

  /** The words the dictionary does not hold, in order. */
  function Unknown(words: seq<string>, dict: set<string>): (u: seq<string>)
    ensures |u| <= |words|
    ensures forall w :: w in u <==> w in words && w !in dict
  {
    if words == [] then []
    else
      var n := |words| - 1;
      var w := words[n];
      assert words == words[..n] + [w];
      Unknown(words[..n], dict) + (if w in dict then [] else [w])
  }

  /** The loop over the words: it stops at the first word that does not
      pass, and otherwise collects the unknown words. */
  function Screen(lens: seq<nat>, words: seq<string>, dict: set<string>): (r: Result<seq<string>, nat>)
    requires |lens| == |words|
    ensures r.Success? <==> forall k :: 0 <= k < |words| ==> Admissible(lens[k], words[k])
    ensures r.Success? ==> r.value == Unknown(words, dict)
    ensures r.Failure? ==> FirstRejected(lens, words, r.error)
  {
    if words == [] then Success([])
    else
      var n := |words| - 1;
      var w := words[n];
      assert words == words[..n] + [w];
      match Screen(lens[..n], words[..n], dict)
      case Failure(k) => Failure(k)
      case Success(unknown) =>
        if !Admissible(lens[n], w) then Failure(n)
        else if w in dict then Success(unknown)
        else Success(unknown + [w])
  }

  /** The reply for the first word that does not pass: a refusal when its
      length is wrong, else the lookup error, a 500. */
  function Rejection(len: nat, w: string): GuessReply {
    if |w| != len then Refused(WrongLength(w, len)) else HttpError(InternalServerError)
  }

  /** The guess can be laid into the row and scored without an index
      leaving the target word, so `CalcAnswer` does not panic. */
  predicate Scorable(g: Game, row: Row, words: seq<string>) {
    |words| <= |StartsOf(row)| && InBounds(Cells(words, StartsOf(row)), |g.targetWord|)
  }

  /** The reply once every word has passed: one unknown word or two are
      refused, and any other number is scored, since the source's `switch`
      has no default case. */
  function Verdict(g: Game, row: Row, words: seq<string>, unknown: seq<string>): GuessReply {
    if |unknown| == 1 then Refused(NotAWord(ToUpper(unknown[0])))
    else if |unknown| == 2 then Refused(NoRealWords)
    else if Scorable(g, row, words) then
      Scored(Score(g.targetWord, Cells(words, StartsOf(row))), |words| == 1 && words[0] == g.targetWord, words)
    else HttpError(InternalServerError)
  }

  /** Everything after the row and the words have been chosen. */
  function Judge(g: Game, row: Row, lens: seq<nat>, words: seq<string>, dict: set<string>): GuessReply {
    if |words| != |lens| then Refused(WrongCount(|lens|, |words|))
    else
      match Screen(lens, words, dict)
      case Failure(k) => Rejection(lens[k], words[k])
      case Success(unknown) => Verdict(g, row, words, unknown)
  }

  /** The row of seven active columns used for a full guess. */
  const FullRow: Row := [true, true, true, true, true, true, true]

  /** `serveGuess` as a function of the request, the day's game and the
      dictionary's words. */
  function Outcome(req: GuessRequest, g: Game, dict: set<string>): GuessReply {
    if !req.isPost then HttpError(MethodNotAllowed)
    else
      var guess := ToLower(req.guess);
      if req.useFull || req.guessIndex >= |g.shape| then Judge(g, FullRow, [7], [guess], dict)
      else if req.guessIndex < 0 then HttpError(InternalServerError)
      else
        var row := g.shape[req.guessIndex];
        match Split(row, guess)
        case None => Refused(WrongShape)
        case Some(words) => Judge(g, row, RunsOf(row), words, dict)
  }

  /** One more word through the loop. */
  lemma ScreenStep(lens: seq<nat>, words: seq<string>, dict: set<string>, i: nat)
    requires i < |words| == |lens|
    requires Screen(lens[..i], words[..i], dict).Success?
    requires Admissible(lens[i], words[i])
    ensures var u := Screen(lens[..i], words[..i], dict).value;
      Screen(lens[..i + 1], words[..i + 1], dict) ==
        Success(if words[i] in dict then u else u + [words[i]])
  {
    assert lens[..i + 1][..i] == lens[..i];
    assert words[..i + 1][..i] == words[..i];
  }

  /** The loop stops at the first word that does not pass. */
  lemma ScreenStops(lens: seq<nat>, words: seq<string>, dict: set<string>, i: nat)
    requires i < |words| == |lens|
    requires Screen(lens[..i], words[..i], dict).Success?
    requires !Admissible(lens[i], words[i])
    ensures Screen(lens, words, dict) == Failure(i)
  {
    forall j | 0 <= j < i
      ensures Admissible(lens[j], words[j])
    {
      assert lens[..i][j] == lens[j] && words[..i][j] == words[j];
    }
    var e := Screen(lens, words, dict).error;
    assert FirstRejected(lens, words, e);
    assert e == i;
  }

  /** `serveGuess`: the row, its run lengths and the words are chosen per
      branch, then every word is checked in order and the unknown ones are
      collected. */
  method ServeGuess(req: GuessRequest, g: Game, dict: Trie.Trie) returns (reply: GuessReply)
    requires dict.Valid()
    ensures reply == Outcome(req, g, dict.words)
  {
    if !req.isPost {
      return HttpError(MethodNotAllowed);
    }
    var row, targetWordLens, guesses, refused := ChooseRow(req, g, dict.words);
    if refused.Some? {
      return refused.value;
    }
    if |guesses| != |targetWordLens| {
      return Refused(WrongCount(|targetWordLens|, |guesses|));
    }
    var invalidWords, stop := CheckWords(targetWordLens, guesses, dict);
    if stop.Some? {
      return stop.value;
    }
    if |invalidWords| == 1 {
      return Refused(NotAWord(ToUpper(invalidWords[0])));
    }
    if |invalidWords| == 2 {
      return Refused(NoRealWords);
    }
    // An offset past the target word panics inside `CalcAnswer`.
    if !Scorable(g, row, guesses) {
      return HttpError(InternalServerError);
    }
    var answer := CalcAnswer(g, guesses, row);
    reply := Scored(answer, |guesses| == 1 && guesses[0] == g.targetWord, guesses);
  }

  /** The branches of `serveGuess` that pick the row, the run lengths and
      the words, or refuse the guess before any word is looked at. */
  method ChooseRow(req: GuessRequest, g: Game, ghost dict: set<string>)
    returns (row: Row, targetWordLens: seq<nat>, guesses: seq<string>, refused: Option<GuessReply>)
    requires req.isPost
    ensures refused.Some? ==> refused.value == Outcome(req, g, dict)
    ensures refused.None? ==> Outcome(req, g, dict) == Judge(g, row, targetWordLens, guesses, dict)
  {
    var guess := ToLower(req.guess);
    if req.useFull || req.guessIndex >= |g.shape| {
      targetWordLens := [7];
      row := FullRow;
      guesses := [guess];
      refused := None;
    } else {
      // `guessIndex < len(Shape)` holds here, so the "Invalid guess index"
      // branch is never taken; a negative index panics on `Shape[guessIndex]`.
      if req.guessIndex < 0 {
        return [], [], [], Some(HttpError(InternalServerError));
      }
      row := g.shape[req.guessIndex];
      targetWordLens := ToTargetWordLengths(row);
      var ok;
      guesses, ok := SplitGuess(row, guess);
      refused := if ok then None else Some(Refused(WrongShape));
    }
  }

  /** The word loop of `serveGuess`: it stops with the reply for the first
      word that does not pass, and otherwise returns the unknown words. */
  method CheckWords(targetWordLens: seq<nat>, guesses: seq<string>, dict: Trie.Trie)
    returns (invalidWords: seq<string>, stop: Option<GuessReply>)
    requires dict.Valid() && |targetWordLens| == |guesses|
    ensures var s := Screen(targetWordLens, guesses, dict.words);
      (stop.None? <==> s.Success?) &&
      (s.Success? ==> invalidWords == s.value) &&
      (s.Failure? ==> stop == Some(Rejection(targetWordLens[s.error], guesses[s.error])))
  {
    invalidWords := [];
    var i := 0;
    while i < |guesses|
      invariant 0 <= i <= |guesses|
      invariant Screen(targetWordLens[..i], guesses[..i], dict.words) == Success(invalidWords)
    {
      var word := guesses[i];
      if |word| != targetWordLens[i] {
        ScreenStops(targetWordLens, guesses, dict.words, i);
        return [], Some(Refused(WrongLength(word, targetWordLens[i])));
      }
      var found, err := dict.HasWord(word);
      if err.Some? {
        ScreenStops(targetWordLens, guesses, dict.words, i);
        return [], Some(HttpError(InternalServerError));
      }
      ScreenStep(targetWordLens, guesses, dict.words, i);
      if !found {
        invalidWords := invalidWords + [word];
      }
      i := i + 1;
    }
    assert targetWordLens[..i] == targetWordLens && guesses[..i] == guesses;
    stop := None;
  }

  // ---------------------------------------------------------------------
  // Properties of the guess handler

  /** The full row is one run of seven columns from column 0. */
  lemma FullRowLayout()
    ensures RunsOf(FullRow) == [7] && StartsOf(FullRow) == [0]
  {
    ScanFromStart(FullRow);
  }

  /** The full row and the single lowered guess are used exactly when
      `useFull` is set or the index is past the shape: a refused shape
      needs the split branch, and a full guess is scored only when it has
      seven runes, as the one word it is. */
  lemma FullGuess(req: GuessRequest, g: Game, dict: set<string>)
    requires req.isPost && (req.useFull || req.guessIndex >= |g.shape|)
    ensures Outcome(req, g, dict) != Refused(WrongShape)
    ensures |req.guess| != 7 ==> Outcome(req, g, dict) == Refused(WrongLength(ToLower(req.guess), 7))
    ensures Outcome(req, g, dict).Scored? ==>
      |req.guess| == 7 && Outcome(req, g, dict).words == [ToLower(req.guess)]
  {
    var guess := ToLower(req.guess);
    assert Screen([7], [guess], dict).Failure? <==> !Admissible(7, guess);
  }

  /** A guess is refused as the wrong shape exactly when it goes through
      the split branch with fewer runes than the row has active columns. */
  lemma WrongShapeExactly(req: GuessRequest, g: Game, dict: set<string>)
    ensures Outcome(req, g, dict) == Refused(WrongShape) <==>
      req.isPost && !req.useFull && 0 <= req.guessIndex < |g.shape| &&
      |req.guess| < TrueCount(g.shape[req.guessIndex])
  {
    if req.isPost && !req.useFull && 0 <= req.guessIndex < |g.shape| {
      var row := g.shape[req.guessIndex];
      var guess := ToLower(req.guess);
      match Split(row, guess)
      case None =>
      case Some(words) =>
        SplitFitsTheRow(row, guess);
        JudgeNeverWrongShape(g, row, RunsOf(row), words, dict);
    } else if req.isPost && (req.useFull || req.guessIndex >= |g.shape|) {
      FullGuess(req, g, dict);
    }
  }

  lemma JudgeNeverWrongShape(g: Game, row: Row, lens: seq<nat>, words: seq<string>, dict: set<string>)
    ensures Judge(g, row, lens, words, dict) != Refused(WrongShape)
  {
    if |words| == |lens| {
      match Screen(lens, words, dict)
      case Failure(k) =>
      case Success(unknown) =>
    }
  }

  /** "Wanted %d guesses, got %d" is never sent: the split gives one word
      per run, and the full branch one word for its one length. */
  lemma CountNeverWrong(req: GuessRequest, g: Game, dict: set<string>)
    ensures !(Outcome(req, g, dict).Refused? && Outcome(req, g, dict).why.WrongCount?)
  {
    if req.isPost && !req.useFull && 0 <= req.guessIndex < |g.shape| {
      var row := g.shape[req.guessIndex];
      var guess := ToLower(req.guess);
      if Split(row, guess).Some? {
        SplitFitsTheRow(row, guess);
        var words := Split(row, guess).value;
        ScreenNeverWrongCount(g, row, RunsOf(row), words, dict);
      }
    } else if req.isPost && (req.useFull || req.guessIndex >= |g.shape|) {
      ScreenNeverWrongCount(g, FullRow, [7], [ToLower(req.guess)], dict);
    }
  }

  lemma ScreenNeverWrongCount(g: Game, row: Row, lens: seq<nat>, words: seq<string>, dict: set<string>)
    requires |lens| == |words|
    ensures !(Judge(g, row, lens, words, dict).Refused? && Judge(g, row, lens, words, dict).why.WrongCount?)
  {
    match Screen(lens, words, dict)
    case Failure(k) =>
    case Success(unknown) =>
  }

  /** What a scored reply is made of: its row, the words laid out one per
      run of that row, all of them words the dictionary can look up, and
      the answer `CalcAnswer` gives for them. */
  lemma ScoredParts(req: GuessRequest, g: Game, dict: set<string>) returns (row: Row)
    requires Outcome(req, g, dict).Scored?
    ensures var r := Outcome(req, g, dict);
      var full := req.useFull || req.guessIndex >= |g.shape|;
      row == (if full then FullRow else g.shape[req.guessIndex]) &&
      r.words == (if full then [ToLower(req.guess)] else Split(row, ToLower(req.guess)).value) &&
      |r.words| == |RunsOf(row)| &&
      (forall k :: 0 <= k < |r.words| ==> Admissible(RunsOf(row)[k], r.words[k])) &&
      Scorable(g, row, r.words) &&
      r.answer == Score(g.targetWord, Cells(r.words, StartsOf(row))) &&
      (r.won <==> |r.words| == 1 && r.words[0] == g.targetWord) &&
      |Unknown(r.words, dict)| != 1 && |Unknown(r.words, dict)| != 2
  {
    FullRowLayout();
    var guess := ToLower(req.guess);
    if req.useFull || req.guessIndex >= |g.shape| {
      row := FullRow;
    } else {
      row := g.shape[req.guessIndex];
      SplitFitsTheRow(row, guess);
    }
  }

  /** Once every word has passed the loop, the number of unknown words
      decides the reply: one is named in capitals, two are refused
      together, and none or three and more are scored, since the
      `switch` has no default case. */
  lemma UnknownWordOutcomes(g: Game, row: Row, words: seq<string>, dict: set<string>)
    requires |words| == |RunsOf(row)| && Screen(RunsOf(row), words, dict).Success?
    requires |row| <= |g.targetWord|
    ensures |StartsOf(row)| == |words|
    ensures var u := Unknown(words, dict);
      var r := Judge(g, row, RunsOf(row), words, dict);
      (|u| == 1 ==> r == Refused(NotAWord(ToUpper(u[0])))) &&
      (|u| == 2 ==> r == Refused(NoRealWords)) &&
      (|u| == 0 || |u| >= 3 ==>
        r == Scored(Score(g.targetWord, Cells(words, StartsOf(row))),
                    |words| == 1 && words[0] == g.targetWord, words))
  {
    forall k | 0 <= k < |words|
      ensures |words[k]| == RunsOf(row)[k] && IsAscii(words[k])
    {
      assert Admissible(RunsOf(row)[k], words[k]);
      WordIsAscii(words[k]);
    }
    RunCells(row, words, |words|);
    assert words[..|words|] == words;
  }

  lemma WordIsAscii(w: string)
    requires Trie.IsWord(w)
    ensures IsAscii(w)
  {
    forall k | 0 <= k < |w|
      ensures w[k] as int < 0x80
    {
      assert Trie.IsLowerAscii(w[k]);
    }
  }

  /** On ASCII text rune `j` of a word lands at its base plus `j`. */
  lemma {:induction false} CellsOfAscii(w: string, base: nat)
    requires IsAscii(w)
    ensures forall j :: 0 <= j < |w| ==> CellsOf(w, base)[j] == Cell(base + j, w[j])
    decreases |w|
  {
    if w != [] {
      var n := |w| - 1;
      CellsOfAscii(w[..n], base);
      AsciiWidth(w[..n]);
    }
  }

  /** Words of one-byte runes laid into the runs of a row, one per run,
      cover distinct columns of the row; the first `n` of them end before
      run `n - 1` does. */
  lemma {:induction false} RunCells(row: Row, words: seq<string>, n: nat)
    requires |words| == |RunsOf(row)| && n <= |words|
    requires forall k :: 0 <= k < |words| ==> |words[k]| == RunsOf(row)[k] && IsAscii(words[k])
    ensures |StartsOf(row)| == |words|
    ensures var c := Cells(words[..n], StartsOf(row));
      Distinct(c) && InBounds(c, |row|) &&
      (n > 0 ==> forall a :: 0 <= a < |c| ==> c[a].idx < StartsOf(row)[n - 1] + RunsOf(row)[n - 1])
  {
    var starts, runs := StartsOf(row), RunsOf(row);
    assert |starts| == |runs| by {
      RunsAreMaximal(row);
    }
    if n > 0 {
      RunCells(row, words, n - 1);
      CellsSnoc(words, starts, n - 1);
      var old_ := Cells(words[..n - 1], starts);
      var w := words[n - 1];
      var fresh_ := CellsOf(w, starts[n - 1]);
      CellsOfAscii(w, starts[n - 1]);
      assert starts[n - 1] + runs[n - 1] <= |row| && (n > 1 ==> starts[n - 2] + runs[n - 2] < starts[n - 1]) by {
        RunsAreMaximal(row);
      }
      DistinctAppend(old_, fresh_, starts[n - 1], |row|);
    }
  }

  /** Cells below `lo` followed by cells at consecutive columns from `lo`,
      all of them below `hi`. */
  lemma DistinctAppend(a: seq<Cell>, b: seq<Cell>, lo: nat, hi: nat)
    requires Distinct(a) && forall i :: 0 <= i < |a| ==> a[i].idx < lo
    requires forall j :: 0 <= j < |b| ==> b[j].idx == lo + j
    requires lo + |b| <= hi
    ensures Distinct(a + b) && InBounds(a + b, hi)
    ensures forall i :: 0 <= i < |a + b| ==> (a + b)[i].idx < lo + |b|
  {
  }

  /** Every scored reply is sound: one entry per target rune, `Won` exactly
      when the guess is the target word alone, each position either blank
      or showing a guessed rune that is Correct exactly when it matches the
      target there, and no rune marked Correct or WrongPosition more often
      than it occurs in the target. */
  lemma ScoredReplyIsSound(req: GuessRequest, g: Game, dict: set<string>)
    requires Outcome(req, g, dict).Scored?
    ensures var r := Outcome(req, g, dict);
      |r.answer| == |g.targetWord| &&
      (r.won <==> |r.words| == 1 && r.words[0] == g.targetWord) &&
      (forall k :: 0 <= k < |r.answer| ==>
        r.answer[k] == LetterAnswer("", PositionNotUsed) ||
        (|r.answer[k].letter| == 1 && (r.answer[k].status == Correct <==> r.answer[k].letter[0] == g.targetWord[k]))) &&
      (forall l :: Marked(r.answer, l) <= Occurrences(g.targetWord, l))
  {
    var row := ScoredParts(req, g, dict);
    var cells := LaidOut(row, Outcome(req, g, dict).words);
    ScoredPositions(g.targetWord, cells);
    ScoreBudget(g.targetWord, cells);
  }

  /** The cells of words that pass the loop's checks for the runs of a row
      fall on distinct columns. */
  lemma LaidOut(row: Row, words: seq<string>) returns (cells: seq<Cell>)
    requires |words| == |RunsOf(row)|
    requires forall k :: 0 <= k < |words| ==> Admissible(RunsOf(row)[k], words[k])
    ensures |StartsOf(row)| == |words|
    ensures cells == Cells(words, StartsOf(row)) && Distinct(cells)
  {
    RunCells(row, words, |words|);
    assert words[..|words|] == words;
    cells := Cells(words, StartsOf(row));
  }

  /** Each position of the answer is blank, or shows one guessed rune that
      is Correct exactly when it is the target's rune there. */
  lemma ScoredPositions(trs: string, cells: seq<Cell>)
    requires InBounds(cells, |trs|) && Distinct(cells)
    ensures var las := Score(trs, cells);
      forall k :: 0 <= k < |las| ==>
        las[k] == LetterAnswer("", PositionNotUsed) ||
        (|las[k].letter| == 1 && (las[k].status == Correct <==> las[k].letter[0] == trs[k]))
  {
    var las := Score(trs, cells);
    ScoreBlanks(trs, cells);
    ScoreLetters(trs, cells);
    forall k | 0 <= k < |las|
      ensures las[k] == LetterAnswer("", PositionNotUsed) ||
        (|las[k].letter| == 1 && (las[k].status == Correct <==> las[k].letter[0] == trs[k]))
    {
      if !Uncovered(cells, k) {
        var a :| 0 <= a < |cells| && cells[a].idx == k;
      }
    }
  }

  /** Every word of a scored reply is lower-case ASCII: an upper-case
      letter in the request reaches the dictionary lowered. */
  lemma ScoredWordsAreLower(req: GuessRequest, g: Game, dict: set<string>)
    requires Outcome(req, g, dict).Scored?
    ensures forall w :: w in Outcome(req, g, dict).words ==> Trie.IsWord(w) && w != []
  {
    var row := ScoredParts(req, g, dict);
    var words := Outcome(req, g, dict).words;
    forall w | w in words
      ensures Trie.IsWord(w) && w != []
    {
      var k :| 0 <= k < |words| && words[k] == w;
      assert RunsOf(row)[k] > 0 by {
        RunsAreMaximal(row);
        assert RunAt(row, StartsOf(row)[k], RunsOf(row)[k]);
      }
    }
  }

  // ---------------------------------------------------------------------
  // `serveSrordle` and `isAsset`

  datatype GameReply = GameSent(game: Game) | GameHttpError(status: nat)

  /** `serveSrordle`: the day's game with its target word blanked. */
  function ServeSrordle(isPost: bool, g: Game): (r: GameReply)
    ensures r.GameSent? <==> isPost
    ensures !isPost ==> r == GameHttpError(MethodNotAllowed)
    ensures r.GameSent? ==>
      r.game.targetWord == "" && r.game.shape == g.shape && r.game.fullAttempts == g.fullAttempts
  {
    if !isPost then GameHttpError(MethodNotAllowed) else GameSent(g.(targetWord := ""))
  }

  const ImagesPrefix: string := "/images/"

  /** `isAsset`: the path lies under "/images/". */
  function IsAsset(p: string): bool {
    ImagesPrefix <= p
  }

  lemma AssetPaths(p: string)
    ensures IsAsset(p) <==> exists rest :: p == ImagesPrefix + rest
  {
    if IsAsset(p) {
      assert p == ImagesPrefix + p[|ImagesPrefix|..];
    }
  }
}
