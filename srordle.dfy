/** The game core of the server (srordle/srordle.go): a row of the shape
    split into words, the guess split along those words, and the scoring of
    a guess against the day's target word. Go strings are modelled as
    sequences of runes; where the source indexes by byte offset the model
    uses the UTF-8 width of the runes before it. */
module Srordle {
  import opened Basics

  /** `LetterStatus`, in the order of its `iota` constants. */
  datatype LetterStatus = UnknownLetterStatus | NotInWord | WrongPosition | Correct | PositionNotUsed

  /** The integer a status is encoded as on the wire. */
  function StatusCode(s: LetterStatus): (code: nat)
    ensures code <= 4
    ensures code == 0 <==> s == UnknownLetterStatus
  {
    match s
    case UnknownLetterStatus => 0
    case NotInWord => 1
    case WrongPosition => 2
    case Correct => 3
    case PositionNotUsed => 4
  }

  datatype LetterAnswer = LetterAnswer(letter: string, status: LetterStatus)

  /** A recorded guess; `GuessedAt` is not modelled. */
  datatype Guess = Guess(words: seq<string>, requestedFull: bool)

  datatype Game = Game(targetWord: string, shape: Shape, fullAttempts: int)

  type Row = seq<bool>

  type Shape = seq<Row>

  // ---------------------------------------------------------------------
  // Runs of a row

  /** Column `i` opens a run of active columns. */
  predicate IsStart(r: Row, i: int) {
    0 <= i < |r| && r[i] && (i == 0 || !r[i - 1])
  }

  /** Number of active columns at the end of the row. */
  function TrailingRun(r: Row): (t: nat)
    ensures t <= |r|
    ensures t > 0 <==> r != [] && r[|r| - 1]
  {
    if r == [] || !r[|r| - 1] then 0 else TrailingRun(r[..|r| - 1]) + 1
  }

  function Open(t: nat): seq<nat> {
    if t > 0 then [t] else []
  }

  /** The lengths of the runs that an inactive column has closed, left to right. */
  function ClosedRuns(r: Row): seq<nat> {
    if r == [] then []
    else
      var init := r[..|r| - 1];
      if r[|r| - 1] then ClosedRuns(init) else ClosedRuns(init) + Open(TrailingRun(init))
  }

  /** The lengths of the runs of active columns, left to right (the last
      one may run to the end of the row). */
  function RunsOf(r: Row): seq<nat> {
    ClosedRuns(r) + Open(TrailingRun(r))
  }

  /** The columns that open a run, in increasing order. */
  function StartsOf(r: Row): (starts: seq<nat>)
    ensures forall k :: 0 <= k < |starts| ==> starts[k] < |r|
  {
    if r == [] then []
    else StartsOf(r[..|r| - 1]) + (if IsStart(r, |r| - 1) then [|r| - 1] else [])
  }

  /** Columns `s` .. `s + l - 1` form a maximal run of active columns. */
  predicate RunAt(r: Row, s: nat, l: nat) {
    0 < l && s + l <= |r| && IsStart(r, s) &&
    (forall x :: s <= x < s + l ==> r[x]) &&
    (s + l == |r| || !r[s + l])
  }

  /** The trailing run is all active and preceded by an inactive column or the row's start. */
  lemma {:induction false} TrailingRunIsARun(r: Row)
    ensures forall x :: |r| - TrailingRun(r) <= x < |r| ==> r[x]
    ensures TrailingRun(r) == |r| || !r[|r| - TrailingRun(r) - 1]
    decreases |r|
  {
    if r != [] && r[|r| - 1] {
      var init := r[..|r| - 1];
      TrailingRunIsARun(init);
      assert forall x :: 0 <= x < |init| ==> r[x] == init[x];
    }
  }

  /** Starts `q`, closed run lengths `c` and trailing run `t` describe
      row `r`: every closed run is a maximal run ending before the last
      column, runs are separated by gaps, and the open run (if any) starts
      at the last start. */
  predicate Layout(r: Row, q: seq<nat>, c: seq<nat>, t: nat) {
    |q| == |c| + |Open(t)| &&
    (forall k :: 0 <= k < |c| ==> RunAt(r, q[k], c[k]) && q[k] + c[k] < |r|) &&
    (forall k :: 0 <= k < |c| && k + 1 < |q| ==> q[k] + c[k] < q[k + 1]) &&
    (t > 0 ==> q[|q| - 1] == |r| - t)
  }

  /** The invariant behind `RunsAreMaximal`. */
  predicate RunsInvariant(r: Row) {
    Layout(r, StartsOf(r), ClosedRuns(r), TrailingRun(r))
  }

  lemma {:induction false} ClosedRunsAreMaximal(r: Row)
    ensures RunsInvariant(r)
    decreases |r|
  {
    if r != [] {
      var init := r[..|r| - 1];
      var n := |init|;
      ClosedRunsAreMaximal(init);
      var q, c, t := StartsOf(init), ClosedRuns(init), TrailingRun(init);
      TrailingRunIsARun(init);
      assert forall x :: 0 <= x < n ==> r[x] == init[x];
      if r[n] {
        assert ClosedRuns(r) == c;
        assert TrailingRun(r) == t + 1;
        assert IsStart(r, n) <==> t == 0;
        ActiveColumnKeepsLayout(r, q, c, t);
      } else {
        assert !IsStart(r, n);
        assert StartsOf(r) == q;
        assert TrailingRun(r) == 0;
        assert ClosedRuns(r) == c + Open(t);
        InactiveColumnKeepsLayout(r, q, c, t);
      }
    }
  }

  /** A maximal run that ends before the last column of the shorter row is
      one of the longer row too. */
  lemma RunAtExtends(r: Row, s: nat, l: nat)
    requires r != [] && RunAt(r[..|r| - 1], s, l) && s + l < |r| - 1
    ensures RunAt(r, s, l)
  {
    var init := r[..|r| - 1];
    assert forall x :: 0 <= x < |init| ==> r[x] == init[x];
  }

  lemma ClosedRunsExtend(r: Row, q: seq<nat>, c: seq<nat>, t: nat)
    requires r != [] && Layout(r[..|r| - 1], q, c, t)
    ensures forall k :: 0 <= k < |c| ==> RunAt(r, q[k], c[k]) && q[k] + c[k] < |r| - 1
  {
    forall k | 0 <= k < |c|
      ensures RunAt(r, q[k], c[k]) && q[k] + c[k] < |r| - 1
    {
      RunAtExtends(r, q[k], c[k]);
    }
  }

  lemma ActiveColumnKeepsLayout(r: Row, q: seq<nat>, c: seq<nat>, t: nat)
    requires r != [] && r[|r| - 1] && Layout(r[..|r| - 1], q, c, t)
    requires StartsOf(r) == (if t == 0 then q + [|r| - 1] else q)
    requires t == 0 ==> forall k :: 0 <= k < |c| ==> q[k] + c[k] < |r| - 1
    ensures Layout(r, StartsOf(r), c, t + 1)
  {
    ClosedRunsExtend(r, q, c, t);
  }

  lemma InactiveColumnKeepsLayout(r: Row, q: seq<nat>, c: seq<nat>, t: nat)
    requires r != [] && !r[|r| - 1] && Layout(r[..|r| - 1], q, c, t)
    requires t > 0 ==> RunAt(r, |r| - 1 - t, t)
    ensures Layout(r, q, c + Open(t), 0)
  {
    ClosedRunsExtend(r, q, c, t);
    var c2 := c + Open(t);
    forall k | 0 <= k < |c2|
      ensures RunAt(r, q[k], c2[k]) && q[k] + c2[k] < |r|
    {
      if k == |c| {
        assert c2[k] == t && q[k] == |r| - 1 - t;
      } else {
        assert c2[k] == c[k];
      }
    }
  }

  /** The k-th start and the k-th length describe the k-th maximal run, and
      the runs come in order with a gap between them. */
  lemma RunsAreMaximal(r: Row)
    ensures |StartsOf(r)| == |RunsOf(r)|
    ensures forall k :: 0 <= k < |RunsOf(r)| ==> RunAt(r, StartsOf(r)[k], RunsOf(r)[k])
    ensures forall k :: 0 <= k < |RunsOf(r)| - 1 ==> StartsOf(r)[k] + RunsOf(r)[k] < StartsOf(r)[k + 1]
  {
    ClosedRunsAreMaximal(r);
    TrailingRunIsARun(r);
    var t := TrailingRun(r);
    var q, c := StartsOf(r), ClosedRuns(r);
    forall k | 0 <= k < |c|
      ensures RunAt(r, q[k], RunsOf(r)[k])
    {
      assert RunsOf(r)[k] == c[k];
    }
    if t > 0 {
      var k := |ClosedRuns(r)|;
      assert RunsOf(r)[k] == t;
      assert IsStart(r, |r| - t);
      assert RunAt(r, |r| - t, t);
    }
  }

  /** Exactly the starts of runs are listed. */
  lemma {:induction false} StartsAreTheRunStarts(r: Row, i: int)
    ensures i in StartsOf(r) <==> IsStart(r, i)
    decreases |r|
  {
    if r != [] {
      var init := r[..|r| - 1];
      StartsAreTheRunStarts(init, i);
      if 0 <= i < |init| {
        assert IsStart(r, i) == IsStart(init, i);
      }
    }
  }

  function Sum(s: seq<nat>): nat {
    if s == [] then 0 else Sum(s[..|s| - 1]) + s[|s| - 1]
  }

  lemma SumSnoc(s: seq<nat>, x: nat)
    ensures Sum(s + [x]) == Sum(s) + x
  {
    assert (s + [x])[..|s|] == s;
  }

  /** The run lengths add up to the number of active columns. */
  lemma RunsCoverTheActiveColumns(r: Row)
    ensures Sum(RunsOf(r)) == TrueCount(r)
  {
    ClosedRunsCount(r);
    if TrailingRun(r) > 0 {
      SumSnoc(ClosedRuns(r), TrailingRun(r));
    } else {
      assert RunsOf(r) == ClosedRuns(r);
    }
  }

  lemma {:induction false} ClosedRunsCount(r: Row)
    ensures Sum(ClosedRuns(r)) + TrailingRun(r) == TrueCount(r)
    decreases |r|
  {
    if r != [] {
      var init := r[..|r| - 1];
      ClosedRunsCount(init);
      if !r[|r| - 1] && TrailingRun(init) > 0 {
        SumSnoc(ClosedRuns(init), TrailingRun(init));
      } else if !r[|r| - 1] {
        assert ClosedRuns(r) == ClosedRuns(init);
      }
    }
  }

  /** `ToTargetWordLengths`: the run lengths, counted in one pass. */
  method ToTargetWordLengths(r: Row) returns (out: seq<nat>)
    ensures out == RunsOf(r)
  {
    var curRun := 0;
    out := [];
    var i := 0;
    while i < |r|
      invariant 0 <= i <= |r|
      invariant curRun == TrailingRun(r[..i])
      invariant out == ClosedRuns(r[..i])
    {
      assert r[..i + 1][..i] == r[..i];
      if r[i] {
        curRun := curRun + 1;
      } else if curRun > 0 {
        out := out + [curRun];
        curRun := 0;
      }
      i := i + 1;
    }
    if curRun > 0 {
      out := out + [curRun];
    }
    assert r[..i] == r;
    assert out == ClosedRuns(r) + Open(TrailingRun(r));
  }

  /** `toStartOffsets`: the run starts, found in one pass. */
  method ToStartOffsets(r: Row) returns (out: seq<nat>)
    ensures out == StartsOf(r)
  {
    var inWord := false;
    out := [];
    var i := 0;
    while i < |r|
      invariant 0 <= i <= |r|
      invariant inWord <==> i > 0 && r[i - 1]
      invariant out == StartsOf(r[..i])
    {
      assert r[..i + 1][..i] == r[..i];
      if r[i] && !inWord {
        out := out + [i];
      }
      inWord := r[i];
      i := i + 1;
    }
    assert r[..i] == r;
  }

  // ---------------------------------------------------------------------
  // Splitting a guess

  /** The words joined back together. */
  function Concat(words: seq<string>): string {
    if words == [] then "" else Concat(words[..|words| - 1]) + words[|words| - 1]
  }

  /** Consecutive pieces of `s` of the given lengths. */
  function SplitWords(lens: seq<nat>, s: string): (words: seq<string>)
    requires Sum(lens) <= |s|
    ensures |words| == |lens|
    ensures forall k :: 0 <= k < |words| ==> |words[k]| == lens[k]
    ensures Concat(words) == s[..Sum(lens)]
  {
    if lens == [] then []
    else
      var init := lens[..|lens| - 1];
      var w := SplitWords(init, s);
      var words := w + [s[Sum(init)..Sum(lens)]];
      assert words[..|w|] == w;
      words
  }

  /** `SplitGuess` as a function: None when there are too few runes. */
  function Split(r: Row, s: string): Option<seq<string>> {
    RunsCoverTheActiveColumns(r);
    if |s| < TrueCount(r) then None else Some(SplitWords(RunsOf(r), s))
  }

  lemma {:induction false} ConcatLength(words: seq<string>)
    ensures |Concat(words)| == Sum(Lengths(words))
    decreases |words|
  {
    if words != [] {
      ConcatLength(words[..|words| - 1]);
      assert Lengths(words)[..|words| - 1] == Lengths(words[..|words| - 1]);
    }
  }

  /** The length of each word. */
  function Lengths(words: seq<string>): (lens: seq<nat>)
    ensures |lens| == |words|
  {
    if words == [] then [] else Lengths(words[..|words| - 1]) + [|words[|words| - 1]|]
  }

  lemma {:induction false} LengthsAt(words: seq<string>)
    ensures forall k :: 0 <= k < |words| ==> Lengths(words)[k] == |words[k]|
    decreases |words|
  {
    if words != [] {
      LengthsAt(words[..|words| - 1]);
    }
  }

  /** Words are determined by their lengths and their concatenation. */
  lemma {:induction false} WordsDeterminedByLengths(a: seq<string>, b: seq<string>)
    requires |a| == |b| && (forall k :: 0 <= k < |a| ==> |a[k]| == |b[k]|)
    requires Concat(a) == Concat(b)
    ensures a == b
    decreases |a|
  {
    if a != [] {
      var n := |a| - 1;
      LengthsAt(a[..n]);
      LengthsAt(b[..n]);
      assert Lengths(a[..n]) == Lengths(b[..n]);
      ConcatLength(a[..n]);
      ConcatLength(b[..n]);
      assert Concat(a) == Concat(a[..n]) + a[n];
      assert Concat(a[..n]) == Concat(a)[..|Concat(a[..n])|];
      assert Concat(b[..n]) == Concat(b)[..|Concat(b[..n])|];
      WordsDeterminedByLengths(a[..n], b[..n]);
      assert a[n] == Concat(a)[|Concat(a[..n])|..];
      assert b[n] == Concat(b)[|Concat(b[..n])|..];
      assert a == a[..n] + [a[n]];
      assert b == b[..n] + [b[n]];
    }
  }

  /** `SplitGuess`: fails exactly when the guess has fewer runes than the
      row has active columns; otherwise word k has the length of run k and
      the words spell out the first active-count runes of the guess (any
      further runes are dropped). */
  method SplitGuess(r: Row, s: string) returns (words: seq<string>, ok: bool)
    ensures ok <==> |s| >= TrueCount(r)
    ensures ok ==> Split(r, s) == Some(words)
    ensures !ok ==> words == [] && Split(r, s) == None
  {
    var guessIdx := 0;
    var prev := false;
    words := [];
    var i := 0;
    while i < |r|
      invariant 0 <= i <= |r|
      invariant prev <==> i > 0 && r[i - 1]
      invariant SplitSoFar(r, s, i, words, guessIdx)
    {
      if r[i] && guessIdx >= |s| {
        assert r[..i + 1][..i] == r[..i];
        TrueCountPrefix(r, i + 1);
        return [], false;
      }
      SplitStep(r, s, i, words, guessIdx, prev);
      if r[i] {
        words := ExtendWords(words, s[guessIdx], prev);
        guessIdx := guessIdx + 1;
      }
      prev := r[i];
      i := i + 1;
    }
    assert r[..i] == r;
    ok := true;
    SplitIsUnique(r, s, words);
  }

  /** The invariant of the `SplitGuess` loop after `i` columns. */
  predicate SplitSoFar(r: Row, s: string, i: nat, words: seq<string>, guessIdx: nat) {
    i <= |r| && guessIdx <= |s| && guessIdx == TrueCount(r[..i]) &&
    Lengths(words) == RunsOf(r[..i]) && Concat(words) == s[..guessIdx]
  }

  /** The pieces after one more rune: the rune added to the last piece
      inside a run, a new one-rune piece where a run opens. */
  function ExtendWords(words: seq<string>, c: char, inRun: bool): seq<string> {
    if inRun && words != [] then words[..|words| - 1] + [words[|words| - 1] + [c]]
    else words + [[c]]
  }

  lemma SplitStep(r: Row, s: string, i: nat, words: seq<string>, guessIdx: nat, prev: bool)
    requires i < |r| && SplitSoFar(r, s, i, words, guessIdx)
    requires prev <==> i > 0 && r[i - 1]
    requires r[i] ==> guessIdx < |s|
    ensures !r[i] ==> SplitSoFar(r, s, i + 1, words, guessIdx)
    ensures r[i] ==> SplitSoFar(r, s, i + 1, ExtendWords(words, s[guessIdx], prev), guessIdx + 1)
  {
    RunsStep(r, i);
    if r[i] {
      var c := s[guessIdx];
      SliceSnoc(s, guessIdx);
      if prev {
        ExtendLastWord(words, c, ClosedRuns(r[..i]), TrailingRun(r[..i]));
      } else {
        LengthsSnoc(words, [c]);
        ConcatSnoc(words, [c]);
      }
    }
  }

  /** Words with the run lengths that spell out the start of the guess are
      the split. */
  lemma SplitIsUnique(r: Row, s: string, words: seq<string>)
    requires TrueCount(r) <= |s|
    requires Lengths(words) == RunsOf(r) && Concat(words) == s[..TrueCount(r)]
    ensures Split(r, s) == Some(words)
  {
    RunsCoverTheActiveColumns(r);
    LengthsAt(words);
    WordsDeterminedByLengths(words, SplitWords(RunsOf(r), s));
  }

  /** Adding a rune to the last word lengthens the last run. */
  lemma ExtendLastWord(words: seq<string>, c: char, closed: seq<nat>, t: nat)
    requires Lengths(words) == closed + [t]
    ensures words != []
    ensures var w := words[..|words| - 1] + [words[|words| - 1] + [c]];
      Lengths(w) == closed + [t + 1] && Concat(w) == Concat(words) + [c]
  {
    var w, x := words[..|words| - 1], words[|words| - 1];
    assert words == w + [x];
    LengthsSnoc(w, x);
    SnocCancel(Lengths(w), |x|, closed, t);
    ConcatSnoc(w, x);
    LengthsSnoc(w, x + [c]);
    ConcatSnoc(w, x + [c]);
  }

  /** Appending to both sides of an equation of sequences. */
  lemma SnocCancel<T>(a: seq<T>, x: T, b: seq<T>, y: T)
    requires a + [x] == b + [y]
    ensures a == b && x == y
  {
    assert a == (a + [x])[..|a|];
    assert b == (b + [y])[..|b|];
  }

  lemma SliceSnoc<T>(s: seq<T>, g: nat)
    requires g < |s|
    ensures s[..g + 1] == s[..g] + [s[g]]
  {
  }

  /** How the active count and the runs change when column `i` is added. */
  lemma RunsStep(r: Row, i: nat)
    requires i < |r|
    ensures TrueCount(r[..i + 1]) == TrueCount(r[..i]) + (if r[i] then 1 else 0)
    ensures !r[i] ==> RunsOf(r[..i + 1]) == RunsOf(r[..i])
    ensures r[i] && (i == 0 || !r[i - 1]) ==> RunsOf(r[..i + 1]) == RunsOf(r[..i]) + [1]
    ensures r[i] && i > 0 && r[i - 1] ==> (
      RunsOf(r[..i]) == ClosedRuns(r[..i]) + [TrailingRun(r[..i])] &&
      RunsOf(r[..i + 1]) == ClosedRuns(r[..i]) + [TrailingRun(r[..i]) + 1])
  {
    var p, init := r[..i + 1], r[..i];
    assert p[..|p| - 1] == init;
    var t := TrailingRun(init);
    if i > 0 {
      assert init[i - 1] == r[i - 1];
    }
    if !r[i] {
      assert RunsOf(p) == ClosedRuns(init) + Open(t) + [];
    } else if t == 0 {
      assert RunsOf(p) == ClosedRuns(init) + [1];
    } else {
      assert RunsOf(p) == ClosedRuns(init) + [t + 1];
    }
  }

  lemma LengthsSnoc(words: seq<string>, w: string)
    ensures Lengths(words + [w]) == Lengths(words) + [|w|]
  {
    assert (words + [w])[..|words|] == words;
  }

  lemma ConcatSnoc(words: seq<string>, w: string)
    ensures Concat(words + [w]) == Concat(words) + w
  {
    assert (words + [w])[..|words|] == words;
  }

  /** The guess pieces line up with the row: piece k has the length of run k
      and together they are the first active-count runes of the guess. */
  lemma SplitFitsTheRow(r: Row, s: string)
    requires Split(r, s).Some?
    ensures var words := Split(r, s).value;
      |words| == |RunsOf(r)| &&
      (forall k :: 0 <= k < |words| ==> |words[k]| == RunsOf(r)[k]) &&
      Concat(words) == s[..TrueCount(r)]
  {
    RunsCoverTheActiveColumns(r);
  }

  // ---------------------------------------------------------------------
  // Games

  /** `DefaultShape`: six rows of seven columns. */
  function DefaultShape(): (s: Shape)
    ensures |s| == 6 && forall k :: 0 <= k < |s| ==> |s[k]| == 7
  {
    var t, f := true, false;
    [ [t, t, t, t, t, t, t],
      [t, t, t, t, f, t, t],
      [t, t, t, f, t, t, t],
      [t, t, f, t, t, t, t],
      [f, f, t, t, t, f, f],
      [f, t, t, t, t, t, f] ]
  }

  /** `Clone`: a nil game stays nil, any other game is copied field by field. */
  function Clone(g: Option<Game>): (c: Option<Game>)
    ensures c.None? <==> g.None?
    ensures g.Some? ==> (c.value.targetWord == g.value.targetWord &&
      c.value.shape == g.value.shape && c.value.fullAttempts == g.value.fullAttempts)
  {
    match g
    case None => None
    case Some(game) => Some(Game(game.targetWord, game.shape, game.fullAttempts))
  }

  /** `foundTarget`: some guess is the single word equal to the target. */
  method FoundTarget(g: Game, guesses: seq<Guess>) returns (found: bool)
    ensures found <==> exists i :: 0 <= i < |guesses| && |guesses[i].words| == 1 && guesses[i].words[0] == g.targetWord
  {
    var i := 0;
    while i < |guesses|
      invariant 0 <= i <= |guesses|
      invariant forall k :: 0 <= k < i ==> !(|guesses[k].words| == 1 && guesses[k].words[0] == g.targetWord)
    {
      if |guesses[i].words| == 1 && guesses[i].words[0] == g.targetWord {
        return true;
      }
      i := i + 1;
    }
    return false;
  }

  // ---------------------------------------------------------------------
  // Scoring

  /** `targetFreq` as a function: how often each rune occurs in `t`. A rune
      that does not occur may be missing from the map (Go reads it as 0). */
  function Freq(t: string): map<char, int> {
    if t == [] then map[]
    else var f := Freq(t[..|t| - 1]); f[t[|t| - 1] := FreqOf(f, t[|t| - 1]) + 1]
  }

  /** Reading a frequency map the Go way: a missing key reads as 0. */
  function FreqOf(freq: map<char, int>, l: char): int {
    if l in freq then freq[l] else 0
  }

  /** `freq[l]--`, which creates the key at -1 when it is missing. */
  function Decrement(freq: map<char, int>, l: char): map<char, int> {
    freq[l := FreqOf(freq, l) - 1]
  }

  lemma DecrementCounts(freq: map<char, int>, l: char, m: char)
    ensures FreqOf(Decrement(freq, l), m) == FreqOf(freq, m) - (if m == l then 1 else 0)
  {
  }

  lemma {:induction false} FreqCountsOccurrences(t: string, l: char)
    ensures FreqOf(Freq(t), l) == Occurrences(t, l)
    decreases |t|
  {
    if t != [] {
      FreqCountsOccurrences(t[..|t| - 1], l);
    }
  }

  /** `targetFreq`: the rune counts of the target word. */
  method TargetFreq(g: Game) returns (out: map<char, int>)
    ensures out == Freq(g.targetWord)
    ensures forall l :: FreqOf(out, l) == Occurrences(g.targetWord, l)
  {
    var t := g.targetWord;
    out := map[];
    var i := 0;
    while i < |t|
      invariant 0 <= i <= |t|
      invariant out == Freq(t[..i])
    {
      assert t[..i + 1][..i] == t[..i];
      var l := t[i];
      out := out[l := FreqOf(out, l) + 1];
      i := i + 1;
    }
    assert t[..i] == t;
    forall l
      ensures FreqOf(out, l) == Occurrences(t, l)
    {
      FreqCountsOccurrences(t, l);
    }
  }

  /** One visit of the scoring loops: the rune `letter` of a guess word,
      landing on position `idx` of the answer. */
  datatype Cell = Cell(idx: nat, letter: char)

  /** The cells of one word placed at `base`: rune k lands at `base` plus
      the byte offset of rune k, as `for j, l := range guess` counts. */
  function CellsOf(word: string, base: nat): (cells: seq<Cell>)
    ensures |cells| == |word|
  {
    if word == [] then []
    else
      var n := |word| - 1;
      CellsOf(word[..n], base) + [Cell(base + Utf8Width(word[..n]), word[n])]
  }

  /** The cells of all guess words, word i placed at `offsets[i]`, in the
      order the scoring loops visit them. */
  function Cells(guesses: seq<string>, offsets: seq<nat>): seq<Cell>
    requires |guesses| <= |offsets|
  {
    if guesses == [] then []
    else
      var n := |guesses| - 1;
      Cells(guesses[..n], offsets) + CellsOf(guesses[n], offsets[n])
  }

  predicate InBounds(cells: seq<Cell>, n: nat) {
    forall a :: 0 <= a < |cells| ==> cells[a].idx < n
  }

  /** No two cells land on the same position. */
  predicate Distinct(cells: seq<Cell>) {
    forall a, b :: 0 <= a < b < |cells| ==> cells[a].idx != cells[b].idx
  }

  predicate Uncovered(cells: seq<Cell>, k: int) {
    forall a :: 0 <= a < |cells| ==> cells[a].idx != k
  }

  /** The answer before any guess is placed: a blank for every target rune. */
  function Blank(n: nat): (las: seq<LetterAnswer>)
    ensures |las| == n && forall k :: 0 <= k < n ==> las[k] == LetterAnswer("", PositionNotUsed)
  {
    if n == 0 then [] else Blank(n - 1) + [LetterAnswer("", PositionNotUsed)]
  }

  /** First pass: every visited position shows its rune as NotInWord.
      The passes are total: a cell outside the answer, which `CalcAnswer`
      never visits (its precondition), is passed over. */
  function Populated(las: seq<LetterAnswer>, cells: seq<Cell>): (out: seq<LetterAnswer>)
    ensures |out| == |las|
  {
    if cells == [] then las
    else
      var c := cells[|cells| - 1];
      var p := Populated(las, cells[..|cells| - 1]);
      if c.idx < |p| then p[c.idx := LetterAnswer([c.letter], NotInWord)] else p
  }

  datatype Scoring = Scoring(las: seq<LetterAnswer>, freq: map<char, int>)

  /** Second pass: a rune equal to the target's rune at its position is
      Correct and uses up one occurrence. */
  function Corrected(st: Scoring, trs: string, cells: seq<Cell>): (out: Scoring)
    ensures |out.las| == |st.las|
  {
    if cells == [] then st
    else
      var c := cells[|cells| - 1];
      var p := Corrected(st, trs, cells[..|cells| - 1]);
      if c.idx >= |p.las| || c.idx >= |trs| || c.letter != trs[c.idx] then p
      else Scoring(p.las[c.idx := p.las[c.idx].(status := Correct)], Decrement(p.freq, c.letter))
  }

  /** Third pass: a rune not already Correct whose remaining count is
      positive is WrongPosition and uses up one occurrence. */
  function Misplaced(st: Scoring, cells: seq<Cell>): (out: Scoring)
    ensures |out.las| == |st.las|
  {
    if cells == [] then st
    else
      var c := cells[|cells| - 1];
      var p := Misplaced(st, cells[..|cells| - 1]);
      if c.idx >= |p.las| || FreqOf(p.freq, c.letter) <= 0 || p.las[c.idx].status == Correct then p
      else Scoring(p.las[c.idx := p.las[c.idx].(status := WrongPosition)], Decrement(p.freq, c.letter))
  }

  /** `CalcAnswer` as a function of the target and the visited cells. */
  function Score(trs: string, cells: seq<Cell>): (las: seq<LetterAnswer>)
    ensures |las| == |trs|
  {
    Misplaced(AfterCorrect(trs, cells), cells).las
  }

  function AfterPopulate(trs: string, cells: seq<Cell>): seq<LetterAnswer> {
    Populated(Blank(|trs|), cells)
  }

  function AfterCorrect(trs: string, cells: seq<Cell>): (st: Scoring)
    ensures |st.las| == |trs|
  {
    Corrected(Scoring(AfterPopulate(trs, cells), Freq(trs)), trs, cells)
  }

  // ---------------------------------------------------------------------
  // The visiting order of the scoring loops

  /** Visiting rune `k` of a word adds the cell at its byte offset. */
  lemma CellsOfSnoc(word: string, base: nat, k: nat)
    requires k < |word|
    ensures CellsOf(word[..k + 1], base) == CellsOf(word[..k], base) + [Cell(base + Utf8Width(word[..k]), word[k])]
    ensures Utf8Width(word[..k + 1]) == Utf8Width(word[..k]) + Utf8Len(word[k])
  {
    assert word[..k + 1][..k] == word[..k];
  }

  lemma {:induction false} CellsOfPrefix(word: string, base: nat, k: nat)
    requires k <= |word|
    ensures CellsOf(word[..k], base) == CellsOf(word, base)[..k]
    decreases |word|
  {
    if k < |word| {
      var n := |word| - 1;
      assert word[..n][..k] == word[..k];
      CellsOfPrefix(word[..n], base, k);
    } else {
      assert word[..k] == word;
    }
  }

  /** The cell of rune `k` of a word whose cells are all in bounds is in bounds. */
  lemma CellInBounds(word: string, base: nat, k: nat, n: nat)
    requires k < |word| && InBounds(CellsOf(word, base), n)
    ensures base + Utf8Width(word[..k]) < n
  {
    CellsOfSnoc(word, base, k);
    CellsOfPrefix(word, base, k + 1);
    assert CellsOf(word, base)[k] == CellsOf(word[..k + 1], base)[k];
  }

  /** Word `i` adds its cells after those of the words before it. */
  lemma CellsSnoc(guesses: seq<string>, offsets: seq<nat>, i: nat)
    requires i < |guesses| <= |offsets|
    ensures Cells(guesses[..i + 1], offsets) == Cells(guesses[..i], offsets) + CellsOf(guesses[i], offsets[i])
  {
    assert guesses[..i + 1][..i] == guesses[..i];
  }

  lemma {:induction false} CellsPrefix(guesses: seq<string>, offsets: seq<nat>, i: nat)
    requires i <= |guesses| <= |offsets|
    ensures var c := Cells(guesses[..i], offsets);
      |c| <= |Cells(guesses, offsets)| && c == Cells(guesses, offsets)[..|c|]
    decreases |guesses|
  {
    if i < |guesses| {
      var n := |guesses| - 1;
      assert guesses[..n][..i] == guesses[..i];
      CellsPrefix(guesses[..n], offsets, i);
    } else {
      assert guesses[..i] == guesses;
    }
  }

  /** The cells of every word of a guess whose cells are in bounds are in bounds. */
  lemma WordInBounds(guesses: seq<string>, offsets: seq<nat>, i: nat, n: nat)
    requires i < |guesses| <= |offsets| && InBounds(Cells(guesses, offsets), n)
    ensures InBounds(CellsOf(guesses[i], offsets[i]), n)
  {
    CellsSnoc(guesses, offsets, i);
    CellsPrefix(guesses, offsets, i + 1);
    var whole := Cells(guesses, offsets);
    var upto := Cells(guesses[..i + 1], offsets);
    var before := Cells(guesses[..i], offsets);
    var word := CellsOf(guesses[i], offsets[i]);
    assert word == upto[|before|..] == whole[|before|..|upto|];
    InBoundsSlice(whole, |before|, |upto|, n);
  }

  lemma InBoundsSlice(cells: seq<Cell>, lo: nat, hi: nat, n: nat)
    requires lo <= hi <= |cells| && InBounds(cells, n)
    ensures InBounds(cells[lo..hi], n)
  {
    assert forall a :: 0 <= a < hi - lo ==> cells[lo..hi][a] == cells[lo + a];
  }

  lemma {:induction false} PopulatedAppend(las: seq<LetterAnswer>, a: seq<Cell>, b: seq<Cell>)
    ensures Populated(las, a + b) == Populated(Populated(las, a), b)
    decreases |b|
  {
    if b == [] {
      assert a + b == a;
    } else {
      var n := |b| - 1;
      assert (a + b)[..|a + b| - 1] == a + b[..n];
      PopulatedAppend(las, a, b[..n]);
    }
  }

  lemma {:induction false} CorrectedAppend(st: Scoring, trs: string, a: seq<Cell>, b: seq<Cell>)
    ensures Corrected(st, trs, a + b) == Corrected(Corrected(st, trs, a), trs, b)
    decreases |b|
  {
    if b == [] {
      assert a + b == a;
    } else {
      var n := |b| - 1;
      assert (a + b)[..|a + b| - 1] == a + b[..n];
      CorrectedAppend(st, trs, a, b[..n]);
    }
  }

  lemma {:induction false} MisplacedAppend(st: Scoring, a: seq<Cell>, b: seq<Cell>)
    ensures Misplaced(st, a + b) == Misplaced(Misplaced(st, a), b)
    decreases |b|
  {
    if b == [] {
      assert a + b == a;
    } else {
      var n := |b| - 1;
      assert (a + b)[..|a + b| - 1] == a + b[..n];
      MisplacedAppend(st, a, b[..n]);
    }
  }

  // ---------------------------------------------------------------------
  // The three passes of `CalcAnswer`; each is a loop over the guess words
  // around a loop over the runes of one word (`for j, l := range guess`,
  // `j` the byte offset of rune `k`).

  /** The first pass over the guess words. */
  method PopulateGuesses(las0: seq<LetterAnswer>, guesses: seq<string>, offsets: seq<nat>)
    returns (las: seq<LetterAnswer>)
    requires |guesses| <= |offsets| && InBounds(Cells(guesses, offsets), |las0|)
    ensures las == Populated(las0, Cells(guesses, offsets))
  {
    las := las0;
    var i := 0;
    while i < |guesses|
      invariant i <= |guesses| && las == Populated(las0, Cells(guesses[..i], offsets))
    {
      WordInBounds(guesses, offsets, i, |las0|);
      CellsSnoc(guesses, offsets, i);
      PopulatedAppend(las0, Cells(guesses[..i], offsets), CellsOf(guesses[i], offsets[i]));
      las := PopulateWord(las, guesses[i], offsets[i]);
      i := i + 1;
    }
    assert guesses[..i] == guesses;
  }

  /** The first pass over the runes of one guess word. */
  method PopulateWord(las0: seq<LetterAnswer>, guess: string, offset: nat) returns (las: seq<LetterAnswer>)
    requires InBounds(CellsOf(guess, offset), |las0|)
    ensures las == Populated(las0, CellsOf(guess, offset))
  {
    las := las0;
    ghost var done: seq<Cell> := [];
    var j, k := 0, 0;
    assert guess[..0] == [];
    while k < |guess|
      invariant k <= |guess| && j == Utf8Width(guess[..k]) && done == CellsOf(guess[..k], offset)
      invariant las == Populated(las0, done)
    {
      var l := guess[k];
      var idx := j + offset;
      assert idx < |las0| && done + [Cell(idx, l)] == CellsOf(guess[..k + 1], offset) &&
        j + Utf8Len(l) == Utf8Width(guess[..k + 1]) by {
        CellsOfSnoc(guess, offset, k);
        CellInBounds(guess, offset, k, |las0|);
      }
      assert Populated(las0, done + [Cell(idx, l)]) == las[idx := LetterAnswer([l], NotInWord)] by {
        PopulatedSnoc(las0, done, Cell(idx, l));
      }
      las := las[idx := LetterAnswer([l], NotInWord)];
      done := done + [Cell(idx, l)];
      j, k := j + Utf8Len(l), k + 1;
    }
    assert guess[..k] == guess;
  }

  /** The second pass over the guess words. */
  method FindCorrect(las0: seq<LetterAnswer>, freq0: map<char, int>, trs: string,
                     guesses: seq<string>, offsets: seq<nat>)
    returns (las: seq<LetterAnswer>, freq: map<char, int>)
    requires |las0| == |trs|
    requires |guesses| <= |offsets| && InBounds(Cells(guesses, offsets), |trs|)
    ensures Scoring(las, freq) == Corrected(Scoring(las0, freq0), trs, Cells(guesses, offsets))
  {
    las, freq := las0, freq0;
    var i := 0;
    while i < |guesses|
      invariant i <= |guesses|
      invariant Scoring(las, freq) == Corrected(Scoring(las0, freq0), trs, Cells(guesses[..i], offsets))
    {
      WordInBounds(guesses, offsets, i, |trs|);
      CellsSnoc(guesses, offsets, i);
      CorrectedAppend(Scoring(las0, freq0), trs, Cells(guesses[..i], offsets), CellsOf(guesses[i], offsets[i]));
      las, freq := CorrectWord(las, freq, trs, guesses[i], offsets[i]);
      i := i + 1;
    }
    assert guesses[..i] == guesses;
  }

  /** The second pass over the runes of one guess word. */
  method CorrectWord(las0: seq<LetterAnswer>, freq0: map<char, int>, trs: string, guess: string, offset: nat)
    returns (las: seq<LetterAnswer>, freq: map<char, int>)
    requires |las0| == |trs| && InBounds(CellsOf(guess, offset), |trs|)
    ensures Scoring(las, freq) == Corrected(Scoring(las0, freq0), trs, CellsOf(guess, offset))
  {
    las, freq := las0, freq0;
    ghost var done: seq<Cell> := [];
    var j, k := 0, 0;
    assert guess[..0] == [];
    while k < |guess|
      invariant k <= |guess| && j == Utf8Width(guess[..k]) && done == CellsOf(guess[..k], offset)
      invariant |las| == |trs|
      invariant Scoring(las, freq) == Corrected(Scoring(las0, freq0), trs, done)
    {
      var l := guess[k];
      var idx := j + offset;
      assert idx < |trs| && done + [Cell(idx, l)] == CellsOf(guess[..k + 1], offset) &&
        j + Utf8Len(l) == Utf8Width(guess[..k + 1]) by {
        CellsOfSnoc(guess, offset, k);
        CellInBounds(guess, offset, k, |trs|);
      }
      CorrectedSnoc(Scoring(las0, freq0), trs, done, Cell(idx, l), las, freq);
      done := done + [Cell(idx, l)];
      if l == trs[idx] {
        las := las[idx := las[idx].(status := Correct)];
        freq := Decrement(freq, l);
      }
      j, k := j + Utf8Len(l), k + 1;
    }
    assert guess[..k] == guess;
  }

  /** The third pass over the guess words. */
  method FindMisplaced(las0: seq<LetterAnswer>, freq0: map<char, int>,
                       guesses: seq<string>, offsets: seq<nat>)
    returns (las: seq<LetterAnswer>, freq: map<char, int>)
    requires |guesses| <= |offsets| && InBounds(Cells(guesses, offsets), |las0|)
    ensures Scoring(las, freq) == Misplaced(Scoring(las0, freq0), Cells(guesses, offsets))
  {
    las, freq := las0, freq0;
    var i := 0;
    while i < |guesses|
      invariant i <= |guesses|
      invariant Scoring(las, freq) == Misplaced(Scoring(las0, freq0), Cells(guesses[..i], offsets))
    {
      WordInBounds(guesses, offsets, i, |las0|);
      CellsSnoc(guesses, offsets, i);
      MisplacedAppend(Scoring(las0, freq0), Cells(guesses[..i], offsets), CellsOf(guesses[i], offsets[i]));
      las, freq := MisplaceWord(las, freq, guesses[i], offsets[i]);
      i := i + 1;
    }
    assert guesses[..i] == guesses;
  }

  /** The third pass over the runes of one guess word. */
  method MisplaceWord(las0: seq<LetterAnswer>, freq0: map<char, int>, guess: string, offset: nat)
    returns (las: seq<LetterAnswer>, freq: map<char, int>)
    requires InBounds(CellsOf(guess, offset), |las0|)
    ensures Scoring(las, freq) == Misplaced(Scoring(las0, freq0), CellsOf(guess, offset))
  {
    las, freq := las0, freq0;
    ghost var done: seq<Cell> := [];
    var j, k := 0, 0;
    assert guess[..0] == [];
    while k < |guess|
      invariant k <= |guess| && j == Utf8Width(guess[..k]) && done == CellsOf(guess[..k], offset)
      invariant |las| == |las0|
      invariant Scoring(las, freq) == Misplaced(Scoring(las0, freq0), done)
    {
      var l := guess[k];
      var idx := j + offset;
      assert idx < |las0| && done + [Cell(idx, l)] == CellsOf(guess[..k + 1], offset) &&
        j + Utf8Len(l) == Utf8Width(guess[..k + 1]) by {
        CellsOfSnoc(guess, offset, k);
        CellInBounds(guess, offset, k, |las0|);
      }
      MisplacedSnoc(Scoring(las0, freq0), done, Cell(idx, l), las, freq);
      if !(FreqOf(freq, l) <= 0 || las[idx].status == Correct) {
        las := las[idx := las[idx].(status := WrongPosition)];
        freq := Decrement(freq, l);
      }
      done := done + [Cell(idx, l)];
      j, k := j + Utf8Len(l), k + 1;
    }
    assert guess[..k] == guess;
  }

  lemma PopulatedSnoc(las: seq<LetterAnswer>, cells: seq<Cell>, c: Cell)
    requires c.idx < |las|
    ensures Populated(las, cells + [c]) == Populated(las, cells)[c.idx := LetterAnswer([c.letter], NotInWord)]
  {
    assert (cells + [c])[..|cells|] == cells;
  }

  /** One more cell for the second pass, from the state `las`, `freq` it finds. */
  lemma CorrectedSnoc(st: Scoring, trs: string, cells: seq<Cell>, c: Cell,
                      las: seq<LetterAnswer>, freq: map<char, int>)
    requires Scoring(las, freq) == Corrected(st, trs, cells)
    requires c.idx < |las| && c.idx < |trs|
    ensures Corrected(st, trs, cells + [c]) ==
      if c.letter == trs[c.idx] then Scoring(las[c.idx := las[c.idx].(status := Correct)], Decrement(freq, c.letter))
      else Scoring(las, freq)
  {
    assert (cells + [c])[..|cells|] == cells;
  }

  /** One more cell for the third pass, from the state `las`, `freq` it finds. */
  lemma MisplacedSnoc(st: Scoring, cells: seq<Cell>, c: Cell, las: seq<LetterAnswer>, freq: map<char, int>)
    requires Scoring(las, freq) == Misplaced(st, cells)
    requires c.idx < |las|
    ensures Misplaced(st, cells + [c]) ==
      if FreqOf(freq, c.letter) <= 0 || las[c.idx].status == Correct then Scoring(las, freq)
      else Scoring(las[c.idx := las[c.idx].(status := WrongPosition)], Decrement(freq, c.letter))
  {
    assert (cells + [c])[..|cells|] == cells;
  }

  /** `CalcAnswer`: the answer for guess words laid on row `r`. Word i
      starts at the i-th run start; the source indexes the answer without a
      bounds check, so every visited position must fall inside the target
      (a panic otherwise) and there must be a run for every word. */
  method CalcAnswer(g: Game, guesses: seq<string>, r: Row) returns (las: seq<LetterAnswer>)
    requires |guesses| <= |StartsOf(r)|
    requires InBounds(Cells(guesses, StartsOf(r)), |g.targetWord|)
    ensures las == Score(g.targetWord, Cells(guesses, StartsOf(r)))
  {
    var freq := TargetFreq(g);
    var trs := g.targetWord;
    var startOffsets := ToStartOffsets(r);
    las := [];
    var i := 0;
    while i < |trs|
      invariant 0 <= i <= |trs|
      invariant las == Blank(i)
    {
      las := las + [LetterAnswer("", PositionNotUsed)];
      i := i + 1;
    }
    las := PopulateGuesses(las, guesses, startOffsets);
    las, freq := FindCorrect(las, freq, trs, guesses, startOffsets);
    las, freq := FindMisplaced(las, freq, guesses, startOffsets);
  }

  // ---------------------------------------------------------------------
  // What the scoring promises

  /** Position shows letter `l` and is marked Correct or WrongPosition. */
  predicate IsMarked(a: LetterAnswer, l: char) {
    a.letter == [l] && (a.status == Correct || a.status == WrongPosition)
  }

  /** Number of positions that spend an occurrence of `l`. */
  function Marked(las: seq<LetterAnswer>, l: char): nat {
    if las == [] then 0
    else Marked(las[..|las| - 1], l) + (if IsMarked(las[|las| - 1], l) then 1 else 0)
  }

  lemma {:induction false} MarkedUpdate(las: seq<LetterAnswer>, x: nat, v: LetterAnswer, l: char)
    requires x < |las|
    ensures Marked(las[x := v], l) ==
      Marked(las, l) - (if IsMarked(las[x], l) then 1 else 0) + (if IsMarked(v, l) then 1 else 0)
    decreases |las|
  {
    var n := |las| - 1;
    var u := las[x := v];
    if x == n {
      assert u[..n] == las[..n];
    } else {
      assert u[..n] == las[..n][x := v];
      MarkedUpdate(las[..n], x, v, l);
    }
  }

  /** Marked positions all hold `l` in the target, so there are no more of
      them than occurrences of `l`. */
  lemma {:induction false} MarkedAtMostMatches(las: seq<LetterAnswer>, trs: string, l: char)
    requires |las| == |trs|
    requires forall k :: 0 <= k < |las| && IsMarked(las[k], l) ==> trs[k] == l
    ensures Marked(las, l) <= Occurrences(trs, l)
    decreases |las|
  {
    if las != [] {
      var n := |las| - 1;
      MarkedAtMostMatches(las[..n], trs[..n], l);
    }
  }

  lemma {:induction false} NothingMarked(las: seq<LetterAnswer>, l: char)
    requires forall k :: 0 <= k < |las| ==> las[k].status != Correct && las[k].status != WrongPosition
    ensures Marked(las, l) == 0
    decreases |las|
  {
    if las != [] {
      NothingMarked(las[..|las| - 1], l);
    }
  }

  lemma DistinctPrefix(cells: seq<Cell>, n: nat)
    requires Distinct(cells) && n <= |cells|
    ensures Distinct(cells[..n])
    ensures forall a :: 0 <= a < n ==> cells[a].idx != cells[n - 1].idx || a == n - 1
  {
  }

  /** After the first pass: each visited position shows its rune as
      NotInWord and every other position is unchanged. */
  lemma {:induction false} PopulatedFacts(las: seq<LetterAnswer>, cells: seq<Cell>)
    requires InBounds(cells, |las|) && Distinct(cells)
    ensures forall a :: 0 <= a < |cells| ==>
      Populated(las, cells)[cells[a].idx] == LetterAnswer([cells[a].letter], NotInWord)
    ensures forall k :: 0 <= k < |las| && Uncovered(cells, k) ==> Populated(las, cells)[k] == las[k]
    decreases |cells|
  {
    if cells != [] {
      var n := |cells| - 1;
      var init, c := cells[..n], cells[n];
      DistinctPrefix(cells, n + 1);
      assert cells[..n + 1] == cells;
      PopulatedFacts(las, init);
      forall a | 0 <= a < n
        ensures init[a] == cells[a] && cells[a].idx != c.idx
      {
      }
    }
  }

  /** After the second pass: a visited position is Correct exactly when its
      rune is the target's rune there, and each Correct mark spends one
      occurrence of its rune. */
  lemma {:induction false} CorrectedFacts(st: Scoring, trs: string, cells: seq<Cell>)
    requires |st.las| == |trs| && InBounds(cells, |trs|) && Distinct(cells)
    requires forall a :: 0 <= a < |cells| ==>
      st.las[cells[a].idx] == LetterAnswer([cells[a].letter], NotInWord)
    ensures var e := Corrected(st, trs, cells);
      forall a :: 0 <= a < |cells| ==>
        e.las[cells[a].idx] == LetterAnswer([cells[a].letter],
          if cells[a].letter == trs[cells[a].idx] then Correct else NotInWord)
    ensures var e := Corrected(st, trs, cells);
      forall k :: 0 <= k < |trs| && Uncovered(cells, k) ==> e.las[k] == st.las[k]
    ensures var e := Corrected(st, trs, cells);
      forall l :: FreqOf(e.freq, l) + Marked(e.las, l) == FreqOf(st.freq, l) + Marked(st.las, l)
    decreases |cells|
  {
    if cells != [] {
      var n := |cells| - 1;
      var init, c := cells[..n], cells[n];
      DistinctPrefix(cells, n + 1);
      assert cells[..n + 1] == cells;
      forall a | 0 <= a < n
        ensures init[a] == cells[a] && cells[a].idx != c.idx
      {
      }
      CorrectedFacts(st, trs, init);
      var p := Corrected(st, trs, init);
      assert p.las[c.idx] == LetterAnswer([c.letter], NotInWord);
      if c.letter == trs[c.idx] {
        var v := LetterAnswer([c.letter], Correct);
        assert Corrected(st, trs, cells) == Scoring(p.las[c.idx := v], Decrement(p.freq, c.letter));
        forall l
          ensures FreqOf(Decrement(p.freq, c.letter), l) + Marked(p.las[c.idx := v], l) ==
            FreqOf(p.freq, l) + Marked(p.las, l)
        {
          MarkedUpdate(p.las, c.idx, v, l);
          DecrementCounts(p.freq, c.letter, l);
          assert IsMarked(v, l) <==> l == c.letter;
        }
      }
    }
  }

  /** The third pass changes only visited positions that are not Correct,
      keeps every letter, and never drives a count below zero. */
  lemma {:induction false} MisplacedFrame(st: Scoring, cells: seq<Cell>)
    requires InBounds(cells, |st.las|) && Distinct(cells)
    requires forall l :: FreqOf(st.freq, l) >= 0
    ensures var e := Misplaced(st, cells);
      forall k :: 0 <= k < |st.las| && Uncovered(cells, k) ==> e.las[k] == st.las[k]
    ensures var e := Misplaced(st, cells);
      forall a :: 0 <= a < |cells| ==>
        e.las[cells[a].idx] == st.las[cells[a].idx] ||
        (st.las[cells[a].idx].status != Correct &&
         e.las[cells[a].idx] == st.las[cells[a].idx].(status := WrongPosition))
    ensures var e := Misplaced(st, cells);
      forall l :: 0 <= FreqOf(e.freq, l) <= FreqOf(st.freq, l)
    decreases |cells|
  {
    if cells != [] {
      var n := |cells| - 1;
      var init, c := cells[..n], cells[n];
      DistinctPrefix(cells, n + 1);
      assert cells[..n + 1] == cells;
      forall a | 0 <= a < n
        ensures init[a] == cells[a] && cells[a].idx != c.idx
      {
      }
      MisplacedFrame(st, init);
      var p := Misplaced(st, init);
      assert p.las[c.idx] == st.las[c.idx];
      if !(FreqOf(p.freq, c.letter) <= 0 || p.las[c.idx].status == Correct) {
        forall l
          ensures 0 <= FreqOf(Decrement(p.freq, c.letter), l) <= FreqOf(st.freq, l)
        {
          DecrementCounts(p.freq, c.letter, l);
        }
      }
    }
  }

  /** Each WrongPosition mark spends one occurrence of its rune. */
  lemma {:induction false} MisplacedConserves(st: Scoring, cells: seq<Cell>)
    requires InBounds(cells, |st.las|) && Distinct(cells)
    requires forall l :: FreqOf(st.freq, l) >= 0
    requires forall a :: 0 <= a < |cells| ==> st.las[cells[a].idx].letter == [cells[a].letter]
    requires forall a :: 0 <= a < |cells| ==>
      st.las[cells[a].idx].status == Correct || st.las[cells[a].idx].status == NotInWord
    ensures var e := Misplaced(st, cells);
      forall l :: FreqOf(e.freq, l) + Marked(e.las, l) == FreqOf(st.freq, l) + Marked(st.las, l)
    decreases |cells|
  {
    if cells != [] {
      var n := |cells| - 1;
      var init, c := cells[..n], cells[n];
      DistinctPrefix(cells, n + 1);
      assert cells[..n + 1] == cells;
      forall a | 0 <= a < n
        ensures init[a] == cells[a] && cells[a].idx != c.idx
      {
      }
      MisplacedConserves(st, init);
      MisplacedFrame(st, init);
      var p := Misplaced(st, init);
      assert p.las[c.idx] == st.las[c.idx];
      if !(FreqOf(p.freq, c.letter) <= 0 || p.las[c.idx].status == Correct) {
        var v := p.las[c.idx].(status := WrongPosition);
        forall l
          ensures FreqOf(Decrement(p.freq, c.letter), l) + Marked(p.las[c.idx := v], l) ==
            FreqOf(p.freq, l) + Marked(p.las, l)
        {
          MarkedUpdate(p.las, c.idx, v, l);
          DecrementCounts(p.freq, c.letter, l);
          assert IsMarked(v, l) <==> l == c.letter;
          assert !IsMarked(p.las[c.idx], l);
        }
      }
    }
  }

  /** A visited position left NotInWord found no occurrence of its rune
      left to spend. */
  lemma {:induction false} MisplacedExhausts(st: Scoring, cells: seq<Cell>)
    requires InBounds(cells, |st.las|) && Distinct(cells)
    requires forall l :: FreqOf(st.freq, l) >= 0
    requires forall a :: 0 <= a < |cells| ==>
      st.las[cells[a].idx].status == Correct || st.las[cells[a].idx].status == NotInWord
    ensures var e := Misplaced(st, cells);
      forall a :: 0 <= a < |cells| && e.las[cells[a].idx].status == NotInWord ==>
        FreqOf(e.freq, cells[a].letter) <= 0
    decreases |cells|
  {
    if cells != [] {
      var n := |cells| - 1;
      var init, c := cells[..n], cells[n];
      DistinctPrefix(cells, n + 1);
      assert cells[..n + 1] == cells;
      forall a | 0 <= a < n
        ensures init[a] == cells[a] && cells[a].idx != c.idx
      {
      }
      MisplacedExhausts(st, init);
      MisplacedFrame(st, init);
      var p := Misplaced(st, init);
      assert p.las[c.idx] == st.las[c.idx];
      var e := Misplaced(st, cells);
      forall a | 0 <= a < n
        ensures FreqOf(e.freq, cells[a].letter) <= FreqOf(p.freq, cells[a].letter)
      {
        DecrementCounts(p.freq, c.letter, cells[a].letter);
      }
    }
  }

  lemma AfterPopulateFacts(trs: string, cells: seq<Cell>)
    requires InBounds(cells, |trs|) && Distinct(cells)
    ensures forall a :: 0 <= a < |cells| ==>
      AfterPopulate(trs, cells)[cells[a].idx] == LetterAnswer([cells[a].letter], NotInWord)
    ensures forall k :: 0 <= k < |trs| && Uncovered(cells, k) ==>
      AfterPopulate(trs, cells)[k] == LetterAnswer("", PositionNotUsed)
    ensures forall l :: Marked(AfterPopulate(trs, cells), l) == 0
  {
    var las := AfterPopulate(trs, cells);
    PopulatedFacts(Blank(|trs|), cells);
    forall k | 0 <= k < |las|
      ensures las[k].status != Correct && las[k].status != WrongPosition
    {
      if !Uncovered(cells, k) {
        var a :| 0 <= a < |cells| && cells[a].idx == k;
      }
    }
    forall l
      ensures Marked(las, l) == 0
    {
      NothingMarked(las, l);
    }
  }

  /** After the first two passes: Correct exactly where the rune matches,
      and the remaining count of each rune is its occurrences in the target
      less its Correct marks, never negative. */
  lemma AfterCorrectFacts(trs: string, cells: seq<Cell>)
    requires InBounds(cells, |trs|) && Distinct(cells)
    ensures forall a :: 0 <= a < |cells| ==>
      AfterCorrect(trs, cells).las[cells[a].idx] == LetterAnswer([cells[a].letter],
        if cells[a].letter == trs[cells[a].idx] then Correct else NotInWord)
    ensures forall k :: 0 <= k < |trs| && Uncovered(cells, k) ==>
      AfterCorrect(trs, cells).las[k] == LetterAnswer("", PositionNotUsed)
    ensures forall l :: (FreqOf(AfterCorrect(trs, cells).freq, l) + Marked(AfterCorrect(trs, cells).las, l)
      == Occurrences(trs, l))
    ensures forall l :: FreqOf(AfterCorrect(trs, cells).freq, l) >= 0
  {
    var st := Scoring(AfterPopulate(trs, cells), Freq(trs));
    AfterPopulateFacts(trs, cells);
    CorrectedFacts(st, trs, cells);
    var e := AfterCorrect(trs, cells);
    forall l
      ensures FreqOf(e.freq, l) + Marked(e.las, l) == Occurrences(trs, l)
      ensures FreqOf(e.freq, l) >= 0
    {
      FreqCountsOccurrences(trs, l);
      forall k | 0 <= k < |e.las| && IsMarked(e.las[k], l)
        ensures trs[k] == l
      {
        if !Uncovered(cells, k) {
          var a :| 0 <= a < |cells| && cells[a].idx == k;
        }
      }
      MarkedAtMostMatches(e.las, trs, l);
    }
  }

  /** `CalcAnswer` leaves every position no guess rune lands on blank and
      PositionNotUsed. */
  lemma ScoreBlanks(trs: string, cells: seq<Cell>)
    requires InBounds(cells, |trs|) && Distinct(cells)
    ensures forall k :: 0 <= k < |trs| && Uncovered(cells, k) ==>
      Score(trs, cells)[k] == LetterAnswer("", PositionNotUsed)
  {
    AfterCorrectFacts(trs, cells);
    MisplacedFrame(AfterCorrect(trs, cells), cells);
  }

  /** A position a guess rune lands on shows that rune; it is Correct
      exactly when the rune is the target's rune there, and otherwise
      WrongPosition or NotInWord. */
  lemma ScoreLetters(trs: string, cells: seq<Cell>)
    requires InBounds(cells, |trs|) && Distinct(cells)
    ensures forall a :: 0 <= a < |cells| ==>
      var s := Score(trs, cells)[cells[a].idx];
      s.letter == [cells[a].letter] &&
      (s.status == Correct <==> cells[a].letter == trs[cells[a].idx]) &&
      (s.status == Correct || s.status == WrongPosition || s.status == NotInWord)
  {
    AfterCorrectFacts(trs, cells);
    MisplacedFrame(AfterCorrect(trs, cells), cells);
  }

  /** No rune is marked Correct or WrongPosition more often than it occurs
      in the target. */
  lemma ScoreBudget(trs: string, cells: seq<Cell>)
    requires InBounds(cells, |trs|) && Distinct(cells)
    ensures forall l :: Marked(Score(trs, cells), l) <= Occurrences(trs, l)
  {
    var st := AfterCorrect(trs, cells);
    AfterCorrectFacts(trs, cells);
    MisplacedFrame(st, cells);
    MisplacedConserves(st, cells);
  }

  /** A guess rune is left NotInWord only when every occurrence of it in
      the target is already marked Correct or WrongPosition. */
  lemma ScoreNotInWordExhausts(trs: string, cells: seq<Cell>)
    requires InBounds(cells, |trs|) && Distinct(cells)
    ensures forall a :: 0 <= a < |cells| && Score(trs, cells)[cells[a].idx].status == NotInWord ==>
      Marked(Score(trs, cells), cells[a].letter) == Occurrences(trs, cells[a].letter)
  {
    var st := AfterCorrect(trs, cells);
    AfterCorrectFacts(trs, cells);
    MisplacedFrame(st, cells);
    MisplacedConserves(st, cells);
    MisplacedExhausts(st, cells);
  }

  /** A left-to-right scan of a row, as a reference for `RunsOf`: `t` is the
      length of the run in progress and `acc` the runs already closed. */
  function ScanRuns(r: Row, i: nat, t: nat, acc: seq<nat>): seq<nat>
    decreases |r| - i
  {
    if i >= |r| then acc + Open(t)
    else if r[i] then ScanRuns(r, i + 1, t + 1, acc)
    else ScanRuns(r, i + 1, 0, acc + Open(t))
  }

  /** A left-to-right scan of a row, as a reference for `StartsOf`. */
  function ScanStarts(r: Row, i: nat, t: nat, acc: seq<nat>): seq<nat>
    decreases |r| - i
  {
    if i >= |r| then acc
    else ScanStarts(r, i + 1, if r[i] then t + 1 else 0, acc + (if r[i] && t == 0 then [i] else []))
  }

  /** Adding column `i` of `r` to the prefix before it, whose trailing run,
      closed runs and run starts are `t`, `c` and `s`. */
  lemma ColumnStep(r: Row, i: nat, t: nat, c: seq<nat>, s: seq<nat>)
    requires i < |r|
    requires TrailingRun(r[..i]) == t && ClosedRuns(r[..i]) == c && StartsOf(r[..i]) == s
    ensures TrailingRun(r[..i + 1]) == (if r[i] then t + 1 else 0)
    ensures ClosedRuns(r[..i + 1]) == (if r[i] then c else c + Open(t))
    ensures StartsOf(r[..i + 1]) == s + (if r[i] && t == 0 then [i] else [])
  {
    var p := r[..i + 1];
    assert p[..i] == r[..i];
    assert IsStart(p, i) <==> r[i] && t == 0;
  }

  /** Scanning the rest of a row from any column gives the runs and the
      starts of the whole row. */
  lemma {:induction false} ScanAgrees(r: Row, i: nat)
    requires i <= |r|
    ensures ScanRuns(r, i, TrailingRun(r[..i]), ClosedRuns(r[..i])) == RunsOf(r)
    ensures ScanStarts(r, i, TrailingRun(r[..i]), StartsOf(r[..i])) == StartsOf(r)
    decreases |r| - i
  {
    if i == |r| {
      assert r[..i] == r;
    } else {
      ColumnStep(r, i, TrailingRun(r[..i]), ClosedRuns(r[..i]), StartsOf(r[..i]));
      ScanAgrees(r, i + 1);
    }
  }

  /** The scans of a row from its first column are its runs and its starts. */
  lemma ScanFromStart(r: Row)
    ensures ScanRuns(r, 0, 0, []) == RunsOf(r)
    ensures ScanStarts(r, 0, 0, []) == StartsOf(r)
  {
    assert r[..0] == [];
    ScanAgrees(r, 0);
  }

  /** The run lengths and run starts of the default shape's rows, as the
      server's tests expect them. */
  lemma DefaultShapeRuns()
    ensures var s := DefaultShape();
      RunsOf(s[0]) == [7] && RunsOf(s[1]) == [4, 2] && RunsOf(s[2]) == [3, 3] &&
      RunsOf(s[3]) == [2, 4] && RunsOf(s[4]) == [3] && RunsOf(s[5]) == [5]
    ensures var s := DefaultShape();
      StartsOf(s[0]) == [0] && StartsOf(s[1]) == [0, 5] && StartsOf(s[2]) == [0, 4] &&
      StartsOf(s[3]) == [0, 3] && StartsOf(s[4]) == [2] && StartsOf(s[5]) == [1]
  {
    var s := DefaultShape();
    assert s[0] == [true, true, true, true, true, true, true];
    ScanFromStart([true, true, true, true, true, true, true]);
    assert s[1] == [true, true, true, true, false, true, true];
    ScanFromStart([true, true, true, true, false, true, true]);
    assert s[2] == [true, true, true, false, true, true, true];
    ScanFromStart([true, true, true, false, true, true, true]);
    assert s[3] == [true, true, false, true, true, true, true];
    ScanFromStart([true, true, false, true, true, true, true]);
    assert s[4] == [false, false, true, true, true, false, false];
    ScanFromStart([false, false, true, true, true, false, false]);
    assert s[5] == [false, true, true, true, true, true, false];
    ScanFromStart([false, true, true, true, true, true, false]);
  }

  /** A row of two runs splits a guess of exactly their lengths into its
      two pieces. */
  lemma SplitsInTwo(r: Row, a: string, b: string)
    requires RunsOf(r) == [|a|, |b|]
    ensures Split(r, a + b) == Some([a, b])
  {
    RunsCoverTheActiveColumns(r);
    assert Sum([|a|, |b|]) == |a| + |b| by {
      SumSnoc([|a|], |b|);
      SumSnoc([], |a|);
      assert [|a|] + [|b|] == [|a|, |b|];
      assert [] + [|a|] == [|a|];
    }
    assert Lengths([a, b]) == [|a|, |b|] by {
      LengthsAt([a, b]);
    }
    assert Concat([a, b]) == a + b by {
      assert [a, b][..1] == [a];
      assert [a][..0] == [];
      assert Concat([a]) == a;
    }
    SplitIsUnique(r, a + b, [a, b]);
  }

  /** A row of one run splits a guess of exactly its length into itself. */
  lemma SplitsInOne(r: Row, a: string)
    requires RunsOf(r) == [|a|]
    ensures Split(r, a) == Some([a])
  {
    RunsCoverTheActiveColumns(r);
    assert Sum([|a|]) == |a| by {
      assert [|a|][..0] == [];
    }
    assert Lengths([a]) == [|a|] by {
      LengthsAt([a]);
    }
    assert Concat([a]) == a by {
      assert [a][..0] == [];
    }
    SplitIsUnique(r, a, [a]);
  }

  /** The guesses of the split test, one per row of the default shape, and
      the words they split into. */
  lemma DefaultShapeSplits()
    ensures var s := DefaultShape();
      Split(s[0], "detract") == Some(["detract"]) && Split(s[1], "testin") == Some(["test", "in"]) &&
      Split(s[2], "catdog") == Some(["cat", "dog"]) && Split(s[3], "onstop") == Some(["on", "stop"]) &&
      Split(s[4], "pet") == Some(["pet"]) && Split(s[5], "guess") == Some(["guess"])
  {
    var s := DefaultShape();
    DefaultShapeRuns();
    SplitsInOne(s[0], "detract");
    assert "test" + "in" == "testin";
    SplitsInTwo(s[1], "test", "in");
    assert "cat" + "dog" == "catdog";
    SplitsInTwo(s[2], "cat", "dog");
    assert "on" + "stop" == "onstop";
    SplitsInTwo(s[3], "on", "stop");
    SplitsInOne(s[4], "pet");
    SplitsInOne(s[5], "guess");
  }
}
