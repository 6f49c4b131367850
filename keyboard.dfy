/** The keyboard renderer of the client (src/lib/keyboard/index.ts): its
    copy of the past guesses and the aggregation of everything known about
    each letter key. Drawing the keys and forwarding clicks are not modelled. */
module Keyboard {
  import opened Basics
  import opened Board

  /** `KEYS_BY_ROW`: the letter keys, row by row. */
  const KeysByRow: seq<seq<string>> := [
    ["q", "w", "e", "r", "t", "y", "u", "i", "o", "p"],
    ["a", "s", "d", "f", "g", "h", "j", "k", "l"],
    ["z", "x", "c", "v", "b", "n", "m"]
  ]

  function Flatten(rows: seq<seq<string>>): seq<string> {
    if rows == [] then [] else Flatten(rows[..|rows| - 1]) + rows[|rows| - 1]
  }

  /** The keys in the order `sumGuessKnowledge` visits them. */
  function AllKeys(): seq<string> {
    Flatten(KeysByRow)
  }

  /** The keys, row after row. */
  lemma AllKeysByRow()
    ensures AllKeys() == KeysByRow[0] + KeysByRow[1] + KeysByRow[2]
  {
    var r0, r1, r2 := KeysByRow[0], KeysByRow[1], KeysByRow[2];
    assert KeysByRow == [r0, r1, r2];
    assert Flatten([r0]) == r0 by { assert [r0][..0] == []; }
    assert Flatten([r0, r1]) == r0 + r1 by { assert [r0, r1][..1] == [r0]; }
    assert Flatten([r0, r1, r2]) == r0 + r1 + r2 by { assert [r0, r1, r2][..2] == [r0, r1]; }
  }

  /** Every key is one lowercase letter, and there are 26 of them. */
  lemma KeysAreLetters()
    ensures |AllKeys()| == 26
    ensures forall key | key in AllKeys() :: |key| == 1 && 'a' <= key[0] <= 'z'
  {
    AllKeysByRow();
    var r0, r1, r2 := KeysByRow[0], KeysByRow[1], KeysByRow[2];
    assert forall i | 0 <= i < |r0| :: |r0[i]| == 1 && 'a' <= r0[i][0] <= 'z';
    assert forall i | 0 <= i < |r1| :: |r1[i]| == 1 && 'a' <= r1[i][0] <= 'z';
    assert forall i | 0 <= i < |r2| :: |r2[i]| == 1 && 'a' <= r2[i][0] <= 'z';
  }

  /** The keys are the 26 lowercase letters. */
  lemma AllKeysAreTheAlphabet()
    ensures |AllKeys()| == 26
    ensures forall key :: key in AllKeys() <==> |key| == 1 && 'a' <= key[0] <= 'z'
  {
    KeysAreLetters();
    forall key | |key| == 1 && 'a' <= key[0] <= 'z'
      ensures key in AllKeys()
    {
      KeyOfLetter(key);
    }
  }

  /** Where each letter sits in the key order. */
  lemma KeyOfLetter(key: string)
    requires |key| == 1 && 'a' <= key[0] <= 'z'
    ensures key in AllKeys()
  {
    AllKeysByRow();
    var keys := AllKeys();
    var c := key[0];
    assert key == [c];
    var i := match c
      case 'a' => 10
      case 'b' => 23
      case 'c' => 21
      case 'd' => 12
      case 'e' => 2
      case 'f' => 13
      case 'g' => 14
      case 'h' => 15
      case 'i' => 7
      case 'j' => 16
      case 'k' => 17
      case 'l' => 18
      case 'm' => 25
      case 'n' => 24
      case 'o' => 8
      case 'p' => 9
      case 'q' => 0
      case 'r' => 3
      case 's' => 11
      case 't' => 4
      case 'u' => 6
      case 'v' => 22
      case 'w' => 1
      case 'x' => 20
      case 'y' => 5
      case _ => 19;
    assert keys[i] == [c];
  }

  /** A letter answer is recorded unless its letter is blank or its status PositionNotUsed. */
  predicate Recorded(la: LetterAnswer) {
    la.letter != "" && la.status != PositionNotUsed
  }

  /** The statuses one guess records for `key`, in order. */
  function StatusesIn(las: seq<LetterAnswer>, key: string): seq<LetterStatus> {
    if las == [] then []
    else
      var la := las[|las| - 1];
      StatusesIn(las[..|las| - 1], key) + (if Recorded(la) && la.letter == key then [la.status] else [])
  }

  /** The statuses the whole history records for `key`, guess by guess (the `tmp` map). */
  function Statuses(h: seq<SrordleAnswer>, key: string): seq<LetterStatus> {
    if h == [] then []
    else Statuses(h[..|h| - 1], key) + StatusesIn(h[|h| - 1].letterAnswers, key)
  }

  /** Some guess holds the letter answer (key, s). */
  predicate Occurs(h: seq<SrordleAnswer>, key: string, s: LetterStatus) {
    exists i, j :: 0 <= i < |h| && 0 <= j < |h[i].letterAnswers| && h[i].letterAnswers[j] == LetterAnswer(key, s)
  }

  datatype KnowledgeError = Exhausted(statuses: seq<LetterStatus>)

  /** The summary of one key's statuses: Untried when there are none,
      otherwise Correct over WrongPosition over NotInWord; None when none
      of these three is present (the source throws). */
  function Summarize(ls: seq<LetterStatus>): Option<LetterStatus> {
    if ls == [] then Some(Untried)
    else if Correct in ls then Some(Correct)
    else if WrongPosition in ls then Some(WrongPosition)
    else if NotInWord in ls then Some(NotInWord)
    else None
  }

  /** The summary of what the history records for one key. */
  function KeySummary(h: seq<SrordleAnswer>, key: string): Option<LetterStatus> {
    Summarize(Statuses(h, key))
  }

  /** The aggregation over `keys` in order; fails at the first key whose
      statuses cannot be summarized. */
  function KnowledgeOver(keys: seq<string>, h: seq<SrordleAnswer>): Result<map<string, LetterStatus>, KnowledgeError> {
    if keys == [] then Success(map[])
    else match KnowledgeOver(keys[..|keys| - 1], h) {
      case Failure(e) => Failure(e)
      case Success(m) =>
        var key := keys[|keys| - 1];
        match KeySummary(h, key) {
          case None => Failure(Exhausted(Statuses(h, key)))
          case Some(s) => Success(m[key := s])
        }
    }
  }

  /** `sumGuessKnowledge` as a function of the history. */
  function Knowledge(h: seq<SrordleAnswer>): Result<map<string, LetterStatus>, KnowledgeError> {
    KnowledgeOver(AllKeys(), h)
  }

  /** A status is recorded for a key exactly when some guess holds that
      letter answer, the letter is not blank and the status is not PositionNotUsed. */
  lemma {:induction false} StatusesInMembership(las: seq<LetterAnswer>, key: string, s: LetterStatus)
    ensures s in StatusesIn(las, key) <==>
      key != "" && s != PositionNotUsed && exists j :: 0 <= j < |las| && las[j] == LetterAnswer(key, s)
    decreases |las|
  {
    if las != [] {
      var init := las[..|las| - 1];
      StatusesInMembership(init, key, s);
      if exists j :: 0 <= j < |las| && las[j] == LetterAnswer(key, s) {
        var j :| 0 <= j < |las| && las[j] == LetterAnswer(key, s);
        if j < |las| - 1 {
          assert init[j] == las[j];
        }
      }
      if exists j :: 0 <= j < |init| && init[j] == LetterAnswer(key, s) {
        var j :| 0 <= j < |init| && init[j] == LetterAnswer(key, s);
        assert las[j] == init[j];
      }
    }
  }

  lemma {:induction false} StatusesMembership(h: seq<SrordleAnswer>, key: string, s: LetterStatus)
    ensures s in Statuses(h, key) <==> key != "" && s != PositionNotUsed && Occurs(h, key, s)
    decreases |h|
  {
    if h != [] {
      var init := h[..|h| - 1];
      var last := h[|h| - 1];
      StatusesMembership(init, key, s);
      StatusesInMembership(last.letterAnswers, key, s);
      if Occurs(h, key, s) {
        var i, j :| 0 <= i < |h| && 0 <= j < |h[i].letterAnswers| && h[i].letterAnswers[j] == LetterAnswer(key, s);
        if i < |h| - 1 {
          assert init[i] == h[i];
        }
      }
      if Occurs(init, key, s) {
        var i, j :| 0 <= i < |init| && 0 <= j < |init[i].letterAnswers| && init[i].letterAnswers[j] == LetterAnswer(key, s);
        assert h[i] == init[i];
      }
    }
  }

  /** The aggregation succeeds exactly when every key can be summarized. */
  lemma {:induction false} KnowledgeOverSucceedsIff(keys: seq<string>, h: seq<SrordleAnswer>)
    ensures KnowledgeOver(keys, h).Success? <==> forall k :: k in keys ==> KeySummary(h, k).Some?
    decreases |keys|
  {
    if keys != [] {
      var init, last := keys[..|keys| - 1], keys[|keys| - 1];
      KnowledgeOverSucceedsIff(init, h);
      assert keys == init + [last];
      assert forall k :: k in keys <==> k in init || k == last;
    }
  }

  /** On success the map has exactly the given keys, each bound to its summary. */
  lemma {:induction false} KnowledgeOverMap(keys: seq<string>, h: seq<SrordleAnswer>)
    requires KnowledgeOver(keys, h).Success?
    ensures forall k :: k in KnowledgeOver(keys, h).value <==> k in keys
    ensures forall k :: k in KnowledgeOver(keys, h).value ==>
      KeySummary(h, k) == Some(KnowledgeOver(keys, h).value[k])
    decreases |keys|
  {
    if keys != [] {
      var init, last := keys[..|keys| - 1], keys[|keys| - 1];
      KnowledgeOverMap(init, h);
      var m := KnowledgeOver(init, h).value;
      assert KnowledgeOver(keys, h).value == m[last := KeySummary(h, last).value];
      assert keys == init + [last];
      forall k ensures k in keys <==> k in init || k == last {
      }
    }
  }

  /** Failure is kept by every later key: the first failing key decides the error. */
  lemma {:induction false} KnowledgeOverFailureSticks(keys: seq<string>, more: seq<string>, h: seq<SrordleAnswer>)
    requires KnowledgeOver(keys, h).Failure?
    ensures KnowledgeOver(keys + more, h) == KnowledgeOver(keys, h)
    decreases |more|
  {
    if more == [] {
      assert keys + more == keys;
    } else {
      KnowledgeOverFailureSticks(keys, more[..|more| - 1], h);
      assert (keys + more)[..|keys + more| - 1] == keys + more[..|more| - 1];
    }
  }

  /** The keyboard assigns a status to each of the 26 letter keys and to no other key. */
  lemma KnowledgeCoversExactlyTheLetters(h: seq<SrordleAnswer>)
    requires Knowledge(h).Success?
    ensures forall key :: key in Knowledge(h).value <==> |key| == 1 && 'a' <= key[0] <= 'z'
  {
    KnowledgeOverMap(AllKeys(), h);
    AllKeysAreTheAlphabet();
  }

  /** What a key shows: Correct if any of its recorded answers is Correct,
      else WrongPosition if any is, else NotInWord if any is, and Untried
      when the letter was never recorded. */
  lemma KeyStatusMeaning(h: seq<SrordleAnswer>, key: string)
    requires Knowledge(h).Success? && key in Knowledge(h).value
    ensures var s := Knowledge(h).value[key];
      (s == Correct <==> Occurs(h, key, Correct)) &&
      (s == WrongPosition <==> !Occurs(h, key, Correct) && Occurs(h, key, WrongPosition)) &&
      (s == NotInWord <==> !Occurs(h, key, Correct) && !Occurs(h, key, WrongPosition) && Occurs(h, key, NotInWord)) &&
      (s == Untried <==> Statuses(h, key) == [])
  {
    KnowledgeOverMap(AllKeys(), h);
    AllKeysAreTheAlphabet();
    StatusesMembership(h, key, Correct);
    StatusesMembership(h, key, WrongPosition);
    StatusesMembership(h, key, NotInWord);
  }

  /** The aggregation throws exactly when some letter key has recorded
      statuses none of which is Correct, WrongPosition or NotInWord (for
      instance only Guessing). */
  lemma KnowledgeFailsIff(h: seq<SrordleAnswer>)
    ensures Knowledge(h).Failure? <==>
      exists key :: key in AllKeys() && Statuses(h, key) != [] &&
        Correct !in Statuses(h, key) && WrongPosition !in Statuses(h, key) && NotInWord !in Statuses(h, key)
  {
    KnowledgeOverSucceedsIff(AllKeys(), h);
  }

  /** Statuses the server sends (NotInWord, WrongPosition, Correct,
      PositionNotUsed) never make the aggregation throw. */
  lemma ServerStatusesNeverThrow(h: seq<SrordleAnswer>)
    requires forall i, j :: 0 <= i < |h| && 0 <= j < |h[i].letterAnswers| ==>
      h[i].letterAnswers[j].status in {NotInWord, WrongPosition, Correct, PositionNotUsed}
    ensures Knowledge(h).Success?
  {
    KnowledgeOverSucceedsIff(AllKeys(), h);
    forall key | key in AllKeys()
      ensures KeySummary(h, key).Some?
    {
      if Statuses(h, key) != [] {
        var s := Statuses(h, key)[0];
        StatusesMembership(h, key, s);
      }
    }
  }

  /** Order of the key statuses: Untried < NotInWord < WrongPosition < Correct. */
  function Rank(s: LetterStatus): nat {
    match s
    case Untried => 0
    case NotInWord => 1
    case WrongPosition => 2
    case Correct => 3
    case _ => 0
  }

  lemma {:induction false} StatusesAppend(h: seq<SrordleAnswer>, g: SrordleAnswer, key: string)
    ensures Statuses(h + [g], key) == Statuses(h, key) + StatusesIn(g.letterAnswers, key)
  {
    assert (h + [g])[..|h + [g]| - 1] == h;
  }

  lemma SummarizeNeverDrops(a: seq<LetterStatus>, b: seq<LetterStatus>)
    requires Summarize(a).Some? && Summarize(a + b).Some?
    ensures Rank(Summarize(a).value) <= Rank(Summarize(a + b).value)
  {
    if a != [] {
      assert a[0] == (a + b)[0];
      if Correct in a {
        assert Correct in a + b;
      } else if WrongPosition in a {
        assert WrongPosition in a + b;
      } else if NotInWord in a {
        assert NotInWord in a + b;
      }
    }
  }

  /** Adding a guess never lowers any key's status. */
  lemma KnowledgeNeverDrops(h: seq<SrordleAnswer>, g: SrordleAnswer, key: string)
    requires Knowledge(h).Success? && Knowledge(h + [g]).Success?
    requires key in Knowledge(h).value
    ensures key in Knowledge(h + [g]).value
    ensures Rank(Knowledge(h).value[key]) <= Rank(Knowledge(h + [g]).value[key])
  {
    KnowledgeOverMap(AllKeys(), h);
    KnowledgeOverMap(AllKeys(), h + [g]);
    StatusesAppend(h, g, key);
    SummarizeNeverDrops(Statuses(h, key), StatusesIn(g.letterAnswers, key));
  }

  /** A guess whose answers are all blank or PositionNotUsed changes nothing. */
  lemma UnrecordedGuessChangesNothing(h: seq<SrordleAnswer>, g: SrordleAnswer)
    requires forall j :: 0 <= j < |g.letterAnswers| ==> !Recorded(g.letterAnswers[j])
    ensures Knowledge(h + [g]) == Knowledge(h)
  {
    forall key ensures Statuses(h + [g], key) == Statuses(h, key) {
      StatusesAppend(h, g, key);
      if StatusesIn(g.letterAnswers, key) != [] {
        var s := StatusesIn(g.letterAnswers, key)[0];
        StatusesInMembership(g.letterAnswers, key, s);
      }
    }
    KnowledgeOverSameStatuses(AllKeys(), h, h + [g]);
  }

  lemma {:induction false} KnowledgeOverSameStatuses(keys: seq<string>, h1: seq<SrordleAnswer>, h2: seq<SrordleAnswer>)
    requires forall key :: Statuses(h1, key) == Statuses(h2, key)
    ensures KnowledgeOver(keys, h1) == KnowledgeOver(keys, h2)
    decreases |keys|
  {
    if keys != [] {
      KnowledgeOverSameStatuses(keys[..|keys| - 1], h1, h2);
    }
  }

  /** The recorded (letter, status) pairs of one guess. */
  function PairsIn(las: seq<LetterAnswer>): multiset<(string, LetterStatus)> {
    if las == [] then multiset{}
    else
      var la := las[|las| - 1];
      PairsIn(las[..|las| - 1]) + (if Recorded(la) then multiset{(la.letter, la.status)} else multiset{})
  }

  /** The recorded (letter, status) pairs of the whole history. */
  function Pairs(h: seq<SrordleAnswer>): multiset<(string, LetterStatus)> {
    if h == [] then multiset{} else Pairs(h[..|h| - 1]) + PairsIn(h[|h| - 1].letterAnswers)
  }

  lemma {:induction false} PairsInMembership(las: seq<LetterAnswer>, key: string, s: LetterStatus)
    ensures (key, s) in PairsIn(las) <==> s in StatusesIn(las, key)
    decreases |las|
  {
    if las != [] {
      PairsInMembership(las[..|las| - 1], key, s);
    }
  }

  lemma {:induction false} PairsMembership(h: seq<SrordleAnswer>, key: string, s: LetterStatus)
    ensures (key, s) in Pairs(h) <==> s in Statuses(h, key)
    decreases |h|
  {
    if h != [] {
      PairsMembership(h[..|h| - 1], key, s);
      PairsInMembership(h[|h| - 1].letterAnswers, key, s);
    }
  }

  /** The aggregation depends only on the multiset of recorded (letter,
      status) pairs, not on which guess holds them or in what order. */
  lemma KnowledgeDependsOnlyOnPairs(h1: seq<SrordleAnswer>, h2: seq<SrordleAnswer>)
    requires Pairs(h1) == Pairs(h2)
    ensures Knowledge(h1).Success? <==> Knowledge(h2).Success?
    ensures Knowledge(h1).Success? ==> Knowledge(h1) == Knowledge(h2)
  {
    forall key ensures KeySummary(h1, key) == KeySummary(h2, key) {
      forall s ensures s in Statuses(h1, key) <==> s in Statuses(h2, key) {
        PairsMembership(h1, key, s);
        PairsMembership(h2, key, s);
      }
      if Statuses(h1, key) != [] {
        assert Statuses(h1, key)[0] in Statuses(h2, key);
      }
      if Statuses(h2, key) != [] {
        assert Statuses(h2, key)[0] in Statuses(h1, key);
      }
    }
    KnowledgeOverSameSummaries(AllKeys(), h1, h2);
  }

  lemma {:induction false} KnowledgeOverSameSummaries(keys: seq<string>, h1: seq<SrordleAnswer>, h2: seq<SrordleAnswer>)
    requires forall key :: KeySummary(h1, key) == KeySummary(h2, key)
    ensures KnowledgeOver(keys, h1).Success? <==> KnowledgeOver(keys, h2).Success?
    ensures KnowledgeOver(keys, h1).Success? ==> KnowledgeOver(keys, h1) == KnowledgeOver(keys, h2)
    decreases |keys|
  {
    if keys != [] {
      KnowledgeOverSameSummaries(keys[..|keys| - 1], h1, h2);
    }
  }

  lemma {:induction false} PairsConcat(a: seq<SrordleAnswer>, b: seq<SrordleAnswer>)
    ensures Pairs(a + b) == Pairs(a) + Pairs(b)
    decreases |b|
  {
    if b == [] {
      assert a + b == a;
    } else {
      assert (a + b)[..|a + b| - 1] == a + b[..|b| - 1];
      PairsConcat(a, b[..|b| - 1]);
    }
  }

  /** Swapping two blocks of the history does not change the keyboard. */
  lemma KnowledgeIgnoresGuessOrder(a: seq<SrordleAnswer>, b: seq<SrordleAnswer>)
    ensures Knowledge(a + b).Success? <==> Knowledge(b + a).Success?
    ensures Knowledge(a + b).Success? ==> Knowledge(a + b) == Knowledge(b + a)
  {
    PairsConcat(a, b);
    PairsConcat(b, a);
    KnowledgeDependsOnlyOnPairs(a + b, b + a);
  }

  function Get(tmp: map<string, seq<LetterStatus>>, key: string): seq<LetterStatus> {
    if key in tmp then tmp[key] else []
  }

  /** The first half of `sumGuessKnowledge`: the recorded statuses of the
      history grouped by letter, in order (the `tmp` map). */
  method GroupByLetter(h: seq<SrordleAnswer>) returns (tmp: map<string, seq<LetterStatus>>)
    ensures forall key :: Get(tmp, key) == Statuses(h, key)
    ensures forall key :: key in tmp ==> tmp[key] != []
  {
    tmp := map[];
    var g := 0;
    while g < |h|
      invariant 0 <= g <= |h|
      invariant forall key :: Get(tmp, key) == Statuses(h[..g], key)
      invariant forall key :: key in tmp ==> tmp[key] != []
    {
      ghost var before := tmp;
      tmp := GroupGuess(tmp, h[g].letterAnswers);
      forall key ensures Get(tmp, key) == Statuses(h[..g + 1], key) {
        assert h[..g + 1][..g] == h[..g];
        assert Get(before, key) == Statuses(h[..g], key);
      }
      g := g + 1;
    }
    assert h[..g] == h;
  }

  /** The grouping after one guess's letter answers, answer by answer. */
  function Grouped(tmp0: map<string, seq<LetterStatus>>, las: seq<LetterAnswer>): map<string, seq<LetterStatus>> {
    if las == [] then tmp0
    else
      var t := Grouped(tmp0, las[..|las| - 1]);
      var la := las[|las| - 1];
      if Recorded(la) then t[la.letter := Get(t, la.letter) + [la.status]] else t
  }

  lemma {:induction false} GroupedGet(tmp0: map<string, seq<LetterStatus>>, las: seq<LetterAnswer>, key: string)
    ensures Get(Grouped(tmp0, las), key) == Get(tmp0, key) + StatusesIn(las, key)
    decreases |las|
  {
    if las != [] {
      GroupedGet(tmp0, las[..|las| - 1], key);
    }
  }

  lemma {:induction false} GroupedNonEmpty(tmp0: map<string, seq<LetterStatus>>, las: seq<LetterAnswer>)
    requires forall key :: key in tmp0 ==> tmp0[key] != []
    ensures forall key :: key in Grouped(tmp0, las) ==> Grouped(tmp0, las)[key] != []
    decreases |las|
  {
    if las != [] {
      GroupedNonEmpty(tmp0, las[..|las| - 1]);
    }
  }

  /** One guess's letter answers appended to the grouping. */
  method GroupGuess(tmp0: map<string, seq<LetterStatus>>, las: seq<LetterAnswer>) returns (tmp: map<string, seq<LetterStatus>>)
    requires forall key :: key in tmp0 ==> tmp0[key] != []
    ensures forall key :: Get(tmp, key) == Get(tmp0, key) + StatusesIn(las, key)
    ensures forall key :: key in tmp ==> tmp[key] != []
  {
    tmp := tmp0;
    var j := 0;
    while j < |las|
      invariant 0 <= j <= |las|
      invariant tmp == Grouped(tmp0, las[..j])
    {
      var la := las[j];
      assert las[..j + 1][..j] == las[..j];
      if la.letter != "" && la.status != PositionNotUsed {
        var ls := if la.letter in tmp then tmp[la.letter] else [];
        tmp := tmp[la.letter := ls + [la.status]];
      }
      j := j + 1;
    }
    assert las[..j] == las;
    forall key ensures Get(tmp, key) == Get(tmp0, key) + StatusesIn(las, key) {
      GroupedGet(tmp0, las, key);
    }
    GroupedNonEmpty(tmp0, las);
  }

  /** The keyboard's copy of the history. */
  class SrordleKeyboard {
    var pastGuesses: seq<SrordleAnswer>

    constructor ()
      ensures pastGuesses == []
    {
      pastGuesses := [];
    }

    /** `addGuess`: exactly one guess is appended at the end. */
    method AddGuess(guess: SrordleAnswer)
      modifies this
      ensures pastGuesses == old(pastGuesses) + [guess]
    {
      pastGuesses := pastGuesses + [guess];
    }

    /** `setPastGuesses`: the whole history is replaced. */
    method SetPastGuesses(guesses: seq<SrordleAnswer>)
      modifies this
      ensures pastGuesses == guesses
    {
      pastGuesses := guesses;
    }

    /** `sumGuessKnowledge`: group the recorded statuses by letter, then
        summarize each letter key in keyboard order. */
    method SumGuessKnowledge() returns (r: Result<map<string, LetterStatus>, KnowledgeError>)
      ensures r == Knowledge(pastGuesses)
    {
      var h := pastGuesses;
      var tmp := GroupByLetter(h);
      SummaryOverIsKnowledge(AllKeys(), tmp, h);
      r := SummarizeKeys(KeysByRow, tmp);
    }
  }

  /** What `sumGuessKnowledge` makes of one key from the grouping: Untried
      for a letter with no entry, otherwise Correct over WrongPosition over
      NotInWord, and None (the source throws) when none of these is listed. */
  function GroupSummary(tmp: map<string, seq<LetterStatus>>, key: string): Option<LetterStatus> {
    if key !in tmp then Some(Untried)
    else if Correct in tmp[key] then Some(Correct)
    else if WrongPosition in tmp[key] then Some(WrongPosition)
    else if NotInWord in tmp[key] then Some(NotInWord)
    else None
  }

  /** The walk of `sumGuessKnowledge` over `keys`, reading the grouping. */
  function SummaryOver(keys: seq<string>, tmp: map<string, seq<LetterStatus>>): Result<map<string, LetterStatus>, KnowledgeError> {
    if keys == [] then Success(map[])
    else match SummaryOver(keys[..|keys| - 1], tmp) {
      case Failure(e) => Failure(e)
      case Success(m) =>
        var key := keys[|keys| - 1];
        match GroupSummary(tmp, key) {
          case None => Failure(Exhausted(tmp[key]))
          case Some(s) => Success(m[key := s])
        }
    }
  }

  /** Walking the grouping gives the aggregation of the history it groups. */
  lemma {:induction false} SummaryOverIsKnowledge(keys: seq<string>, tmp: map<string, seq<LetterStatus>>, h: seq<SrordleAnswer>)
    requires forall key :: Get(tmp, key) == Statuses(h, key)
    requires forall key :: key in tmp ==> tmp[key] != []
    ensures SummaryOver(keys, tmp) == KnowledgeOver(keys, h)
    decreases |keys|
  {
    if keys != [] {
      var key := keys[|keys| - 1];
      SummaryOverIsKnowledge(keys[..|keys| - 1], tmp, h);
      assert Get(tmp, key) == Statuses(h, key);
    }
  }

  /** The second half of `sumGuessKnowledge`: every key, row by row,
      summarized from the grouping; the first key that cannot be summarized
      ends the walk with an error. */
  method SummarizeKeys(rows: seq<seq<string>>, tmp: map<string, seq<LetterStatus>>)
    returns (r: Result<map<string, LetterStatus>, KnowledgeError>)
    ensures r == SummaryOver(Flatten(rows), tmp)
  {
    var sum: map<string, LetterStatus> := map[];
    ghost var done: seq<string> := [];
    var row := 0;
    while row < |rows|
      invariant 0 <= row <= |rows|
      invariant done == Flatten(rows[..row])
      invariant SummaryOver(done, tmp) == Success(sum)
    {
      var rowResult := SummarizeRow(rows[row], tmp, sum, done);
      FlattenStep(rows, row);
      if rowResult.Failure? {
        FlattenRest(rows, row);
        SummaryFailureSticks(done + rows[row], Flatten(rows[row + 1..]), tmp);
        return rowResult;
      }
      sum := rowResult.value;
      done := done + rows[row];
      row := row + 1;
    }
    assert rows[..row] == rows;
    r := Success(sum);
  }

  /** The inner loop of `sumGuessKnowledge`: the keys of one row added to
      the summary `sum0` of the keys `done` before them. */
  method SummarizeRow(keys: seq<string>, tmp: map<string, seq<LetterStatus>>,
                      sum0: map<string, LetterStatus>, ghost done: seq<string>)
    returns (r: Result<map<string, LetterStatus>, KnowledgeError>)
    requires SummaryOver(done, tmp) == Success(sum0)
    ensures r == SummaryOver(done + keys, tmp)
  {
    var sum := sum0;
    var k := 0;
    PrefixRest(done, keys, 0);
    while k < |keys|
      invariant 0 <= k <= |keys|
      invariant SummaryOver(done + keys[..k], tmp) == Success(sum)
    {
      var key := keys[k];
      PrefixSnoc(done, keys, k);
      SummarySnoc(done + keys[..k], key, tmp);
      if key !in tmp {
        sum := sum[key := Untried];
      } else {
        var ls := tmp[key];
        if Correct in ls {
          sum := sum[key := Correct];
        } else if WrongPosition in ls {
          sum := sum[key := WrongPosition];
        } else if NotInWord in ls {
          sum := sum[key := NotInWord];
        } else {
          PrefixRest(done, keys, k + 1);
          SummaryFailureSticks(done + keys[..k + 1], keys[k + 1..], tmp);
          return Failure(Exhausted(ls));
        }
      }
      k := k + 1;
    }
    PrefixRest(done, keys, k);
    r := Success(sum);
  }

  /** One more key after a successful prefix of the walk. */
  lemma SummarySnoc(keys: seq<string>, key: string, tmp: map<string, seq<LetterStatus>>)
    requires SummaryOver(keys, tmp).Success?
    ensures SummaryOver(keys + [key], tmp) ==
      match GroupSummary(tmp, key)
      case None => Failure(Exhausted(tmp[key]))
      case Some(s) => Success(SummaryOver(keys, tmp).value[key := s])
  {
    assert (keys + [key])[..|keys + [key]| - 1] == keys;
  }

  /** A failed walk stays failed whatever keys follow. */
  lemma {:induction false} SummaryFailureSticks(keys: seq<string>, more: seq<string>, tmp: map<string, seq<LetterStatus>>)
    requires SummaryOver(keys, tmp).Failure?
    ensures SummaryOver(keys + more, tmp) == SummaryOver(keys, tmp)
    decreases |more|
  {
    if more != [] {
      SummaryFailureSticks(keys, more[..|more| - 1], tmp);
      assert (keys + more)[..|keys + more| - 1] == keys + more[..|more| - 1];
    } else {
      assert keys + more == keys;
    }
  }

  /** The keys before column `k + 1` of a row. */
  lemma PrefixSnoc(done: seq<string>, keys: seq<string>, k: nat)
    requires k < |keys|
    ensures done + keys[..k + 1] == (done + keys[..k]) + [keys[k]]
  {
    assert keys[..k + 1] == keys[..k] + [keys[k]];
  }

  /** The keys before column `k` of a row and those from it on. */
  lemma PrefixRest(done: seq<string>, keys: seq<string>, k: nat)
    requires k <= |keys|
    ensures done + keys == (done + keys[..k]) + keys[k..]
    ensures k == 0 ==> done + keys[..k] == done
    ensures k == |keys| ==> done + keys[..k] == done + keys
  {
    assert keys == keys[..k] + keys[k..];
  }

  /** The keys up to row `r` and those after it. */
  lemma FlattenRest(rows: seq<seq<string>>, r: nat)
    requires r < |rows|
    ensures Flatten(rows) == Flatten(rows[..r + 1]) + Flatten(rows[r + 1..])
  {
    assert rows == rows[..r + 1] + rows[r + 1..];
    FlattenAppend(rows[..r + 1], rows[r + 1..]);
  }

  /** One more row of keys. */
  lemma FlattenStep(rows: seq<seq<string>>, r: nat)
    requires r < |rows|
    ensures Flatten(rows[..r + 1]) == Flatten(rows[..r]) + rows[r]
  {
    assert rows[..r + 1][..r] == rows[..r];
  }

  lemma {:induction false} FlattenAppend(a: seq<seq<string>>, b: seq<seq<string>>)
    ensures Flatten(a + b) == Flatten(a) + Flatten(b)
    decreases |b|
  {
    if b == [] {
      assert a + b == a;
    } else {
      assert (a + b)[..|a + b| - 1] == a + b[..|b| - 1];
      FlattenAppend(a, b[..|b| - 1]);
    }
  }
}
