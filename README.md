# srordle in Dafny

srordle is a Wordle variant. Each day's game has a target word of seven
letters and a *shape*: rows of seven columns, each column active or not.
The active columns of a row form runs, and a guess for that row is one
word per run. A player may also spend a limited number of *full* guesses,
which use all seven columns as one word. The Go server splits a guess
into words and checks each against a dictionary trie. It then scores the
guess: every guessed rune is NotInWord, WrongPosition or Correct, within
a per-letter budget. The TypeScript client keeps the typed letters, the
override flag, the attempt counter and the history, and draws the board
and the keyboard from them.

This project models that core and proves properties of it:

- `Srordle` (srordle/srordle.go) covers:
  - the runs and run starts of a row;
  - splitting a guess into words;
  - `CalcAnswer`'s three scoring passes, as methods over the same loops.

  Each method is proved equal to a function. The lemmas about those
  functions state what a scored answer means.
- `Server` (cmd/server/main.go) models the decisions of `serveGuess`.
  `ServeGuess` is a method with the source's branches and word loop,
  proved equal to the function `Outcome`. Lemmas about `Outcome` give the
  refusals and the soundness of every scored reply. `serveSrordle` and
  `isAsset` are also modelled.
- `Trie` (trie/trie.go) is a class over an arena of nodes: every child
  slot holds the index of a node, or nil. Its meaning is the ghost set
  `words`. `AddWord`, `HasWord` and `New` are proved against that set.
- `Db` (db/db.go) covers `asBytes` and `gameKey`, with the source's
  `int32` shifts written out.
- `Client`, `Board` and `Keyboard` (src/index.ts, src/lib/board/index.ts,
  src/lib/keyboard/index.ts) cover three things:
  - the `Game` controller as a class whose methods are proved against
    step functions;
  - the board's decision for each row;
  - the keyboard's aggregation of letter statuses.
- `Basics` holds shared pieces:
  - `Option` and `Result`;
  - counting the true columns of a row;
  - UTF-8 widths;
  - decimal rendering.

Some behaviour is modelled as the code has it, and differs from what its
comments or names suggest:

- `Trie.Size` always returns 0, because `addWord` never increments
  `size`. Its doc comment says it counts the words.
- The first year bytes of a date key are shifted left before the mask,
  so only the year modulo 256 reaches the key.
- The board treats a win at index 0 as no win, because of the falsy test
  `!correctGuess`.
- Three or more unknown words are scored, because the `switch` in
  `serveGuess` has no default case (`Server.UnknownWordOutcomes`).
- `CalcAnswer` places a rune at the byte offset that Go's
  `for j, l := range guess` reports, not at its rune index.
- The key test in `handleKeydown` compares strings, so it also accepts key
  names that start with 'a' to 'y'.

## Model

| member | source | states |
|---|---|---|
| Srordle.StatusCode | srordle/srordle.go:10-18 | the status codes are 0 to 4, and 0 is exactly UnknownLetterStatus |
| Srordle.StartsOf | srordle/srordle.go:52-62 | every run start is a column of the row |
| Srordle.RunsAreMaximal | srordle/srordle.go:34-62 | there are as many starts as runs; run k starts at start k, is a maximal block of active columns, and ends before run k+1 starts |
| Srordle.StartsAreTheRunStarts | srordle/srordle.go:52-62 | i is a start exactly when column i is active and column i-1 is not (or i is 0) |
| Srordle.RunsCoverTheActiveColumns | srordle/srordle.go:34-50 | the run lengths add up to the number of active columns |
| Srordle.ToTargetWordLengths | srordle/srordle.go:34-50 | the loop with `curRun` returns exactly the row's runs |
| Srordle.ToStartOffsets | srordle/srordle.go:52-62 | the loop with `inWord` returns exactly the row's run starts |
| Srordle.ScanAgrees | srordle/srordle.go:34-62 | a left-to-right scan from any column, continuing from that prefix's runs and starts, gives the runs and starts of the whole row |
| Srordle.ScanFromStart | srordle/srordle.go:34-62 | the independent left-to-right scan gives the same runs and starts as the recursive definition |
| Srordle.DefaultShapeRuns | cmd/server/main_test.go:12-73 | the default shape has runs {7},{4,2},{3,3},{2,4},{3},{5} and starts {0},{0,5},{0,4},{0,3},{2},{1} |
| Srordle.SplitWords | srordle/srordle.go:64-95 | word k has length k of the lengths, and the words joined are the prefix of the guess those lengths cover |
| Srordle.SplitGuess | srordle/srordle.go:64-95 | fails exactly when the guess has fewer runes than the row has active columns; otherwise returns the split of the guess |
| Srordle.SplitIsUnique | srordle/srordle.go:64-95 | any words with the run lengths whose concatenation is the covered prefix are the split; trailing runes are dropped |
| Srordle.SplitFitsTheRow | srordle/srordle.go:64-95 | a successful split has one word per run, each of that run's length, joining to the first active-count runes |
| Srordle.WordsDeterminedByLengths | srordle/srordle.go:64-95 | two word lists with equal lengths and equal concatenations are equal |
| Srordle.SplitsInTwo | srordle/srordle.go:64-95 | a row of two runs splits a guess of exactly their lengths into its two pieces |
| Srordle.SplitsInOne | srordle/srordle.go:64-95 | a row of one run splits a guess of exactly its length into itself |
| Srordle.DefaultShapeSplits | cmd/server/main_test.go:33-49 | the split test's guesses split into {detract},{test,in},{cat,dog},{on,stop},{pet},{guess} |
| Srordle.DefaultShape | srordle/srordle.go:99-109 | six rows of seven columns |
| Srordle.Clone | srordle/srordle.go:111-121 | nil stays nil; otherwise the copy has the same target word, shape and full attempts |
| Srordle.FoundTarget | srordle/srordle.go:123-130 | true exactly when some guess is one word equal to the target |
| Srordle.FreqCountsOccurrences | srordle/srordle.go:132-138 | the frequency map gives each rune's number of occurrences in the target |
| Srordle.TargetFreq | srordle/srordle.go:132-138 | the counting loop builds the frequency map, so each rune maps to its occurrences |
| Srordle.Blank | srordle/srordle.go:150-156 | one blank PositionNotUsed entry per target rune |
| Srordle.Score | srordle/srordle.go:140-191 | one answer entry per target rune |
| Srordle.PopulateGuesses | srordle/srordle.go:158-164 | the first pass over all words writes each rune's letter and NotInWord at its cell |
| Srordle.PopulateWord | srordle/srordle.go:159-163 | the first pass over one word |
| Srordle.FindCorrect | srordle/srordle.go:166-176 | the second pass marks matching runes Correct and spends their budget |
| Srordle.CorrectWord | srordle/srordle.go:168-175 | the second pass over one word |
| Srordle.FindMisplaced | srordle/srordle.go:178-188 | the third pass marks runes with budget left WrongPosition, in visiting order |
| Srordle.MisplaceWord | srordle/srordle.go:180-187 | the third pass over one word |
| Srordle.CalcAnswer | srordle/srordle.go:140-191 | given offsets inside the target, the three passes return `Score` of the guess's cells |
| Srordle.CellsOfSnoc | srordle/srordle.go:159-160 | rune k of a word lands at the base plus the byte width of the runes before it |
| Srordle.CellsSnoc | srordle/srordle.go:158-160 | the cells of one more word follow the cells of the words before it |
| Srordle.PopulatedAppend | srordle/srordle.go:158-164 | populating two runs of cells is populating one after the other |
| Srordle.CorrectedAppend | srordle/srordle.go:166-176 | the Correct pass over two runs of cells is the pass over one after the other |
| Srordle.MisplacedAppend | srordle/srordle.go:178-188 | the WrongPosition pass over two runs of cells is the pass over one after the other |
| Srordle.ScoreBlanks | srordle/srordle.go:150-164 | with distinct cells, a position no rune lands on stays "" and PositionNotUsed |
| Srordle.ScoreLetters | srordle/srordle.go:158-188 | a covered position shows its rune; it is Correct exactly when that rune is the target's rune there, and otherwise WrongPosition or NotInWord |
| Srordle.ScoreBudget | srordle/srordle.go:132-188 | no rune is marked Correct or WrongPosition more often than it occurs in the target |
| Srordle.ScoreNotInWordExhausts | srordle/srordle.go:178-188 | a rune is left NotInWord only when all its occurrences in the target are already marked |
| Server.ServeGuess | cmd/server/main.go:121-219 | the handler's reply is `Outcome`: 405 unless POST; the row, lengths and words of the chosen branch; then the count, length and lookup checks in source order, the refusals for one or two unknown words, and a score otherwise (500 where the source panics or the lookup fails) |
| Server.ChooseRow | cmd/server/main.go:154-175 | the full row with the lowered guess, or the indexed row and its split; a refused shape or a negative index (panic) ends the request |
| Server.CheckWords | cmd/server/main.go:181-197 | the loop stops at the first word of the wrong length (refusal) or not lower-case ASCII (500), else returns the unknown words in order |
| Server.Screen | cmd/server/main.go:181-197 | succeeds exactly when every word has its run's length and only 'a' to 'z'; on success the unknown words, else the first failing word |
| Server.Unknown | cmd/server/main.go:189-196 | a word is collected exactly when it is in the guess and not in the dictionary |
| Server.ScreenStep | cmd/server/main.go:182-197 | a passing word extends the loop, adding it to the unknown words when the dictionary lacks it |
| Server.ScreenStops | cmd/server/main.go:182-197 | the loop result is the first word that fails |
| Server.CaseMapping | cmd/server/main.go:158 | lowering keeps the rune count and leaves no ASCII capital; the lowered guess is all 'a' to 'z' exactly when every rune is an ASCII letter, the Kelvin sign or the capital I with dot above; upper-casing a lower-case word and lowering it again gives the word back |
| Server.KelvinSignLowers | cmd/server/main.go:158 | the Kelvin sign lowers to 'k' and the capital I with dot above to 'i', so "\u212Aitchen" reaches the dictionary as "kitchen" |
| Server.FullRowLayout | cmd/server/main.go:159-162 | the full row is one run of seven from column 0 |
| Server.FullGuess | cmd/server/main.go:159-187 | a full guess is never refused as the wrong shape; one of other than seven runes is refused as "isn't 7 letters long"; a scored one has seven runes and its one word is the lowered guess |
| Server.WrongShapeExactly | cmd/server/main.go:163-171 | "wasn't the right shape" is sent exactly for a POST in the split branch whose guess has fewer runes than the row's active columns |
| Server.UnknownWordOutcomes | cmd/server/main.go:199-218 | once every word has passed, one unknown word is refused as "<WORD> isn't a word" in capitals, two as "Neither of those are real words", and none or three and more are scored with `CalcAnswer`'s answer |
| Server.CountNeverWrong | cmd/server/main.go:177-180 | "Wanted %d guesses, got %d" is never sent |
| Server.ScoredParts | cmd/server/main.go:158-218 | a scored reply comes from its branch's row and words: one word per run, each of its run's length and lower-case ASCII, offsets inside the target, the answer `CalcAnswer` gives, `Won` exactly for the target alone, and not one or two unknown words |
| Server.ScoredReplyIsSound | cmd/server/main.go:210-218 | a scored reply has one entry per target rune and `Won` exactly when the guess is the target alone; each position is blank or shows one guessed rune that is Correct exactly when it matches the target there; no rune is marked more often than it occurs |
| Server.ScoredWordsAreLower | cmd/server/main.go:158-197 | every scored word is non-empty lower-case ASCII |
| Server.RunCells | srordle/srordle.go:158-164 | words of one-byte runes laid into a row's runs land on distinct columns inside the row |
| Server.CellsOfAscii | srordle/srordle.go:159-160 | on ASCII words rune j lands at the base plus j |
| Server.LaidOut | srordle/srordle.go:158-164 | the cells of passing words for a row's runs are distinct |
| Server.ScoredPositions | srordle/srordle.go:150-176 | with distinct in-range cells each position is blank or shows one rune, Correct exactly when it matches |
| Server.ServeSrordle | cmd/server/main.go:221-250 | 405 unless POST; otherwise the day's game with its target word blanked and its shape and attempts kept |
| Server.AssetPaths | cmd/server/main.go:112-114 | a path is an asset exactly when it is "/images/" followed by anything |
| Trie.ToIndex | trie/trie.go:142-148 | a lower-case rune maps into 0..25, to the slot whose letter it is; any other one-byte rune maps outside |
| Trie.LetterOf | trie/trie.go:138-147 | slot c holds the letter 'a' + c |
| Trie.CheckInput | trie/trie.go:62-72 | no error exactly when every rune is 'a' to 'z'; an error names the first refused rune at its byte index, and says whether it is too wide or not lower case |
| Trie.WordWidth | trie/trie.go:62-72 | a checked word's byte width is its rune count |
| Trie.Inserted | trie/trie.go:33-46 | a word is in the result exactly when it is a non-empty line the check accepts |
| Trie.GrowKeepsWf | trie/trie.go:118-128 | hanging a new node under a prefix keeps the arena well formed |
| Trie.MarkKeepsWf | trie/trie.go:130-132 | setting `leaf` on a path's node adds exactly that word |
| Trie.Trie.Empty | trie/trie.go:34 | a new trie is well formed and holds no words |
| Trie.Trie.Size | trie/trie.go:74-77 | the size is always 0, since no insertion increments it |
| Trie.Trie.HasWord | trie/trie.go:81-107 | an error exactly for input other than 'a' to 'z'; found exactly when the word was added, so no proper prefix of an added word and not "" |
| Trie.Trie.AddWord | trie/trie.go:109-136 | an error exactly for unchecked input, and then nothing changes; otherwise a non-empty word joins the set, no word is lost, and "" changes nothing |
| Trie.Trie.ChildFor | trie/trie.go:118-128 | the slot of the next letter is filled with a fresh node when empty; the words stay the same |
| Trie.Trie.MarkLeaf | trie/trie.go:130-132 | marking the last node adds the word |
| Trie.New | trie/trie.go:33-46 | a fresh trie holding exactly the accepted non-empty lines; rejected lines are skipped |
| Db.Wrap32 | db/db.go:43-46 | an `int32` result agrees with the exact value modulo 2^32 |
| Db.LowByte | db/db.go:42-49 | `byte(x)` agrees with x modulo 256 |
| Db.ShiftedOutByte | db/db.go:43-45 | the low byte of an `int32` shifted left by 8 or more bits is 0 |
| Db.AsBytes | db/db.go:41-50 | the bytes are 0, 0, 0, the year, the month and the day, each modulo 256 |
| Db.GameKey | db/db.go:32-34 | 11 bytes: "game:", three zeros, the year, the month and the day modulo 256 |
| Db.SameKey | db/db.go:32-50 | two dates share a key exactly when their years and months agree modulo 256 and their days are equal |
| Db.CalendarDatesShareKeys | db/db.go:41-50 | for months 1 to 12, keys are equal exactly when the years agree modulo 256 and the month and day are equal |
| Db.YearsApartCollide | db/db.go:41-50 | dates 256 years apart have the same key |
| Board.FullRow | src/lib/board/index.ts:105-107 | seven active columns |
| Board.NonRequestedFullCount | src/lib/board/index.ts:97-103 | the shape pointer is at most the number of past guesses |
| Board.NonRequestedFullCountAppend | src/lib/board/index.ts:97-103 | a new guess moves the pointer by one exactly when it did not use the override |
| Board.NoOverrideCountsEveryGuess | src/lib/board/index.ts:97-103 | without override guesses the pointer is the number of guesses |
| Board.CorrectGuess | src/lib/board/index.ts:162-171 | the index of the first guess whose every letter is Correct, or none when there is no such guess |
| Board.EmptyGuessCountsAsCorrect | src/lib/board/index.ts:165 | a guess with no letter answers counts as correct |
| Board.CorrectGuessIsFirst | src/lib/board/index.ts:162-171 | the first fully correct guess is the one returned |
| Board.ActiveCells | src/lib/board/index.ts:111-126 | one cell per column of the row |
| Board.ActiveCellsColumns | src/lib/board/index.ts:114-124 | an inactive column is blank PositionNotUsed; an active one is Guessing and shows buffer letter i, where i counts the active columns before it, or nothing once i reaches the buffer's end |
| Board.ActiveRowShowsBufferPrefix | src/lib/board/index.ts:111-126 | the active row shows exactly min(buffer, active columns) typed letters, the buffer's first ones in order, then blanks |
| Board.RowsWithoutWin | src/lib/board/index.ts:89-132 | with no correct guess, past rows show their guesses, the next row the active cells, and later rows the blank bar |
| Board.RowsAfterWin | src/lib/board/index.ts:89-132 | with a first correct guess at w > 0, rows up to w show guesses, later rows other than the next show the bar, and the next row is left untouched |
| Board.WinAtFirstRowLooksLikeNoWin | src/lib/board/index.ts:90-111 | a correct first guess is treated as no win: past rows show guesses and the next row is drawn as active |
| Board.SrordleBoard.constructor | src/lib/board/index.ts:36-39 | empty shape, history and buffer; override off |
| Board.SrordleBoard.AddGuess | src/lib/board/index.ts:53-57 | appends exactly one guess and disarms the override; nothing else changes |
| Board.SrordleBoard.SetRequestedFull | src/lib/board/index.ts:59-62 | replaces only the override flag |
| Board.SrordleBoard.SetGameShape | src/lib/board/index.ts:64-66 | replaces only the shape |
| Board.SrordleBoard.SetPastGuesses | src/lib/board/index.ts:68-71 | replaces only the history |
| Board.SrordleBoard.UpdateCurrentGuess | src/lib/board/index.ts:73-76 | replaces only the buffer |
| Board.SrordleBoard.Render | src/lib/board/index.ts:78-134 | the loop over the eight rows gives each row the view the row decision assigns it |
| Board.LayOutActiveRow | src/lib/board/index.ts:112-124 | the column loop lays out the active row's cells |
| Keyboard.AllKeysByRow | src/lib/keyboard/index.ts:5-9 | the keys are visited row after row |
| Keyboard.KeysAreLetters | src/lib/keyboard/index.ts:5-9 | 26 keys, each one lower-case letter |
| Keyboard.AllKeysAreTheAlphabet | src/lib/keyboard/index.ts:5-9 | a string is a key exactly when it is one letter 'a' to 'z' |
| Keyboard.KeyOfLetter | src/lib/keyboard/index.ts:5-9 | every lower-case letter is a key |
| Keyboard.StatusesInMembership | src/lib/keyboard/index.ts:194-201 | a status is recorded for a letter exactly when an answer with that letter and status exists, its letter is not "" and its status not PositionNotUsed |
| Keyboard.StatusesMembership | src/lib/keyboard/index.ts:193-202 | the same over the whole history |
| Keyboard.KnowledgeOverSucceedsIff | src/lib/keyboard/index.ts:204-234 | the walk over keys succeeds exactly when every key can be summarised |
| Keyboard.KnowledgeOverMap | src/lib/keyboard/index.ts:204-234 | on success the map has exactly the walked keys, each bound to its summary |
| Keyboard.KnowledgeOverFailureSticks | src/lib/keyboard/index.ts:232 | the first throwing key decides the failure |
| Keyboard.KnowledgeCoversExactlyTheLetters | src/lib/keyboard/index.ts:204-234 | the result maps exactly the 26 letter keys |
| Keyboard.KeyStatusMeaning | src/lib/keyboard/index.ts:207-230 | a key is Correct if any of its answers is Correct, else WrongPosition if any is, else NotInWord if any is; it is Untried when nothing is recorded |
| Keyboard.KnowledgeFailsIff | src/lib/keyboard/index.ts:232 | it throws exactly when some letter has records none of which is Correct, WrongPosition or NotInWord |
| Keyboard.ServerStatusesNeverThrow | src/lib/keyboard/index.ts:213-232 | histories made of the statuses the server sends never throw |
| Keyboard.StatusesAppend | src/lib/keyboard/index.ts:193-202 | a new guess appends its records to each letter's list |
| Keyboard.SummarizeNeverDrops | src/lib/keyboard/index.ts:213-230 | more records never lower a summary in the order Untried < NotInWord < WrongPosition < Correct |
| Keyboard.KnowledgeNeverDrops | src/lib/keyboard/index.ts:51-54 | appending a guess never lowers any key's status |
| Keyboard.UnrecordedGuessChangesNothing | src/lib/keyboard/index.ts:195-197 | a guess of only blank or PositionNotUsed answers changes nothing |
| Keyboard.PairsMembership | src/lib/keyboard/index.ts:193-202 | a (letter, status) pair is in the history's multiset exactly when the status is recorded for the letter |
| Keyboard.KnowledgeDependsOnlyOnPairs | src/lib/keyboard/index.ts:193-202 | histories with the same multiset of recorded pairs give the same result |
| Keyboard.KnowledgeIgnoresGuessOrder | src/lib/keyboard/index.ts:193-202 | swapping two blocks of the history does not change the result |
| Keyboard.GroupByLetter | src/lib/keyboard/index.ts:192-202 | the nested loops group the recorded statuses by letter, in order, with no empty lists |
| Keyboard.GroupGuess | src/lib/keyboard/index.ts:194-201 | one guess's answers are appended to their letters' lists |
| Keyboard.SummaryOverIsKnowledge | src/lib/keyboard/index.ts:204-234 | walking the grouping gives the aggregation of the history it groups |
| Keyboard.SummarizeKeys | src/lib/keyboard/index.ts:205-234 | the row loop summarises every key of every row |
| Keyboard.SummarizeRow | src/lib/keyboard/index.ts:206-233 | the key loop extends the summary by the keys of one row |
| Keyboard.SrordleKeyboard.constructor | src/lib/keyboard/index.ts:23 | the history starts empty |
| Keyboard.SrordleKeyboard.AddGuess | src/lib/keyboard/index.ts:51-54 | appends exactly one guess at the end |
| Keyboard.SrordleKeyboard.SetPastGuesses | src/lib/keyboard/index.ts:186-189 | replaces the whole history |
| Keyboard.SrordleKeyboard.SumGuessKnowledge | src/lib/keyboard/index.ts:191-237 | returns the aggregation of the history, or its error |
| Client.AsKey | src/index.ts:304-306 | the key is the prefix, ':' and the day's string |
| Client.AsKeySeparatesPrefixes | src/index.ts:304-306 | keys of one day are equal exactly when their prefixes are |
| Client.RowLengthBounds | src/index.ts:187-206 | with a shape of seven-column rows, the row length is at most 7, and exactly 7 while the override is armed |
| Client.RowLengthNeedsShape | src/index.ts:188-190 | the row length throws exactly when no shape is set |
| Client.OverrideGuessKeepsRow | src/index.ts:191-198 | an override guess does not move the pointer into the shape |
| Client.NormalGuessAdvancesRow | src/index.ts:191-205 | a normal guess moves on to the next row's active-column count |
| Client.AddLetterAppendsOrNothing | src/index.ts:208-214 | a letter is appended exactly when the game runs and the row has room; otherwise nothing changes |
| Client.AddLetterNeverOverflows | src/index.ts:208-214 | a buffer within the row's capacity stays within it |
| Client.DeleteLetterRemovesOnlyTheLast | src/index.ts:216-222 | only the last letter goes; an empty buffer or a finished game is left alone |
| Client.DeleteUndoesAdd | src/index.ts:208-222 | deleting undoes a typed letter |
| Client.ToggleTwiceRestores | src/index.ts:150-165 | two toggles restore the flag and the counter, with the buffer emptied |
| Client.ToggleKeepsCounterNonNegative | src/index.ts:150-165 | each toggle flips the flag and moves the counter by one in the matching direction; with attempts left it stays non-negative |
| Client.JoinLetters | src/index.ts:242 | joining one-letter strings gives one rune per letter, in order |
| Client.GuessIndexIgnoresOverride | src/index.ts:224-245 | the index sent is the number of non-override guesses, whatever the override flag; `useFull` is the flag |
| Client.ErrorResponseChangesNothing | src/index.ts:255-258 | a response with a non-empty error leaves the whole state as it was and only shows the error |
| Client.ResponseRecordsTheAnswer | src/index.ts:259-274 | any other response appends one guess exactly when it carries an answer, tagged with the captured flag, then disarms the override and empties the buffer |
| Client.ResponseGameOverIff | src/index.ts:281-290 | the game ends exactly on a win, when the history reaches the shape's rows plus the total attempts, or when no attempts remain |
| Client.GameOverIsFinal | src/index.ts:208-237 | once the game is over, typing, deleting and submitting change nothing |
| Client.ResponseKeepsHistoryBounded | src/index.ts:254-290 | answering a running game keeps the history within the shape's rows plus the total attempts |
| Client.EditingKeepsHistoryBounded | src/index.ts:150-222 | typing, deleting and toggling keep that bound |
| Client.KeyRangeTest | src/index.ts:182 | a key is typed exactly when its name starts with 'a' to 'y', or it is "z" |
| Client.LettersAreTyped | src/index.ts:182-184 | every single lower-case letter is typed as itself |
| Client.Game.constructor | src/index.ts:115-119 | empty buffer and history, no shape, override off, counters 0, game running |
| Client.Game.Start | src/index.ts:121-136 | takes the shape, the history and the counts, keeps board and keyboard in step, and reports the remaining attempts |
| Client.Game.HandleRequestedFull | src/index.ts:150-165 | performs the toggle step, clears the board's buffer, mirrors the flag and reports the counter |
| Client.Game.CurrentRowLength | src/index.ts:187-206 | the two counting loops compute the row length, or throw without a shape |
| Client.Game.NonRequestedFullCount | src/index.ts:224-233 | the loop counts the guesses that did not use the override |
| Client.Game.AddLetter | src/index.ts:208-214 | performs the typing step, throwing when there is no shape; the board shows the new buffer after a letter is added and is left untouched otherwise |
| Client.Game.DeleteLetter | src/index.ts:216-222 | performs the delete step; the board's buffer follows unless the game is over |
| Client.Game.SubmitGuess | src/index.ts:235-246 | the request has the joined buffer, the flag and the guess index, and there is none once the game is over |
| Client.Game.HandleGuessResponse | src/index.ts:254-291 | performs the response step, keeping board and keyboard in step with the history |
| Client.Game.HandleKeydown | src/index.ts:167-185 | Backspace deletes, Enter submits, a key in the letter range types, and anything else changes nothing; the board shows the buffer after a change and is left untouched when nothing changes |

## Left out

- Network, DOM and storage in the client are left out. This covers `fetch`, the messages (`showMessage`, `showError`, `showWin`, `showLose`), `localStorage` loading and saving, the `GameDate` constructor and its time zone, and paper.js drawing and colours. A response is passed in as a decoded record. On-screen messages and callbacks become returned events.
- The race between two in-flight guesses in `submitGuess` is left out. Event-loop concurrency is not modelled: each response is handled as one step.
- Client.Game.HandleRequestedFull: requires at least one remaining attempt, which the source does not check. While the game runs the page ensures it: the button is disabled when the count reaches 0 (src/index.ts:401). The submit callback re-enables the button after an answered guess whenever the next row is not seven letters (src/index.ts:384). With no attempts left that guess has ended the game (src/index.ts:286), so a click after the game ends can drive the counter to -1. The model does not follow that click.
- Server plumbing is left out: JSON decoding (400), loading the day's game (500), the clock and time-zone offset, `jsonResp`, `serveHTML`, `run`, and `loadTrie`/`loadTargetWords`. The handlers take the decoded fields and the game. `recoverWrap` is modelled only as "a panic becomes a 500 reply".
- Server.ServeGuess: the "Invalid guess index given" branch is never reached, so no reply models it. A negative index takes the other branch and panics, which is a 500.
- Server.CaseMapping: `strings.ToLower` is modelled on the ASCII capitals plus U+212A and U+0130, the two runes whose lower case is an ASCII letter. Other non-ASCII capitals keep their case in the model, while Go lowers them one rune for one rune. A word holding one fails the dictionary lookup either way, so only the word echoed in an "isn't N letters long" refusal can differ. `strings.ToUpper` is modelled on ASCII only; it is applied only to words of 'a' to 'z'.
- Trie.New: lines are given as a sequence. `bufio.Scanner` errors and its limit on line length are left out.
- The trie's child arrays of pointers are modelled as an arena of nodes indexed by position. Aliasing cannot arise because nodes are never shared, so the arena keeps the source's shape.
- Badger transactions, gob encoding, `ToDate`, `AddDays` and `Open` in db/db.go are left out. They are storage and Go's calendar normalisation.
- The `GuessedAt` time of a stored guess is left out.
- cmd/cli/main.go, rollup.config.js and src/lib/color/index.ts are not part of this model.
