# CodeWordle core, modelled in Dafny

CodeWordle is a terminal and FLTK game. The player is shown a masked C++ snippet and
uncovers it by guessing substrings of three or more characters. This project models the
game's core as pure functions over immutable values and proves what that core promises.

The core covers:

- **the snippet** (`CodeSnippet`): loading and normalising lines, the exact/fuzzy window
  matcher behind `guess`, the random `reveal`, the counters, `check` and the masked view;
- **a play-through** (`Game` and its guess-limited, time-attack and point subclasses):
  `makeGuess` with its "P"/"F" control tokens, each mode's reveal schedule and end
  condition, the point-mode constructor guards and score, and the front-ends' rule that
  `isOver()` is asked before `isFinished()`;
- **the hint generator** (`AutoGuess`);
- **the statistics bookkeeping** (`StatisticsRepo::addGame`, the newest-first history
  view) and **the history-line formatter** (`GameHistoryFormatter::format`).

Modules, in dependency order:

| file | module | what it holds |
|---|---|---|
| `wrappers.dfy` | `Wrappers` | `Option`, `Result` |
| `text.dfy` | `Text` | blanks, tab expansion, line normalisation, `std::string::find`, the tab-replacement loop |
| `snippet.dfy` | `CodeSnippet` | cell states, the snippet record, counting, `check`, the masked view |
| `matching.dfy` | `Matching` | `guess`: the window scan and its reference semantics |
| `reveal.dfy` | `Reveal` | `reveal`: the candidate list and one/many reveals |
| `session.dfy` | `Session` | `Game` with a mode tag: start, `makeGuess`, reveal schedules, end decision, point score |
| `autoguess.dfy` | `AutoGuess` | the keyword cursor and the random fallback |
| `statistics.dfy` | `StatisticsRepo` | the counters, `addGame`, the history order |
| `formatter.dfy` | `GameHistoryFormatter` | fixed-width history lines |

Modelling choices:

- **Cell states.** A cell is `Unguessed`, `FuzzyMatch` or `ExactMatch` (the source's
  0/1/2). "Never goes down" is stated with their rank.
- **`guess`.** It is modelled twice. The first model is the source's nested loops, written
  as recursion over start columns and lines: `ScanLine` and `ScanLines`. The second is
  a reference meaning with no loop:
  - A cell ends exact if it was exact or some equal window covers it.
  - Otherwise it ends fuzzy if it was fuzzy, or if fuzzy matching is on and some fuzzy
    window covers it.
  - The counts are the sizes of the sets of start columns.

  The two models are proved equal.
- **Randomness is a parameter.** The draw inside `reveal`, the pool pick in
  `CodeRepo::random` and the characters of `AutoGuess::random` are all parameters.
  - A draw is reduced into range, as `uniform_int_distribution` would give.
  - Where several draws happen, `rng(k)` is the k-th draw.
  - Lemmas show that every outcome is reachable by some draw: every candidate cell of
    `reveal` (`Reveal.EveryCandidateReachable`), every id of the pool
    (`Session.EveryIdReachable`) and every random hint (`AutoGuess.EveryRandomHintReachable`).
- **The clock is a parameter.** The steady clock becomes `now`, the whole seconds since
  the game started. This is exact:
  - `duration_cast<seconds>` truncates;
  - the last-reveal mark only ever moves in whole 10-second steps, so truncating the time
    since the mark equals truncating the time since the start, minus the mark.
- **The time budget.** `(int)max(total/1.5+10, 60.0)` is stated as
  `max(2*total/3 + 10, 60)`. The two agree whenever `total/1.5` is rounded correctly to
  within a third of the true value, that is, for any snippet below about 2^50 characters.
- **A `char` is one byte.** The C++ works on `std::string`, so `getTotalNumber`, the
  windows of `guess` and its length test all count bytes. Each Dafny `char` of a snippet
  line or a guess stands for one byte of the file or of the input line; a UTF-8 character
  is as many cells as it has bytes.
- **Point scores are reals.** The C++ computes them in `double`. An empty snippet makes
  the C++ divide 0 by 0, which gives NaN; here the score is `None`.
- **Two fuzzy flags.**
  - The game's flag is what "F" sets and what the point penalty reads.
  - The snippet's own flag is fixed when the snippet is loaded, and is what the matcher
    reads.

  They are kept apart, as they are in the source: "F" costs points but does not turn
  fuzzy matching on for a snippet loaded without it (`Session.FuzzyTokenOnlyPenalises`).

## Model

| member | source | states |
|---|---|---|
| `Text.ExpandTabsFacts` | main.cpp:93-100 | after tab expansion no tab is left; the line grows by three characters per tab; exactly the characters that are neither blank nor tab remain visible |
| `Text.NormalizeLineFacts` | main.cpp:93-105 | a stored line has no tabs and its length is raw length + 3·tabs + 2; it keeps the visible characters; every visible character has room for a whole 3-character window after it, so every visible character can be guessed |
| `Text.Find` | main.cpp:96 | `find('\t', pos)` returns the first tab at or after `pos`, or -1 (npos) when there is none |
| `Text.ReplaceTabs` | main.cpp:93-100 | the find/replace/skip loop computes exactly the reference expansion: every tab becomes four blanks and nothing else changes |
| `CodeSnippet.LoadIsUnguessed` | main.cpp:83-106 | a freshly loaded snippet has every line normalised, every cell unguessed, and a guessed count of 0 |
| `CodeSnippet.CountsAndWin` | main.cpp:116-145 | 0 ≤ getGuessedNumber ≤ getTotalNumber, and the two are equal exactly when every visible cell is exact |
| `CodeSnippet.Check` | main.cpp:225-241 | the early-break loop answers true exactly when every visible cell is exact, which is exactly when guessed == total |
| `CodeSnippet.AtLeastKeepsProgress` | main.cpp:132-145 | a snippet whose cells are all at least as advanced has at least as many exact characters, and stays solved once solved |
| `CodeSnippet.Masked` | main.cpp:243-263 | the view has as many lines as the snippet, and each line has the length of its snippet line |
| `CodeSnippet.MaskedDecodes` | main.cpp:243-263 | blanks show as blanks; a visible unguessed cell always shows the placeholder and a visible fuzzy cell the fuzzy placeholder, whatever the text; an exact cell shows its true character; any shown character that is not a placeholder is the true one; when the text has no placeholder characters, a cell shows '@' exactly when it is unguessed, '#' exactly when it is fuzzy, and its true character exactly when it is exact |
| `CodeSnippet.MaskedWhenRevealed` | main.cpp:243-263 | a solved snippet's view is its code; when the text has no placeholders, the converse also holds |
| `Matching.ScanLineSpec` | main.cpp:183-219 | scanning one line from column j counts exactly the equal windows and the fuzzy windows that start at or after j; every cell ends in its reference state |
| `Matching.ScanLinesSpec` | main.cpp:181-220 | scanning all lines sums those counts over the lines and gives every cell of every line its reference state |
| `Matching.Guess` | main.cpp:171-223 | a guess shorter than 3 returns the sentinel and changes nothing. Otherwise: the exact count is the number of equal windows, overlapping ones included; the fuzzy count is the number of fuzzy windows, or the sentinel when the snippet has fuzzy matching off; every cell takes its reference state; a cell covered by an equal window ends exact; no cell goes down |
| `Matching.FuzzyMeansOneMismatch` | main.cpp:186-209 | since an equal window is handled first, a fuzzy window differs from the guess in exactly one position and is never also counted exact |
| `Matching.OverlapExample` | main.cpp:181-219 | "aaaa" loads as "aaaa  "; guessing "aaa" gives 2 exact hits (columns 0 and 1, overlapping) and 1 fuzzy hit (the window "aa " at column 2) |
| `Reveal.CandidatesSpec` | main.cpp:149-159 | the row-major candidate list holds exactly the visible cells that are not exact; its length is total − guessed; it is empty exactly when the snippet is solved |
| `Reveal.SetExactCounts` | main.cpp:168 | making one candidate cell exact raises getGuessedNumber by exactly one |
| `Reveal.Reveal` | main.cpp:147-169 | on a solved snippet nothing changes. Otherwise exactly one visible, non-exact cell becomes exact, every other cell is unchanged, and the guessed count goes up by one |
| `Reveal.EveryCandidateReachable` | main.cpp:161-166 | every candidate cell is the one revealed for some draw |
| `Reveal.RevealMany` | main.cpp:606-608 | n reveals in a row raise the guessed count by n, capped at the total, never lower a cell, and change no cell except visible cells that become exact |
| `Session.NewPointParams` | main.cpp:830-845 | the point-mode constructor succeeds exactly when penalty > 0, point factor > 0 and reward factor ≥ 1; it reports the first failing check in source order |
| `Session.PickId` | main.cpp:343-356 | an empty pool yields the empty id, and otherwise an id from the pool |
| `Session.EveryIdReachable` | main.cpp:343-356 | every id of the pool is the one picked for some draw |
| `Session.MaxGuesses` | main.cpp:664 | the guess budget is the larger of total/3 + 5 and 30 |
| `Session.MaxTime` | main.cpp:739 | the time budget is the larger of 2·total/3 + 10 and 60 seconds |
| `Session.Start` | main.cpp:655-667 | each subclass's `start()` (this one, and lines 730-745 and 847-857) fails exactly on the empty id. Otherwise the snippet is loaded with the game's fuzzy flag; guesses and guessed count are 0 and every cell is unguessed; the mode's budget is set from the snippet's total: the guess budget, the time budget with the mark at 0, or the cached total in point mode |
| `Session.RevealTimes` | main.cpp:759-767 | time attack: the reveal count is the elapsed seconds since the mark, divided by 10; the mark advances by 10 times that count; the time since the new mark stays in [0, 10). Guess-limited (lines 677-680): one reveal exactly when guesses % 5 == 0. Point (lines 904-908): none |
| `Session.IsOver` | main.cpp:682-685 | `isOver()`: guess-limited, guesses ≥ maxGuesses; time attack (lines 769-775), elapsed seconds ≥ maxTime; point (lines 910-914), never |
| `Session.IsFinished` | main.cpp:635-638 | `isFinished()` holds exactly when getGuessedNumber reaches getTotalNumber |
| `Session.OverStaysOver` | main.cpp:682-685 | once over, a game stays over after any later guess at any later time, since guesses and time only grow and the budgets never change |
| `Session.Decide` | main.cpp:1282-1296 | the game is lost exactly when `isOver()` holds. It is won exactly when it is not over and `isFinished()` holds. Point mode is never lost |
| `Session.CountGuess` | main.cpp:604-608 | a counted guess raises the count by one; it fires the mode's reveals on the matched snippet, so the guessed count rises by that many, capped at the total; the only cells the reveals change are visible cells that become exact |
| `Session.CountGuessStep` | main.cpp:604-608 | after a counted guess the game has one more guess, the same flags, the mode advanced by `revealTimes()`, and the matcher's snippet with only visible cells raised to exact, by as many as the reveals fired, capped at the total |
| `Session.MakeGuess` | main.cpp:584-619 | "P" and "F" only set their flag, and only while it is off. Any other input shorter than 3 changes nothing. Any other input is matched and counted: the feedback is the matcher's result, guesses rise by 1, the mode's reveals fire, no cell goes down, and every cell that differs from the matcher's result is a visible cell that became exact |
| `Session.Play` | main.cpp:584-619 | over any run of inputs, nothing matched is lost, a solved snippet stays solved, guesses rise by at most one per input, and a flag once set stays set |
| `Session.ControlTokensIdempotent` | main.cpp:586-602 | a second "P" or "F" falls through to the matcher as a too-short guess and changes nothing |
| `Session.ControlTokensDoNotCount` | main.cpp:586-596 | "P" and "F" never count as a guess, never touch the snippet, and never move a reveal mark |
| `Session.Score` | main.cpp:859-874 | the score is undefined (NaN in the C++) exactly when the snippet has no visible character |
| `Session.ScoreFactorised` | main.cpp:859-874 | the score is pf·g²/total − penalty·guesses, times 0.5 if the id was shown, times 0.8 if fuzzy matching was asked for, times the reward factor on a full clear |
| `Session.PidTokenHalvesScore` | main.cpp:866-867 | in point mode, entering "P" halves the score |
| `Session.FuzzyTokenOnlyPenalises` | main.cpp:869-870 | in point mode, entering "F" multiplies the score by 0.8 but leaves the snippet's own fuzzy flag, so a snippet loaded without fuzzy matching still reports the "disabled" sentinel |
| `Session.ScoreExample` | main.cpp:859-874 | 10 of 10 characters in 5 guesses with the default factors and no help scores 6750 |
| `Session.LastGuessLosesEvenIfCleared` | main.cpp:1282-1296 | a counted guess that reaches the guess budget loses, even if it also solves the snippet |
| `Session.LimitedRevealSchedule` | main.cpp:677-680 | after n counted guesses in guess-limited mode, exactly n/5 reveals have fired |
| `Session.TimedRevealsTelescope` | main.cpp:759-767 | in time attack, however the guesses are spaced, the reveals fired up to time t total t/10 minus the reveals already paid out at the starting mark |
| `AutoGuess.Visited` | main.cpp:979-985 | the nested scan sets the flag exactly when the keyword occurs in some line of the masked view |
| `AutoGuess.Suggest` | main.cpp:974-993 | the suggestion is the first keyword at or after the cursor that does not occur in the view, and the cursor moves just past it; every keyword skipped did occur; once every remaining keyword occurs, the suggestion is the random fallback and the cursor rests at the end of the list |
| `AutoGuess.RandomHint` | main.cpp:995-1008 | the random fallback is 3 characters, each from the alphabet |
| `AutoGuess.EveryRandomHintReachable` | main.cpp:1000-1005 | every 3-character string over the alphabet is the fallback for some draws |
| `AutoGuess.KeywordsShape` | main.cpp:954-967 | there are 35 keywords, each of guess length 3, and the alphabet has 53 characters |
| `AutoGuess.SuggestionNotRevealed` | main.cpp:974-993 | wherever a keyword suggestion sits in the snippet, at least one of its visible characters is not yet exact |
| `AutoGuess.SuggestionIsCounted` | main.cpp:959 | a suggestion entered as a guess is never too short and never a control token, so `makeGuess` counts it |
| `AutoGuess.SuggestionsDoNotRepeat` | main.cpp:987-992 | for any list without repeats, no later request (any cursor at or past where the first left it, whatever the view has become) offers the same keyword from the list again, because the cursor only moves forward; a later request that finds the rest of the list visible gives the random fallback, which may coincide |
| `AutoGuess.KeywordsDistinct` | main.cpp:959-965 | the game's keyword list has no repeats |
| `AutoGuess.KeywordSuggestionsDoNotRepeat` | main.cpp:987-992 | with the game's own list, no later request offers the same keyword from the list again; a later request past the visible rest of the list gives the random fallback, which may coincide |
| `AutoGuess.RandomFallbackMayRepeat` | main.cpp:995-1008 | the fallback can spell a keyword already offered: "int" is the first suggestion on an empty view, and some draws give "int" again once the list is used up |
| `StatisticsRepo.AddGame` | main.cpp:432-457 | every call counts one more game and appends its line. The game type picks which counters move: limited or timed adds the win flag to its wins; point adds the score to the point total; any other type touches nothing else |
| `StatisticsRepo.AveragePoints` | main.cpp:469 | the average is 0 before any point game, and otherwise times the number of point games gives the point total |
| `StatisticsRepo.HistoryNewestFirst` | main.cpp:475-476 | the `~i` loop lists the history lines newest first, each exactly once |
| `StatisticsRepo.HistoryIsReversed` | main.cpp:474-476 | that listing is exactly the history reversed |
| `StatisticsRepo.NewestGameShownFirst` | main.cpp:456 | after a game is added, the history view shows its line first, then the previous view |
| `StatisticsRepo.AddGameConsistent` | main.cpp:432-457 | with win flags of 0 or 1, wins never exceed games of their type, per-type games never exceed the total, and there is one history line per game |
| `StatisticsRepo.ReplayCounts` | main.cpp:432-457 | recording any sequence of finished games from empty counts exactly the games and wins of each type and the sum of the point scores, and keeps the lines in order |
| `GameHistoryFormatter.PadRight` | main.cpp:492-494 | a left-justified field is the text followed by blanks up to the width, and is never cut |
| `GameHistoryFormatter.Format` | main.cpp:488-498 | a line is as long as the three padded fields plus the game information |
| `GameHistoryFormatter.FormatKeepsEveryField` | main.cpp:488-498 | nothing is truncated: each field appears whole, starting where the padded fields before it end |
| `GameHistoryFormatter.ColumnsRoundTrip` | main.cpp:484-498 | when the fields fit their widths (26, 18, 7), reading the line by those columns gives back the padded fields and the game information; trimming recovers a game type or id that does not end in a blank |

## Left out

- File reading: reading snippet files, `CodeRepo`'s directory cache, and the binary load/save of `StatisticsRepo`. Reading one snippet is a parameter `texts` of `Session.Start`.
- The random generators: their draws are parameters.
- The clocks: `now` is a parameter. `ctime` text and elapsed-time messages are not modelled.
- Message wording: `makeGuess`'s strings are reduced to a `Feedback` value. The `Win`/`Lose` texts, `getGameInfo`, `getDisplayLines` and the six summary lines of `getStatistics` (integer and `double` to-string formatting) are not modelled.
- The `Win`/`Lose` calls that record a finished game: `addGame` and the formatter are modelled, but the glue that builds each mode's game-information string is not.
- The console menus and the FLTK widgets. Only their isOver-before-isFinished order is modelled (`Session.Decide`).
- Overflow of the C++ `int` counters: every integer here is unbounded.
- Session.MaxTime: uses exact arithmetic for `total/1.5`; it agrees with the `double` computation and truncation for every total below about 2^50.
- Session.ScoreFactorised: the score is computed over exact reals, not IEEE `double`, so rounding in the last bits is not modelled.
- Session.Score: the NaN of an empty snippet becomes `None`.
- StatisticsRepo.AddGame: `state` is a real, and the win counters take it truncated toward zero, as `int += double` would. The game classes only pass 0 or 1 for those types, and `AddGameConsistent` and `ReplayCounts` assume exactly that.
- Session.Play: a run of `makeGuess` calls. It does not stop when the front-end would declare a win or a loss; `Session.Decide` models that stop.
