/** One play-through (`Game` and its three subclasses). Virtual dispatch over the
    subclasses becomes a mode tag; the steady clock becomes `now`, the whole number
    of seconds elapsed since the game started; the random generator behind
    `reveal()` becomes `rng`, whose k-th value is the draw of the k-th reveal. */
module Session {
  import opened Wrappers
  import opened Text
  import opened CodeSnippet
  import opened Matching
  import opened Reveal

  /** Guess-limited mode: one automatic reveal every REVEAL_GUESSES counted guesses. */
  const REVEAL_GUESSES: nat := 5
  /** Guess-limited mode: the guess budget is never below this. */
  const MIN_GUESSES: nat := 30
  /** Time-attack mode: one automatic reveal per REVEAL_TIME elapsed seconds. */
  const REVEAL_TIME: nat := 10
  /** Time-attack mode: the time budget (seconds) is never below this. */
  const MIN_TIME: nat := 60
  /** Point mode: score multiplier once the problem id has been shown. */
  const SHOW_PID_PENALTY: real := 0.5
  /** Point mode: score multiplier once fuzzy matching has been asked for. */
  const FUZZY_PENALTY: real := 0.8

  /** Point-mode scoring factors: penalty per guess, point factor, full-clear reward. */
  datatype PointParams = PointParams(penalty: real, pointFactor: real, rewardFactor: real)

  /** The constructor defaults (100, 500, 1.5). */
  const DEFAULT_POINT_PARAMS: PointParams := PointParams(100.0, 500.0, 1.5)

  /** Why the point-mode constructor refuses its arguments. */
  datatype ConfigError = PenaltyNotPositive | PointFactorNotPositive | RewardFactorBelowOne

  /** The mode tag with each subclass's own fields. Time attack keeps the last reveal
      mark in seconds since the start; point mode caches the snippet's total at start. */
  datatype Mode =
    | GuessLimited(maxGuesses: int)
    | TimeAttack(maxTime: int, lastReveal: int)
    | Point(totalNumber: nat, params: PointParams)

  /** The session record. `fuzzyAllowed` is the game's flag (it drives the point-mode
      penalty); the snippet keeps its own flag, fixed when it was loaded. */
  datatype Game = Game(snippet: Snippet, pid: string, guesses: nat, fuzzyAllowed: bool, showPid: bool, mode: Mode)
  {
    predicate Valid() {
      && snippet.Valid()
      && (mode.TimeAttack? ==> 0 <= mode.lastReveal && mode.lastReveal % REVEAL_TIME == 0)
      && (mode.Point? ==> mode.totalNumber == TotalNumber(snippet.code))
    }
  }

  /** What `makeGuess` answers; the message wording is not modelled. */
  datatype Feedback = PidShown | FuzzyEnabled | GuessTooShort | Counted(result: GuessResult)

  /** How the front-end ends (or continues) a tick. */
  datatype Verdict = Lose | Win | Continue

  /** Which subclass a new game is, with the point-mode factors. */
  datatype ModeKind = LimitedKind | TimedKind | PointKind(params: PointParams)

  // ---------------------------------------------------------------- construction and start

  /** `pointGame`'s constructor checks, in source order: penalty > 0, point factor > 0,
      reward factor >= 1. */
  function NewPointParams(penalty: real, pointFactor: real, rewardFactor: real): (r: Result<PointParams, ConfigError>)
    ensures r.Success? <==> penalty > 0.0 && pointFactor > 0.0 && rewardFactor >= 1.0
    ensures r.Success? ==> r.value == PointParams(penalty, pointFactor, rewardFactor)
    ensures r.Failure? ==> (r.error == PenaltyNotPositive <==> penalty <= 0.0)
    ensures r.Failure? && penalty > 0.0 ==> (r.error == PointFactorNotPositive <==> pointFactor <= 0.0)
  {
    if penalty <= 0.0 then Failure(PenaltyNotPositive)
    else if pointFactor <= 0.0 then Failure(PointFactorNotPositive)
    else if rewardFactor < 1.0 then Failure(RewardFactorBelowOne)
    else Success(PointParams(penalty, pointFactor, rewardFactor))
  }

  /** `CodeRepo::random`: an id drawn from the pool, or the empty id for an empty pool. */
  function PickId(pool: seq<string>, draw: nat): (id: string)
    ensures |pool| == 0 ==> id == ""
    ensures |pool| > 0 ==> id in pool
  {
    if |pool| == 0 then "" else pool[draw % |pool|]
  }

  /** Every id of the pool is the one some draw picks. */
  lemma EveryIdReachable(pool: seq<string>, id: string)
    requires id in pool
    ensures exists draw: nat :: PickId(pool, draw) == id
  {
    var k :| 0 <= k < |pool| && pool[k] == id;
    DrawInRange(k, |pool|);
    assert PickId(pool, k) == id;
  }

  /** Guess budget: a third of the visible characters plus five, but at least 30. */
  function MaxGuesses(total: nat): (m: int)
    ensures m >= MIN_GUESSES && m >= total / 3 + 5
    ensures m == MIN_GUESSES || m == total / 3 + 5
  {
    Max(total / 3 + 5, MIN_GUESSES)
  }

  /** Time budget in seconds: total / 1.5 + 10 truncated, but at least 60. In exact
      arithmetic total / 1.5 is 2 * total / 3, whose floor is the integer quotient. */
  function MaxTime(total: nat): (m: int)
    ensures m >= MIN_TIME && m >= 2 * total / 3 + 10
    ensures m == MIN_TIME || m == 2 * total / 3 + 10
  {
    Max(2 * total / 3 + 10, MIN_TIME)
  }

  /** `start()`: pick an id (failing on the empty id), load its text with the game's
      fuzzy flag, and set up the mode's budget from the snippet's visible characters.
      `texts` stands for reading a snippet file. */
  function Start(kind: ModeKind, pool: seq<string>, draw: nat, texts: string -> seq<string>,
                 fuzzy: bool, show: bool): (r: Option<Game>)
    ensures r.None? <==> PickId(pool, draw) == ""
    ensures r.Some? ==>
              && r.value.Valid()
              && r.value.pid == PickId(pool, draw)
              && r.value.snippet == Load(texts(r.value.pid), fuzzy)
              && r.value.guesses == 0 && GuessedNumber(r.value.snippet) == 0
              && (forall i, j :: 0 <= i < |r.value.snippet.code| && 0 <= j < |r.value.snippet.code[i]| ==>
                    r.value.snippet.state[i][j] == Unguessed)
              && r.value.fuzzyAllowed == fuzzy && r.value.showPid == show
              && (kind.LimitedKind? ==> r.value.mode == GuessLimited(MaxGuesses(TotalNumber(r.value.snippet.code))))
              && (kind.TimedKind? ==> r.value.mode == TimeAttack(MaxTime(TotalNumber(r.value.snippet.code)), 0))
              && (kind.PointKind? ==> r.value.mode == Point(TotalNumber(r.value.snippet.code), kind.params))
  {
    var pid := PickId(pool, draw);
    if pid == "" then None
    else
      var sn := Load(texts(pid), fuzzy);
      LoadIsUnguessed(texts(pid), fuzzy);
      var total := TotalNumber(sn.code);
      var mode := match kind
        case LimitedKind => GuessLimited(MaxGuesses(total))
        case TimedKind => TimeAttack(MaxTime(total), 0)
        case PointKind(params) => Point(total, params);
      Some(Game(sn, pid, 0, fuzzy, show, mode))
  }

  // ---------------------------------------------------------------- the mode policies

  /** The clock has not gone backwards past the last reveal mark (steady clock). */
  predicate ClockOk(game: Game, now: int) {
    game.mode.TimeAttack? ==> now >= game.mode.lastReveal
  }

  /** Guess-limited `revealTimes()`, read with the guess count just raised: one reveal
      on every REVEAL_GUESSES-th counted guess. */
  function LimitedReveals(guesses: nat): nat {
    if guesses % REVEAL_GUESSES == 0 then 1 else 0
  }

  /** `revealTimes()`: how many automatic reveals the mode fires after a counted guess.
      Guess-limited: one when the guess count is a multiple of 5. Time attack: one per
      whole 10 seconds since the last mark, and the mark moves by that many 10-second
      steps, so the remainder carries over. Point: none. */
  function RevealTimes(game: Game, now: int): (r: (nat, Game))
    requires game.Valid() && ClockOk(game, now)
    ensures r.1.Valid() && ClockOk(r.1, now)
    ensures r.1 == game.(mode := r.1.mode)
    ensures game.mode.GuessLimited? ==> r.1 == game && (r.0 == 1 <==> game.guesses % REVEAL_GUESSES == 0) && r.0 <= 1
    ensures game.mode.GuessLimited? ==> r.0 == LimitedReveals(game.guesses)
    ensures game.mode.TimeAttack? ==>
              && r.1.mode.TimeAttack? && r.1.mode.maxTime == game.mode.maxTime
              && r.1.mode.lastReveal == game.mode.lastReveal + REVEAL_TIME * r.0
              && r.1.mode.lastReveal <= now < r.1.mode.lastReveal + REVEAL_TIME
    ensures game.mode.Point? ==> r == (0, game)
  {
    match game.mode
    case GuessLimited(_) => (LimitedReveals(game.guesses), game)
    case TimeAttack(maxTime, last) =>
      var n := (now - last) / REVEAL_TIME;
      (n, game.(mode := TimeAttack(maxTime, last + REVEAL_TIME * n)))
    case Point(_, _) => (0, game)
  }

  /** `isOver()`: the guess budget or the time budget is used up; never in point mode. */
  function IsOver(game: Game, now: int): (over: bool)
    ensures over <==> (game.mode.GuessLimited? && game.guesses >= game.mode.maxGuesses)
                      || (game.mode.TimeAttack? && now >= game.mode.maxTime)
    ensures game.mode.Point? ==> !over
  {
    match game.mode
    case GuessLimited(maxGuesses) => game.guesses >= maxGuesses
    case TimeAttack(maxTime, _) => now >= maxTime
    case Point(_, _) => false
  }

  /** `isFinished()`: `check()` on the snippet, that is, every visible character is
      exact-matched, which is exactly when getGuessedNumber() reaches getTotalNumber(). */
  function IsFinished(game: Game): (done: bool)
    requires game.Valid()
    ensures done <==> GuessedNumber(game.snippet) == TotalNumber(game.snippet.code)
  {
    CountsAndWin(game.snippet);
    AllRevealed(game.snippet)
  }

  /** Both front-ends ask `isOver()` before `isFinished()`. */
  function Decide(game: Game, now: int): (v: Verdict)
    requires game.Valid()
    ensures v == Lose <==> IsOver(game, now)
    ensures v == Win <==> !IsOver(game, now) && IsFinished(game)
    ensures game.mode.Point? ==> v != Lose
  {
    if IsOver(game, now) then Lose
    else if IsFinished(game) then Win
    else Continue
  }

  /** Once a game is over it stays over: a later guess, at a later time, never gives
      back guesses or time. */
  lemma OverStaysOver(game: Game, g: string, now: int, later: int, rng: nat -> nat)
    requires game.Valid() && ClockOk(game, later) && now <= later && IsOver(game, now)
    ensures IsOver(MakeGuess(game, g, later, rng).1, later)
  {
  }

  // ---------------------------------------------------------------- one guess

  /** `g` is one of the two control tokens and its flag is still off. */
  predicate IsControl(game: Game, g: string) {
    (!game.showPid && g == "P") || (!game.fuzzyAllowed && g == "F")
  }

  /** Number of automatic reveals a counted guess triggers (the guess count is raised first). */
  function RevealsFor(game: Game, now: int): nat
    requires game.Valid() && ClockOk(game, now)
  {
    RevealTimes(game.(guesses := game.guesses + 1), now).0
  }

  /** The bookkeeping after a counted guess: raise the count, ask the mode how many
      reveals to fire, and fire them on the matched snippet. */
  function CountGuess(game: Game, matched: Snippet, now: int, rng: nat -> nat): (r: Game)
    requires game.Valid() && ClockOk(game, now)
    requires matched.Valid() && AtLeast(matched, game.snippet)
    ensures r.Valid() && ClockOk(r, now)
    ensures AtLeast(r.snippet, matched) && AtLeast(r.snippet, game.snippet)
    ensures OnlyNewlyExact(r.snippet, matched)
    ensures r == game.(snippet := r.snippet, guesses := game.guesses + 1, mode := r.mode)
    ensures r.mode == RevealTimes(game.(guesses := game.guesses + 1), now).1.mode
    ensures GuessedNumber(r.snippet) == Min(GuessedNumber(matched) + RevealsFor(game, now), TotalNumber(matched.code))
  {
    var counted := game.(snippet := matched, guesses := game.guesses + 1);
    var timed := RevealTimes(counted, now);
    assert RevealTimes(game.(guesses := game.guesses + 1), now).0 == timed.0;
    var revealed := RevealMany(timed.1.snippet, timed.0, rng);
    AtLeastTransitive(game.snippet, matched, revealed);
    timed.1.(snippet := revealed)
  }

  /** What a counted guess `g` at time `now` leaves behind: one more guess, the flags
      as they were, the mode advanced by `revealTimes()`, and the matcher's snippet with
      the mode's reveals fired on it, which only turn visible cells exact. */
  predicate CountedStep(game: Game, g: string, now: int, after: Game)
    requires game.Valid() && ClockOk(game, now) && after.Valid()
  {
    var matched := Guess(game.snippet, g).1;
    && after.guesses == game.guesses + 1
    && after.showPid == game.showPid && after.fuzzyAllowed == game.fuzzyAllowed
    && after.mode == RevealTimes(game.(guesses := game.guesses + 1), now).1.mode
    && AtLeast(after.snippet, matched)
    && OnlyNewlyExact(after.snippet, matched)
    && GuessedNumber(after.snippet) ==
         Min(GuessedNumber(matched) + RevealsFor(game, now), TotalNumber(game.snippet.code))
  }

  /** `Game::makeGuess`. "P" and "F" are control tokens only while their flag is off
      and then just set it. Anything else goes to the matcher: a too-short guess changes
      nothing; any other guess is counted and then the mode's reveals fire. */
  function MakeGuess(game: Game, g: string, now: int, rng: nat -> nat): (r: (Feedback, Game))
    requires game.Valid() && ClockOk(game, now)
    ensures r.1.Valid() && ClockOk(r.1, now)
    ensures AtLeast(r.1.snippet, game.snippet) && r.1.pid == game.pid
    ensures !game.showPid && g == "P" ==> r == (PidShown, game.(showPid := true))
    ensures !(!game.showPid && g == "P") && !game.fuzzyAllowed && g == "F" ==>
              r == (FuzzyEnabled, game.(fuzzyAllowed := true))
    ensures !IsControl(game, g) && |g| < MIN_LEN ==> r == (GuessTooShort, game)
    ensures !IsControl(game, g) && |g| >= MIN_LEN ==>
              r.0 == Counted(Guess(game.snippet, g).0) && CountedStep(game, g, now, r.1)
  {
    if !game.showPid && g == "P" then (PidShown, game.(showPid := true))
    else if !game.fuzzyAllowed && g == "F" then (FuzzyEnabled, game.(fuzzyAllowed := true))
    else
      var matched := Guess(game.snippet, g);
      if matched.0.TooShort? then (GuessTooShort, game)
      else
        CountGuessStep(game, g, now, rng);
        (Counted(matched.0), CountGuess(game, matched.1, now, rng))
  }

  /** The bookkeeping of a counted guess is exactly a counted step from the matcher's result. */
  lemma CountGuessStep(game: Game, g: string, now: int, rng: nat -> nat)
    requires game.Valid() && ClockOk(game, now) && |g| >= MIN_LEN
    ensures CountedStep(game, g, now, CountGuess(game, Guess(game.snippet, g).1, now, rng))
  {
  }

  /** One line the player enters, the second it is entered, and the draws its reveals use. */
  datatype Move = Move(text: string, at: int, draws: nat -> nat)

  /** Entry times never go back, and the first is not before the last reveal mark. */
  predicate Playable(game: Game, moves: seq<Move>) {
    && (forall i, j :: 0 <= i < j < |moves| ==> moves[i].at <= moves[j].at)
    && (|moves| > 0 ==> ClockOk(game, moves[0].at))
  }

  /** A run of `makeGuess` calls. Whatever is entered, nothing already matched is lost,
      the guess count rises by at most one per line, and a flag once set stays set. */
  function Play(game: Game, moves: seq<Move>): (r: Game)
    requires game.Valid() && Playable(game, moves)
    ensures r.Valid() && AtLeast(r.snippet, game.snippet) && r.pid == game.pid
    ensures game.guesses <= r.guesses <= game.guesses + |moves|
    ensures GuessedNumber(r.snippet) >= GuessedNumber(game.snippet)
    ensures IsFinished(game) ==> IsFinished(r)
    ensures (game.showPid ==> r.showPid) && (game.fuzzyAllowed ==> r.fuzzyAllowed)
    decreases |moves|
  {
    if |moves| == 0 then game
    else
      var next := MakeGuess(game, moves[0].text, moves[0].at, moves[0].draws).1;
      var rest := Play(next, moves[1..]);
      AtLeastTransitive(game.snippet, next.snippet, rest.snippet);
      AtLeastKeepsProgress(game.snippet, rest.snippet);
      rest
  }

  // ---------------------------------------------------------------- point mode score

  /** `calcPoint()` over the reals: pf * g^2 / total - penalty * guesses, halved if the
      id was shown, times 0.8 if fuzzy matching was asked for, times the reward factor on
      a full clear. An empty snippet gives 0/0, a NaN in the C++; here None. */
  function Score(game: Game): (r: Option<real>)
    requires game.Valid() && game.mode.Point?
    ensures r.None? <==> game.mode.totalNumber == 0
  {
    var t := game.mode.totalNumber;
    if t == 0 then None
    else
      var raw := GameRawScore(game);
      var shown := if game.showPid then raw * SHOW_PID_PENALTY else raw;
      var helped := if game.fuzzyAllowed then shown * FUZZY_PENALTY else shown;
      Some(if GuessedNumber(game.snippet) == t then helped * game.mode.params.rewardFactor else helped)
  }

  // ---------------------------------------------------------------- properties

  /** Entering "P" or "F" a second time is a too-short guess: no flag, penalty or count changes. */
  lemma ControlTokensIdempotent(game: Game, token: string, now: int, rng: nat -> nat)
    requires game.Valid() && ClockOk(game, now)
    requires token == "P" || token == "F"
    ensures var once := MakeGuess(game, token, now, rng).1;
            MakeGuess(once, token, now, rng) == (GuessTooShort, once)
  {
  }

  /** The control tokens never count as guesses and never touch the snippet. */
  lemma ControlTokensDoNotCount(game: Game, token: string, now: int, rng: nat -> nat)
    requires game.Valid() && ClockOk(game, now)
    requires token == "P" || token == "F"
    ensures var r := MakeGuess(game, token, now, rng).1;
            r.guesses == game.guesses && r.snippet == game.snippet && r.mode == game.mode
  {
  }

  /** The score before the two help penalties and the full-clear reward. */
  function RawScore(params: PointParams, guessed: nat, total: nat, guesses: nat): real
    requires total > 0
  {
    params.pointFactor * (guessed as real) * (guessed as real) / (total as real)
      - params.penalty * (guesses as real)
  }

  /** The raw score of a point game. */
  function GameRawScore(game: Game): real
    requires game.Valid() && game.mode.Point? && game.mode.totalNumber > 0
  {
    RawScore(game.mode.params, GuessedNumber(game.snippet), game.mode.totalNumber, game.guesses)
  }

  /** The product of the multipliers that apply to the raw score. */
  function Multiplier(game: Game): real
    requires game.Valid() && game.mode.Point?
  {
    (if game.showPid then SHOW_PID_PENALTY else 1.0)
    * (if game.fuzzyAllowed then FUZZY_PENALTY else 1.0)
    * (if GuessedNumber(game.snippet) == game.mode.totalNumber then game.mode.params.rewardFactor else 1.0)
  }

  /** The score is the raw score times each multiplier that applies, whatever their order. */
  lemma ScoreFactorised(game: Game)
    requires game.Valid() && game.mode.Point? && game.mode.totalNumber > 0
    ensures Score(game) == Some(GameRawScore(game) * Multiplier(game))
  {
    var raw := GameRawScore(game);
    var a := if game.showPid then SHOW_PID_PENALTY else 1.0;
    var b := if game.fuzzyAllowed then FUZZY_PENALTY else 1.0;
    var c := if GuessedNumber(game.snippet) == game.mode.totalNumber then game.mode.params.rewardFactor else 1.0;
    var m := Multiplier(game);
    assert m == (a * b) * c;
    var shown := if game.showPid then raw * SHOW_PID_PENALTY else raw;
    var helped := if game.fuzzyAllowed then shown * FUZZY_PENALTY else shown;
    var final := if GuessedNumber(game.snippet) == game.mode.totalNumber then helped * game.mode.params.rewardFactor else helped;
    assert Score(game).value == final;
    assert shown == raw * a && helped == shown * b && final == helped * c;
    MulAssoc(raw, a, b);
    MulAssoc(raw, a * b, c);
    assert final == raw * m;
    assert raw * m == GameRawScore(game) * Multiplier(game);
  }

  lemma MulAssoc(x: real, y: real, z: real)
    ensures (x * y) * z == x * (y * z)
  {
  }

  /** Point mode: "P" halves the score. */
  lemma PidTokenHalvesScore(game: Game, now: int, rng: nat -> nat)
    requires game.Valid() && game.mode.Point? && game.mode.totalNumber > 0 && !game.showPid
    ensures var after := MakeGuess(game, "P", now, rng).1;
            after.mode.Point? && Score(after) == Some(SHOW_PID_PENALTY * Score(game).value)
  {
    var after := MakeGuess(game, "P", now, rng).1;
    assert after == game.(showPid := true);
    ScoreFactorised(game);
    ScoreFactorised(after);
    assert GameRawScore(after) == GameRawScore(game);
    assert Multiplier(after) == SHOW_PID_PENALTY * Multiplier(game);
    assert GameRawScore(game) * (SHOW_PID_PENALTY * Multiplier(game)) == SHOW_PID_PENALTY * (GameRawScore(game) * Multiplier(game));
  }

  /** Point mode: "F" multiplies the score by 0.8 but leaves the snippet's own fuzzy flag,
      so a snippet loaded without fuzzy matching still reports the "disabled" sentinel. */
  lemma FuzzyTokenOnlyPenalises(game: Game, g: string, now: int, rng: nat -> nat)
    requires game.Valid() && game.mode.Point? && game.mode.totalNumber > 0 && !game.fuzzyAllowed
    requires !game.snippet.fuzzyAllowed && |g| >= MIN_LEN
    ensures var after := MakeGuess(game, "F", now, rng).1;
            && after.mode.Point? && after.fuzzyAllowed
            && Score(after) == Some(FUZZY_PENALTY * Score(game).value)
            && !after.snippet.fuzzyAllowed
            && Guess(after.snippet, g).0.fuzzy == FuzzyDisabled
  {
    var after := MakeGuess(game, "F", now, rng).1;
    assert after == game.(fuzzyAllowed := true);
    ScoreFactorised(game);
    ScoreFactorised(after);
    assert GameRawScore(after) == GameRawScore(game);
    assert Multiplier(after) == FUZZY_PENALTY * Multiplier(game);
    assert GameRawScore(game) * (FUZZY_PENALTY * Multiplier(game)) == FUZZY_PENALTY * (GameRawScore(game) * Multiplier(game));
  }

  /** Worked example: every one of 10 visible characters guessed in 5 guesses, default
      factors, no help taken: (500 * 100 / 10 - 100 * 5) * 1.5 = 6750. */
  lemma ScoreExample(game: Game)
    requires game.Valid() && game.mode == Point(10, DEFAULT_POINT_PARAMS)
    requires GuessedNumber(game.snippet) == 10 && game.guesses == 5
    requires !game.showPid && !game.fuzzyAllowed
    ensures Score(game) == Some(6750.0)
  {
  }

  /** A counted guess that uses up the last allowed guess loses even if it also clears
      the snippet, because `isOver()` is asked first. */
  lemma LastGuessLosesEvenIfCleared(game: Game, g: string, now: int, rng: nat -> nat)
    requires game.Valid() && game.mode.GuessLimited?
    requires game.guesses + 1 >= game.mode.maxGuesses
    requires !IsControl(game, g) && |g| >= MIN_LEN
    ensures Decide(MakeGuess(game, g, now, rng).1, now) == Lose
  {
  }

  /** Total guess-limited reveals fired by the counted guesses numbered 1 to n. */
  function LimitedRevealsUpTo(n: nat): nat
  {
    if n == 0 then 0 else LimitedRevealsUpTo(n - 1) + LimitedReveals(n)
  }

  /** Guess-limited reveals: after n counted guesses exactly n / 5 reveals have fired. */
  lemma {:induction false} LimitedRevealSchedule(n: nat)
    ensures LimitedRevealsUpTo(n) == n / REVEAL_GUESSES
  {
    if n > 0 {
      LimitedRevealSchedule(n - 1);
      assert n / 5 == (n - 1) / 5 + (if n % 5 == 0 then 1 else 0);
    }
  }

  predicate NonDecreasing(times: seq<int>) {
    forall i, j :: 0 <= i < j < |times| ==> times[i] <= times[j]
  }

  /** Total reveals fired by time-attack guesses made at the given successive times. */
  function TimedRevealsAt(game: Game, times: seq<int>): nat
    requires game.Valid() && game.mode.TimeAttack? && NonDecreasing(times)
    requires |times| > 0 ==> times[0] >= game.mode.lastReveal
    decreases |times|
  {
    if |times| == 0 then 0
    else
      var step := RevealTimes(game, times[0]);
      step.0 + TimedRevealsAt(step.1, times[1..])
  }

  /** However the guesses are spaced, the time-attack reveals fired by the latest time t
      total t / 10 minus what was already paid out at the start mark: no second is lost
      and none is counted twice. */
  lemma {:induction false} TimedRevealsTelescope(game: Game, times: seq<int>)
    requires game.Valid() && game.mode.TimeAttack? && NonDecreasing(times)
    requires |times| > 0 && times[0] >= game.mode.lastReveal
    ensures TimedRevealsAt(game, times) == times[|times| - 1] / REVEAL_TIME - game.mode.lastReveal / REVEAL_TIME
    decreases |times|
  {
    var step := RevealTimes(game, times[0]);
    var last := game.mode.lastReveal;
    assert step.1.mode.lastReveal == REVEAL_TIME * (times[0] / REVEAL_TIME);
    if |times| > 1 {
      TimedRevealsTelescope(step.1, times[1..]);
    }
  }
}
