/** `StatisticsRepo`: the running totals kept across games and the history lines, newest
    shown first. The binary file the totals live in is not modelled; a repository here is
    the value those totals hold. */
module StatisticsRepo {

  /** The counters of the repository and its history lines, oldest first. */
  datatype Stats = Stats(
    totalGames: int,
    guessLimitedGames: int,
    timeAttackGames: int,
    pointGames: int,
    guessLimitedWins: int,
    timeAttackWins: int,
    totalPoints: real,
    history: seq<string>)

  /** A repository with nothing recorded yet (every counter starts at zero). */
  const Empty: Stats := Stats(0, 0, 0, 0, 0, 0, 0.0, [])

  /** C++ conversion of a double to int: the fraction is dropped, toward zero. */
  function TruncToInt(x: real): (n: int)
    ensures x >= 0.0 ==> n as real <= x < n as real + 1.0
    ensures x < 0.0 ==> n as real - 1.0 < x <= n as real
  {
    if x >= 0.0 then x.Floor else -((-x).Floor)
  }

  /** `addGame(line, gameType, state)`. The game type selects which counters move: a
      limited or timed game adds `state` (1 for a win, 0 for a loss) to its win counter,
      a point game adds `state` (its score) to the point total, and any other type only
      counts towards the total. Every call records the line. */
  function AddGame(st: Stats, line: string, gameType: string, state: real): (r: Stats)
    ensures r.totalGames == st.totalGames + 1 && r.history == st.history + [line]
    ensures gameType == "guessLimited" ==>
              r == st.(totalGames := r.totalGames, history := r.history,
                       guessLimitedGames := st.guessLimitedGames + 1,
                       guessLimitedWins := TruncToInt(st.guessLimitedWins as real + state))
    ensures gameType == "timeAttack" ==>
              r == st.(totalGames := r.totalGames, history := r.history,
                       timeAttackGames := st.timeAttackGames + 1,
                       timeAttackWins := TruncToInt(st.timeAttackWins as real + state))
    ensures gameType == "point" ==>
              r == st.(totalGames := r.totalGames, history := r.history,
                       pointGames := st.pointGames + 1, totalPoints := st.totalPoints + state)
    ensures gameType !in {"guessLimited", "timeAttack", "point"} ==>
              r == st.(totalGames := r.totalGames, history := r.history)
  {
    var counted :=
      if gameType == "guessLimited" then
        st.(guessLimitedGames := st.guessLimitedGames + 1,
            guessLimitedWins := TruncToInt(st.guessLimitedWins as real + state))
      else if gameType == "timeAttack" then
        st.(timeAttackGames := st.timeAttackGames + 1,
            timeAttackWins := TruncToInt(st.timeAttackWins as real + state))
      else if gameType == "point" then
        st.(pointGames := st.pointGames + 1, totalPoints := st.totalPoints + state)
      else st;
    counted.(totalGames := st.totalGames + 1, history := st.history + [line])
  }

  /** "Average Points": the point total over the number of point games, 0 before any. */
  function AveragePoints(st: Stats): (r: real)
    ensures st.pointGames == 0 ==> r == 0.0
    ensures st.pointGames != 0 ==> r * (st.pointGames as real) == st.totalPoints
  {
    if st.pointGames == 0 then 0.0 else st.totalPoints / (st.pointGames as real)
  }

  /** The history block of `getStatistics()`: the index runs from the last line down while
      `~i` (that is, -i - 1) is non-zero, so the most recent game comes first. */
  method HistoryNewestFirst(history: seq<string>) returns (r: seq<string>)
    ensures |r| == |history|
    ensures forall k :: 0 <= k < |r| ==> r[k] == history[|history| - 1 - k]
  {
    r := [];
    var i: int := |history| - 1;
    while -i - 1 != 0
      invariant -1 <= i < |history|
      invariant |r| == |history| - 1 - i
      invariant forall k :: 0 <= k < |r| ==> r[k] == history[|history| - 1 - k]
      decreases i
    {
      r := r + [history[i]];
      i := i - 1;
    }
  }

  /** Reference order of the history view: the lines reversed. */
  function Reverse(h: seq<string>): seq<string>
  {
    if |h| == 0 then [] else [h[|h| - 1]] + Reverse(h[..|h| - 1])
  }

  lemma {:induction false} ReverseIndex(h: seq<string>)
    ensures |Reverse(h)| == |h|
    ensures forall k :: 0 <= k < |h| ==> Reverse(h)[k] == h[|h| - 1 - k]
    decreases |h|
  {
    if |h| > 0 {
      ReverseIndex(h[..|h| - 1]);
    }
  }

  /** The loop lists the lines in exactly reversed order. */
  lemma HistoryIsReversed(history: seq<string>, r: seq<string>)
    requires |r| == |history| && forall k :: 0 <= k < |r| ==> r[k] == history[|history| - 1 - k]
    ensures r == Reverse(history)
  {
    ReverseIndex(history);
  }

  /** After a game is added, the history view starts with that game's line, followed by
      the view as it was. */
  lemma NewestGameShownFirst(st: Stats, line: string, gameType: string, state: real)
    ensures Reverse(AddGame(st, line, gameType, state).history) == [line] + Reverse(st.history)
  {
    var h := st.history + [line];
    assert h[..|h| - 1] == st.history;
  }

  // ---------------------------------------------------------------- bookkeeping invariant

  /** What the game classes pass in: a win flag for the limited and timed types. */
  predicate FlagState(gameType: string, state: real) {
    gameType in {"guessLimited", "timeAttack"} ==> state == 0.0 || state == 1.0
  }

  /** Counters that agree with each other: wins never exceed games of their type, the
      per-type games never exceed the total, and there is one history line per game. */
  predicate Consistent(st: Stats) {
    && 0 <= st.guessLimitedWins <= st.guessLimitedGames
    && 0 <= st.timeAttackWins <= st.timeAttackGames
    && 0 <= st.pointGames
    && st.guessLimitedGames + st.timeAttackGames + st.pointGames <= st.totalGames
    && |st.history| == st.totalGames
  }

  lemma AddGameConsistent(st: Stats, line: string, gameType: string, state: real)
    requires Consistent(st) && FlagState(gameType, state)
    ensures Consistent(AddGame(st, line, gameType, state))
  {
  }

  /** One finished game as the game classes report it. */
  datatype Record = Record(line: string, gameType: string, state: real)

  /** The repository after recording `games` in order, starting empty. */
  function Replay(games: seq<Record>): Stats
  {
    if |games| == 0 then Empty
    else
      var g := games[|games| - 1];
      AddGame(Replay(games[..|games| - 1]), g.line, g.gameType, g.state)
  }

  /** Number of records of the given type. */
  function CountType(games: seq<Record>, gameType: string): nat
  {
    if |games| == 0 then 0
    else CountType(games[..|games| - 1], gameType) + (if games[|games| - 1].gameType == gameType then 1 else 0)
  }

  /** Number of records of the given type that report a win. */
  function CountWins(games: seq<Record>, gameType: string): nat
  {
    if |games| == 0 then 0
    else CountWins(games[..|games| - 1], gameType)
         + (if games[|games| - 1].gameType == gameType && games[|games| - 1].state == 1.0 then 1 else 0)
  }

  /** Sum of the scores of the point games. */
  function SumPoints(games: seq<Record>): real
  {
    if |games| == 0 then 0.0
    else SumPoints(games[..|games| - 1]) + (if games[|games| - 1].gameType == "point" then games[|games| - 1].state else 0.0)
  }

  /** The history lines of the records, in order. */
  function Lines(games: seq<Record>): seq<string>
  {
    if |games| == 0 then [] else Lines(games[..|games| - 1]) + [games[|games| - 1].line]
  }

  /** Replaying reports from the game classes gives counters that say exactly what was
      played: games and wins per type, the point total, and the lines in order. */
  lemma {:induction false} ReplayCounts(games: seq<Record>)
    requires forall k :: 0 <= k < |games| ==> FlagState(games[k].gameType, games[k].state)
    ensures var st := Replay(games);
            && st.totalGames == |games|
            && st.guessLimitedGames == CountType(games, "guessLimited")
            && st.timeAttackGames == CountType(games, "timeAttack")
            && st.pointGames == CountType(games, "point")
            && st.guessLimitedWins == CountWins(games, "guessLimited")
            && st.timeAttackWins == CountWins(games, "timeAttack")
            && st.totalPoints == SumPoints(games)
            && st.history == Lines(games)
            && Consistent(st)
    decreases |games|
  {
    if |games| > 0 {
      var init := games[..|games| - 1];
      ReplayCounts(init);
      AddGameConsistent(Replay(init), games[|games| - 1].line, games[|games| - 1].gameType, games[|games| - 1].state);
    }
  }
}
