/** `CodeSnippet::reveal`: promote one visible, not yet exact cell to exact. The
    C++ draws the cell uniformly from the candidate list; here the draw is a
    parameter, so every candidate is reachable and every property below holds
    whatever the draw. */
module Reveal {
  import opened Text
  import opened CodeSnippet

  /** Cell p = (line, column) is visible and not yet exact: `reveal` may pick it. */
  predicate IsCandidate(s: Snippet, p: (nat, nat))
    requires s.Valid()
  {
    && p.0 < |s.code| && p.1 < |s.code[p.0]|
    && !IsBlank(s.code[p.0][p.1]) && s.state[p.0][p.1] != ExactMatch
  }

  /** Candidate cells among the first n columns of line i, left to right. */
  function RowCandidates(line: string, row: seq<CellState>, i: nat, n: nat): seq<(nat, nat)>
    requires |row| == |line| && n <= |line|
  {
    if n == 0 then []
    else RowCandidates(line, row, i, n - 1)
         + (if !IsBlank(line[n - 1]) && row[n - 1] != ExactMatch then [(i, n - 1)] else [])
  }

  /** Candidate cells of the first n lines, in row-major order (the C++ `posVec`). */
  function LinesCandidates(code: seq<string>, state: seq<seq<CellState>>, n: nat): seq<(nat, nat)>
    requires |state| == |code| && forall i :: 0 <= i < |code| ==> |state[i]| == |code[i]|
    requires n <= |code|
  {
    if n == 0 then []
    else LinesCandidates(code, state, n - 1) + RowCandidates(code[n - 1], state[n - 1], n - 1, |code[n - 1]|)
  }

  function Candidates(s: Snippet): seq<(nat, nat)>
    requires s.Valid()
  {
    LinesCandidates(s.code, s.state, |s.code|)
  }

  /** The snippet with cell p set exact and nothing else changed. */
  function SetExact(s: Snippet, p: (nat, nat)): (r: Snippet)
    requires s.Valid() && p.0 < |s.code| && p.1 < |s.code[p.0]|
    ensures r.Valid()
  {
    s.(state := s.state[p.0 := s.state[p.0][p.1 := ExactMatch]])
  }

  // ---------------------------------------------------------------- the candidate list

  lemma {:induction false} RowCandidatesSpec(line: string, row: seq<CellState>, i: nat, n: nat)
    requires |row| == |line| && n <= |line|
    ensures forall p :: p in RowCandidates(line, row, i, n) <==>
              p.0 == i && p.1 < n && !IsBlank(line[p.1]) && row[p.1] != ExactMatch
    ensures |RowCandidates(line, row, i, n)| + RowGuessed(line[..n], row[..n]) == NonBlankCount(line[..n])
    decreases n
  {
    if n > 0 {
      RowCandidatesSpec(line, row, i, n - 1);
      assert line[..n][..n - 1] == line[..n - 1];
      assert row[..n][..n - 1] == row[..n - 1];
    }
  }

  lemma {:induction false} LinesCandidatesSpec(code: seq<string>, state: seq<seq<CellState>>, n: nat)
    requires |state| == |code| && forall i :: 0 <= i < |code| ==> |state[i]| == |code[i]|
    requires n <= |code|
    ensures forall p :: p in LinesCandidates(code, state, n) <==>
              p.0 < n && p.1 < |code[p.0]| && !IsBlank(code[p.0][p.1]) && state[p.0][p.1] != ExactMatch
    ensures |LinesCandidates(code, state, n)| + GuessedLines(code[..n], state[..n]) == TotalNumber(code[..n])
    decreases n
  {
    if n > 0 {
      LinesCandidatesSpec(code, state, n - 1);
      var line := code[n - 1];
      RowCandidatesSpec(line, state[n - 1], n - 1, |line|);
      assert line[..|line|] == line;
      assert state[n - 1][..|line|] == state[n - 1];
      assert code[..n][..n - 1] == code[..n - 1];
      assert state[..n][..n - 1] == state[..n - 1];
    }
  }

  /** The candidate list holds exactly the visible non-exact cells, and there are
      getTotalNumber() - getGuessedNumber() of them. */
  lemma CandidatesSpec(s: Snippet)
    requires s.Valid()
    ensures forall p :: p in Candidates(s) <==> IsCandidate(s, p)
    ensures |Candidates(s)| == TotalNumber(s.code) - GuessedNumber(s)
    ensures |Candidates(s)| == 0 <==> AllRevealed(s)
  {
    LinesCandidatesSpec(s.code, s.state, |s.code|);
    assert s.code[..|s.code|] == s.code;
    assert s.state[..|s.state|] == s.state;
    CountsAndWin(s);
  }

  // ---------------------------------------------------------------- counting one more exact cell

  lemma {:induction false} RowGuessedSetExact(line: string, row: seq<CellState>, j: nat)
    requires |row| == |line| && j < |line| && !IsBlank(line[j]) && row[j] != ExactMatch
    ensures RowGuessed(line, row[j := ExactMatch]) == RowGuessed(line, row) + 1
    decreases |line|
  {
    var n := |line| - 1;
    if j < n {
      assert row[j := ExactMatch][..n] == row[..n][j := ExactMatch];
      RowGuessedSetExact(line[..n], row[..n], j);
    } else {
      assert row[j := ExactMatch][..n] == row[..n];
    }
  }

  lemma {:induction false} GuessedLinesSetRow(code: seq<string>, state: seq<seq<CellState>>, i: nat, row: seq<CellState>)
    requires |state| == |code| && forall k :: 0 <= k < |code| ==> |state[k]| == |code[k]|
    requires i < |code| && |row| == |code[i]|
    requires RowGuessed(code[i], row) == RowGuessed(code[i], state[i]) + 1
    ensures GuessedLines(code, state[i := row]) == GuessedLines(code, state) + 1
    decreases |code|
  {
    var n := |code| - 1;
    if i < n {
      assert state[i := row][..n] == state[..n][i := row];
      GuessedLinesSetRow(code[..n], state[..n], i, row);
    } else {
      assert state[i := row][..n] == state[..n];
    }
  }

  /** Setting one candidate cell exact raises getGuessedNumber() by exactly one. */
  lemma SetExactCounts(s: Snippet, p: (nat, nat))
    requires s.Valid() && IsCandidate(s, p)
    ensures GuessedNumber(SetExact(s, p)) == GuessedNumber(s) + 1
  {
    RowGuessedSetExact(s.code[p.0], s.state[p.0], p.1);
    GuessedLinesSetRow(s.code, s.state, p.0, s.state[p.0][p.1 := ExactMatch]);
  }

  // ---------------------------------------------------------------- reveal

  /** Cell p of `r` is exact and every other cell is as in `s`. */
  ghost predicate OnlyRevealed(s: Snippet, r: Snippet, p: (nat, nat))
    requires s.Valid() && r.Valid() && |r.code| == |s.code|
    requires forall i :: 0 <= i < |s.code| ==> |r.code[i]| == |s.code[i]|
  {
    && p.0 < |s.code| && p.1 < |s.code[p.0]| && r.state[p.0][p.1] == ExactMatch
    && forall i, j :: 0 <= i < |s.code| && 0 <= j < |s.code[i]| && (i, j) != p ==>
         r.state[i][j] == s.state[i][j]
  }

  /** `reveal()` with the uniform draw made explicit: the draw, reduced into range,
      indexes the row-major candidate list. With no candidate left it is a no-op;
      otherwise exactly one visible non-exact cell becomes exact, every other cell
      is unchanged and getGuessedNumber() goes up by one. */
  function Reveal(s: Snippet, draw: nat): (r: Snippet)
    requires s.Valid()
    ensures r.Valid() && AtLeast(r, s)
    ensures AllRevealed(s) ==> r == s
    ensures !AllRevealed(s) ==> GuessedNumber(r) == GuessedNumber(s) + 1
    ensures !AllRevealed(s) ==> exists p :: IsCandidate(s, p) && OnlyRevealed(s, r, p)
    ensures OnlyNewlyExact(r, s)
  {
    CandidatesSpec(s);
    var cs := Candidates(s);
    if |cs| == 0 then s
    else
      var p := cs[draw % |cs|];
      assert IsCandidate(s, p);
      SetExactCounts(s, p);
      SetExact(s, p)
  }

  /** A draw already in range is used as it is. */
  lemma DrawInRange(draw: nat, n: nat)
    requires draw < n
    ensures draw % n == draw
  {
  }

  /** Every candidate cell is the one some draw reveals: nothing rules a cell out. */
  lemma EveryCandidateReachable(s: Snippet, p: (nat, nat))
    requires s.Valid() && IsCandidate(s, p)
    ensures exists draw: nat :: Reveal(s, draw) == SetExact(s, p)
  {
    CandidatesSpec(s);
    var cs := Candidates(s);
    assert p in cs;
    var k :| 0 <= k < |cs| && cs[k] == p;
    DrawInRange(k, |cs|);
    assert Reveal(s, k) == SetExact(s, cs[k % |cs|]);
  }

  /** `n` reveals in a row, the k-th using draw `rng(k)`: each one reveals a new cell
      until none is left, so getGuessedNumber() grows by n, capped at getTotalNumber(). */
  function RevealMany(s: Snippet, n: nat, rng: nat -> nat): (r: Snippet)
    requires s.Valid()
    ensures r.Valid() && AtLeast(r, s)
    ensures OnlyNewlyExact(r, s)
    ensures GuessedNumber(r) == if GuessedNumber(s) + n <= TotalNumber(s.code)
                                then GuessedNumber(s) + n else TotalNumber(s.code)
  {
    CountsAndWin(s);
    if n == 0 then s
    else
      var prev := RevealMany(s, n - 1, rng);
      CountsAndWin(prev);
      var r := Reveal(prev, rng(n - 1));
      OnlyNewlyExactTransitive(s, prev, r);
      r
  }
}
