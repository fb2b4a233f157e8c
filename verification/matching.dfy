/** The per-character matching engine: `guess` slides a window the length of the
    guess over every start column of every line, counts exact and fuzzy windows,
    and raises the reveal state of the cells each counted window covers. */
module Matching {
  import opened Text
  import opened CodeSnippet

  /** A window may differ from the guess in at most this many positions to be fuzzy. */
  const FUZZY_FAIL: nat := 1
  /** A guess needs at least this many non-blank characters to fuzzy-match anything. */
  const FUZZY_COUNT: nat := 2

  /** The fuzzy count of a guess: a number, or the "-1" sentinel when the snippet
      does not allow fuzzy matching. */
  datatype FuzzyCount = FuzzyDisabled | FuzzyHits(n: nat)

  /** `guess()`'s two-slot result: {-1,-1} for a too-short guess, otherwise the exact
      count and the fuzzy count. */
  datatype GuessResult = TooShort | Hits(exact: nat, fuzzy: FuzzyCount)

  // ---------------------------------------------------------------- windows

  /** The window of `line` starting at column `w` equals the guess. */
  predicate ExactAt(line: string, w: int, g: string) {
    0 <= w && w + |g| <= |line| && line[w..w + |g|] == g
  }

  /** Number of positions at which two equally long strings differ. */
  function MismatchCount(a: string, b: string): nat
    requires |a| == |b|
  {
    if |a| == 0 then 0
    else MismatchCount(a[..|a| - 1], b[..|b| - 1]) + (if a[|a| - 1] != b[|b| - 1] then 1 else 0)
  }

  /** The window starting at `w` is not exact, differs from the guess in at most
      FUZZY_FAIL positions, and the guess has at least FUZZY_COUNT non-blanks. */
  predicate FuzzyAt(line: string, w: int, g: string) {
    && 0 <= w && w + |g| <= |line|
    && line[w..w + |g|] != g
    && MismatchCount(line[w..w + |g|], g) <= FUZZY_FAIL
    && NonBlankCount(g) >= FUZZY_COUNT
  }

  /** Start columns, at or after `from`, of the windows that equal the guess. */
  function ExactStarts(line: string, g: string, from: nat): set<nat> {
    set w: nat | from <= w <= |line| && ExactAt(line, w, g)
  }

  /** Start columns, at or after `from`, of the fuzzy windows. */
  function FuzzyStarts(line: string, g: string, from: nat): set<nat> {
    set w: nat | from <= w <= |line| && FuzzyAt(line, w, g)
  }

  /** Column `c` lies inside an exact window that starts at or after `from`. */
  ghost predicate CoveredExact(line: string, g: string, from: int, c: int) {
    exists w :: from <= w <= c < w + |g| && ExactAt(line, w, g)
  }

  /** Column `c` lies inside a fuzzy window that starts at or after `from`. */
  ghost predicate CoveredFuzzy(line: string, g: string, from: int, c: int) {
    exists w :: from <= w <= c < w + |g| && FuzzyAt(line, w, g)
  }

  /** Reference semantics of one cell after the windows from column `from` on have been
      scanned: exact if it was exact or any exact window covers it; otherwise fuzzy if it
      was fuzzy or (fuzzy matching on) any fuzzy window covers it; otherwise unguessed. */
  ghost function Expected(line: string, g: string, fuzzy: bool, from: int, before: CellState, c: int): CellState {
    if before == ExactMatch || CoveredExact(line, g, from, c) then ExactMatch
    else if before == FuzzyMatch || (fuzzy && CoveredFuzzy(line, g, from, c)) then FuzzyMatch
    else Unguessed
  }

  // ---------------------------------------------------------------- the scan

  /** Marks the `n` cells from column `j` exact, whatever they held. */
  function MarkExact(row: seq<CellState>, j: nat, n: nat): (r: seq<CellState>)
    ensures |r| == |row|
  {
    seq(|row|, c requires 0 <= c < |row| => if j <= c < j + n then ExactMatch else row[c])
  }

  /** Marks the `n` cells from column `j` fuzzy where they are still unguessed. */
  function MarkFuzzy(row: seq<CellState>, j: nat, n: nat): (r: seq<CellState>)
    ensures |r| == |row|
  {
    seq(|row|, c requires 0 <= c < |row| =>
      if j <= c < j + n && row[c] == Unguessed then FuzzyMatch else row[c])
  }

  datatype LineScan = LineScan(exact: nat, fuzzy: nat, row: seq<CellState>)

  /** The inner loop of `guess` over the start columns j, j+1, ... of one line, updating
      the row as it goes: an exact window is counted, marked and skips the fuzzy test;
      otherwise, with fuzzy matching on, a window with at most FUZZY_FAIL mismatches and
      a guess with at least FUZZY_COUNT non-blanks is counted and marked fuzzy. */
  function ScanLine(line: string, row: seq<CellState>, g: string, fuzzy: bool, j: nat): LineScan
    requires |row| == |line|
    decreases |line| + 1 - j
  {
    if j + |g| > |line| then LineScan(0, 0, row)
    else if line[j..j + |g|] == g then
      var rest := ScanLine(line, MarkExact(row, j, |g|), g, fuzzy, j + 1);
      rest.(exact := rest.exact + 1)
    else if !fuzzy then
      ScanLine(line, row, g, fuzzy, j + 1)
    else if MismatchCount(line[j..j + |g|], g) <= FUZZY_FAIL && NonBlankCount(g) >= FUZZY_COUNT then
      var rest := ScanLine(line, MarkFuzzy(row, j, |g|), g, fuzzy, j + 1);
      rest.(fuzzy := rest.fuzzy + 1)
    else
      ScanLine(line, row, g, fuzzy, j + 1)
  }

  datatype Scan = Scan(exact: nat, fuzzy: nat, state: seq<seq<CellState>>)

  /** The outer loop of `guess`: every line in turn, summing the counts. */
  function ScanLines(code: seq<string>, state: seq<seq<CellState>>, g: string, fuzzy: bool): Scan
    requires |state| == |code| && forall i :: 0 <= i < |code| ==> |state[i]| == |code[i]|
  {
    if |code| == 0 then Scan(0, 0, [])
    else
      var first := ScanLine(code[0], state[0], g, fuzzy, 0);
      var rest := ScanLines(code[1..], state[1..], g, fuzzy);
      Scan(first.exact + rest.exact, first.fuzzy + rest.fuzzy, [first.row] + rest.state)
  }

  /** Number of exact windows in the whole snippet, overlapping ones included. */
  function ExactHitCount(code: seq<string>, g: string): nat {
    if |code| == 0 then 0 else |ExactStarts(code[0], g, 0)| + ExactHitCount(code[1..], g)
  }

  /** Number of fuzzy windows in the whole snippet. */
  function FuzzyHitCount(code: seq<string>, g: string): nat {
    if |code| == 0 then 0 else |FuzzyStarts(code[0], g, 0)| + FuzzyHitCount(code[1..], g)
  }

  // ---------------------------------------------------------------- proofs about the scan

  lemma CoverExactSplit(line: string, g: string, j: nat, c: int)
    ensures CoveredExact(line, g, j, c) <==>
            (j <= c < j + |g| && ExactAt(line, j, g)) || CoveredExact(line, g, j + 1, c)
  {
    if CoveredExact(line, g, j, c) {
      var w :| j <= w <= c < w + |g| && ExactAt(line, w, g);
      if w != j {
        assert j + 1 <= w;
      }
    }
    if j <= c < j + |g| && ExactAt(line, j, g) {
      assert j <= j <= c < j + |g| && ExactAt(line, j, g);
    }
    if CoveredExact(line, g, j + 1, c) {
      var w :| j + 1 <= w <= c < w + |g| && ExactAt(line, w, g);
      assert j <= w;
    }
  }

  lemma CoverFuzzySplit(line: string, g: string, j: nat, c: int)
    ensures CoveredFuzzy(line, g, j, c) <==>
            (j <= c < j + |g| && FuzzyAt(line, j, g)) || CoveredFuzzy(line, g, j + 1, c)
  {
    if CoveredFuzzy(line, g, j, c) {
      var w :| j <= w <= c < w + |g| && FuzzyAt(line, w, g);
      if w != j {
        assert j + 1 <= w;
      }
    }
    if j <= c < j + |g| && FuzzyAt(line, j, g) {
      assert j <= j <= c < j + |g| && FuzzyAt(line, j, g);
    }
    if CoveredFuzzy(line, g, j + 1, c) {
      var w :| j + 1 <= w <= c < w + |g| && FuzzyAt(line, w, g);
      assert j <= w;
    }
  }

  lemma StartsSplit(line: string, g: string, j: nat)
    ensures ExactStarts(line, g, j) == ExactStarts(line, g, j + 1) + (if ExactAt(line, j, g) then {j} else {})
    ensures FuzzyStarts(line, g, j) == FuzzyStarts(line, g, j + 1) + (if FuzzyAt(line, j, g) then {j} else {})
    ensures j !in ExactStarts(line, g, j + 1) && j !in FuzzyStarts(line, g, j + 1)
  {
  }

  /** Past the last window nothing is left to scan. */
  lemma NoWindowsLeft(line: string, g: string, j: nat, c: int)
    requires j + |g| > |line|
    ensures !CoveredExact(line, g, j, c) && !CoveredFuzzy(line, g, j, c)
    ensures ExactStarts(line, g, j) == {} && FuzzyStarts(line, g, j) == {}
  {
    assert forall w :: ExactAt(line, w, g) ==> w + |g| <= |line|;
    assert forall w :: FuzzyAt(line, w, g) ==> w + |g| <= |line|;
  }

  /** An exact window at j: marking its cells exact and scanning on from j + 1 is the
      same, cell by cell, as the reference scan from j. */
  lemma ExactStep(line: string, g: string, fuzzy: bool, j: nat, row: seq<CellState>)
    requires |row| == |line| && ExactAt(line, j, g)
    ensures forall c :: 0 <= c < |row| ==>
              Expected(line, g, fuzzy, j + 1, MarkExact(row, j, |g|)[c], c) == Expected(line, g, fuzzy, j, row[c], c)
  {
    forall c | 0 <= c < |row|
      ensures Expected(line, g, fuzzy, j + 1, MarkExact(row, j, |g|)[c], c) == Expected(line, g, fuzzy, j, row[c], c)
    {
      CoverExactSplit(line, g, j, c);
      CoverFuzzySplit(line, g, j, c);
      FuzzyMeansOneMismatch(line, j, g);
    }
  }

  /** A fuzzy window at j (fuzzy matching on): marking its unguessed cells fuzzy and
      scanning on from j + 1 is the same as the reference scan from j. */
  lemma FuzzyStep(line: string, g: string, j: nat, row: seq<CellState>)
    requires |row| == |line| && FuzzyAt(line, j, g)
    ensures forall c :: 0 <= c < |row| ==>
              Expected(line, g, true, j + 1, MarkFuzzy(row, j, |g|)[c], c) == Expected(line, g, true, j, row[c], c)
  {
    forall c | 0 <= c < |row|
      ensures Expected(line, g, true, j + 1, MarkFuzzy(row, j, |g|)[c], c) == Expected(line, g, true, j, row[c], c)
    {
      CoverExactSplit(line, g, j, c);
      CoverFuzzySplit(line, g, j, c);
      FuzzyMeansOneMismatch(line, j, g);
    }
  }

  /** A window at j that is counted as neither (or fuzzy matching is off): the row is
      left alone and the reference scan from j + 1 agrees with the one from j. */
  lemma SkipStep(line: string, g: string, fuzzy: bool, j: nat, row: seq<CellState>)
    requires |row| == |line| && !ExactAt(line, j, g) && (fuzzy ==> !FuzzyAt(line, j, g))
    ensures forall c :: 0 <= c < |row| ==>
              Expected(line, g, fuzzy, j + 1, row[c], c) == Expected(line, g, fuzzy, j, row[c], c)
  {
    forall c | 0 <= c < |row|
      ensures Expected(line, g, fuzzy, j + 1, row[c], c) == Expected(line, g, fuzzy, j, row[c], c)
    {
      CoverExactSplit(line, g, j, c);
      CoverFuzzySplit(line, g, j, c);
    }
  }

  /** Scanning one line from column j gives every cell its reference state and counts
      exactly the exact and fuzzy windows that start at or after j. */
  lemma {:induction false} ScanLineSpec(line: string, row: seq<CellState>, g: string, fuzzy: bool, j: nat)
    requires |row| == |line|
    ensures var r := ScanLine(line, row, g, fuzzy, j);
            && |r.row| == |row|
            && (forall c :: 0 <= c < |row| ==> r.row[c] == Expected(line, g, fuzzy, j, row[c], c))
            && r.exact == |ExactStarts(line, g, j)|
            && r.fuzzy == (if fuzzy then |FuzzyStarts(line, g, j)| else 0)
    decreases |line| + 1 - j
  {
    if j + |g| > |line| {
      forall c | 0 <= c < |row|
        ensures row[c] == Expected(line, g, fuzzy, j, row[c], c)
      {
        NoWindowsLeft(line, g, j, c);
      }
      NoWindowsLeft(line, g, j, 0);
    } else {
      StartsSplit(line, g, j);
      FuzzyMeansOneMismatch(line, j, g);
      if line[j..j + |g|] == g {
        ExactStep(line, g, fuzzy, j, row);
        ScanLineSpec(line, MarkExact(row, j, |g|), g, fuzzy, j + 1);
      } else if !fuzzy {
        SkipStep(line, g, fuzzy, j, row);
        ScanLineSpec(line, row, g, fuzzy, j + 1);
      } else if MismatchCount(line[j..j + |g|], g) <= FUZZY_FAIL && NonBlankCount(g) >= FUZZY_COUNT {
        assert FuzzyAt(line, j, g);
        FuzzyStep(line, g, j, row);
        ScanLineSpec(line, MarkFuzzy(row, j, |g|), g, fuzzy, j + 1);
      } else {
        SkipStep(line, g, fuzzy, j, row);
        ScanLineSpec(line, row, g, fuzzy, j + 1);
      }
    }
  }

  /** Scanning every line gives every cell of every line its reference state, and the
      counts are the numbers of exact and fuzzy windows of the whole snippet. */
  lemma {:induction false} ScanLinesSpec(code: seq<string>, state: seq<seq<CellState>>, g: string, fuzzy: bool)
    requires |state| == |code| && forall i :: 0 <= i < |code| ==> |state[i]| == |code[i]|
    ensures var r := ScanLines(code, state, g, fuzzy);
            && |r.state| == |code|
            && (forall i :: 0 <= i < |code| ==> |r.state[i]| == |code[i]|)
            && (forall i, c :: 0 <= i < |code| && 0 <= c < |code[i]| ==>
                  r.state[i][c] == Expected(code[i], g, fuzzy, 0, state[i][c], c))
            && r.exact == ExactHitCount(code, g)
            && r.fuzzy == (if fuzzy then FuzzyHitCount(code, g) else 0)
    decreases |code|
  {
    if |code| > 0 {
      ScanLineSpec(code[0], state[0], g, fuzzy, 0);
      ScanLinesSpec(code[1..], state[1..], g, fuzzy);
      var r := ScanLines(code, state, g, fuzzy);
      forall i, c | 0 <= i < |code| && 0 <= c < |code[i]|
        ensures r.state[i][c] == Expected(code[i], g, fuzzy, 0, state[i][c], c)
      {
        if i > 0 {
          assert code[1..][i - 1] == code[i];
          assert state[1..][i - 1] == state[i];
        }
      }
    }
  }

  // ---------------------------------------------------------------- guess

  /** `CodeSnippet::guess`. A guess shorter than MIN_LEN is rejected and changes nothing.
      Otherwise the exact count is the number of windows equal to the guess (overlapping
      ones included), the fuzzy count is the number of fuzzy windows or the "disabled"
      sentinel, every cell takes its reference state, cells covered by an exact window
      end exact, and no cell goes down. */
  function Guess(s: Snippet, g: string): (out: (GuessResult, Snippet))
    requires s.Valid()
    ensures out.1.Valid() && AtLeast(out.1, s)
    ensures out.0 == TooShort <==> |g| < MIN_LEN
    ensures |g| < MIN_LEN ==> out.1 == s
    ensures |g| >= MIN_LEN ==>
              out.0 == Hits(ExactHitCount(s.code, g),
                            if s.fuzzyAllowed then FuzzyHits(FuzzyHitCount(s.code, g)) else FuzzyDisabled)
    ensures |g| >= MIN_LEN ==>
              forall i, c :: 0 <= i < |s.code| && 0 <= c < |s.code[i]| ==>
                out.1.state[i][c] == Expected(s.code[i], g, s.fuzzyAllowed, 0, s.state[i][c], c)
    ensures |g| >= MIN_LEN ==>
              forall i, w, c :: 0 <= i < |s.code| && ExactAt(s.code[i], w, g) && w <= c < w + |g| ==>
                out.1.state[i][c] == ExactMatch
  {
    if |g| < MIN_LEN then (TooShort, s)
    else
      ScanLinesSpec(s.code, s.state, g, s.fuzzyAllowed);
      var r := ScanLines(s.code, s.state, g, s.fuzzyAllowed);
      var s' := s.(state := r.state);
      assert forall i, w, c :: 0 <= i < |s.code| && ExactAt(s.code[i], w, g) && w <= c < w + |g| ==>
               CoveredExact(s.code[i], g, 0, c);
      (Hits(r.exact, if s.fuzzyAllowed then FuzzyHits(r.fuzzy) else FuzzyDisabled), s')
  }

  // ---------------------------------------------------------------- window facts

  lemma {:induction false} MismatchCountZero(a: string, b: string)
    requires |a| == |b|
    ensures MismatchCount(a, b) == 0 <==> a == b
    decreases |a|
  {
    if |a| > 0 {
      var n := |a| - 1;
      MismatchCountZero(a[..n], b[..n]);
      if a[..n] == b[..n] && a[n] == b[n] {
        assert a == a[..n] + [a[n]] && b == b[..n] + [b[n]];
      }
      if a == b {
        assert a[..n] == b[..n];
      }
    }
  }

  /** Because an equal window is counted as exact first, a fuzzy window differs from the
      guess in exactly one position, and no window is both exact and fuzzy. */
  lemma FuzzyMeansOneMismatch(line: string, w: int, g: string)
    ensures FuzzyAt(line, w, g) ==> MismatchCount(line[w..w + |g|], g) == 1
    ensures !(FuzzyAt(line, w, g) && ExactAt(line, w, g))
  {
    if FuzzyAt(line, w, g) {
      MismatchCountZero(line[w..w + |g|], g);
    }
  }

  // ---------------------------------------------------------------- a worked example

  /** "aaaa" loads as "aaaa" plus two blanks. Guessing "aaa" hits the two overlapping
      windows at columns 0 and 1, and the window "aa " at column 2 (one mismatch, three
      non-blank guess characters) is a fuzzy hit. */
  lemma OverlapExample()
    ensures Load(["aaaa"], true).code == ["aaaa  "]
    ensures ExactStarts("aaaa  ", "aaa", 0) == {0, 1}
    ensures FuzzyStarts("aaaa  ", "aaa", 0) == {2}
    ensures Guess(Load(["aaaa"], true), "aaa").0 == Hits(2, FuzzyHits(1))
  {
    var line := "aaaa  ";
    assert ExpandTabs("aaaa") == "aaaa" by {
      ExpandTabsIdentity("aaaa");
    }
    assert NormalizeLine("aaaa") == line;
    assert Load(["aaaa"], true).code == [line];
    assert "aaa"[..2] == "aa" && "aa"[..1] == "a" && "a"[..0] == "";
    assert "aa "[..2] == "aa" && "a  "[..2] == "a " && "a "[..1] == "a";
    assert MismatchCount("aa", "aa") == 0;
    assert line[2..5] == "aa " && line[3..6] == "a  ";
    assert MismatchCount(line[2..5], "aaa") == 1;
    assert MismatchCount("a ", "aa") == 1;
    assert MismatchCount(line[3..6], "aaa") == 2;
    assert NonBlankCount("aa") == 2;
    assert NonBlankCount("aaa") == 3;
    assert ExactStarts(line, "aaa", 0) == {0, 1};
    assert FuzzyStarts(line, "aaa", 0) == {2};
    assert ExactHitCount([line], "aaa") == 2;
    assert FuzzyHitCount([line], "aaa") == 1;
  }
}
