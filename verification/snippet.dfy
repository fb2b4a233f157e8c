/** A loaded code snippet: its normalised lines and the parallel grid of
    per-character reveal states, with the counting, win test and masked view
    the game reads from it. */
module CodeSnippet {
  import opened Text

  /** Reveal state of one character cell, ordered Unguessed < FuzzyMatch < ExactMatch. */
  datatype CellState = Unguessed | FuzzyMatch | ExactMatch

  /** The numeric code the C++ grid stores for each state (0, 1, 2). */
  function Rank(c: CellState): nat {
    match c
    case Unguessed => 0
    case FuzzyMatch => 1
    case ExactMatch => 2
  }

  /** Lines of code, one state row per line, and whether fuzzy matching is on for
      this snippet (fixed when the snippet is loaded; there is no setter). */
  datatype Snippet = Snippet(code: seq<string>, state: seq<seq<CellState>>, fuzzyAllowed: bool) {
    /** The grid has exactly one cell per character. */
    predicate Valid() {
      && |state| == |code|
      && forall i :: 0 <= i < |code| ==> |state[i]| == |code[i]|
    }
  }

  /** `s2` has the same text and grid shape as `s1`, and no cell has gone down. */
  predicate AtLeast(s2: Snippet, s1: Snippet)
    requires s1.Valid() && s2.Valid()
  {
    && s2.code == s1.code
    && s2.fuzzyAllowed == s1.fuzzyAllowed
    && forall i, j :: 0 <= i < |s1.code| && 0 <= j < |s1.code[i]| ==>
         Rank(s2.state[i][j]) >= Rank(s1.state[i][j])
  }

  /** Every cell of `r` that differs from `s` is a visible cell that has become exact:
      the only change `reveal` ever makes. */
  predicate OnlyNewlyExact(r: Snippet, s: Snippet)
    requires s.Valid() && r.Valid() && r.code == s.code
  {
    forall i, j :: 0 <= i < |s.code| && 0 <= j < |s.code[i]| && r.state[i][j] != s.state[i][j] ==>
      r.state[i][j] == ExactMatch && !IsBlank(s.code[i][j])
  }

  lemma OnlyNewlyExactTransitive(s1: Snippet, s2: Snippet, s3: Snippet)
    requires s1.Valid() && s2.Valid() && s3.Valid() && s2.code == s1.code && s3.code == s2.code
    requires OnlyNewlyExact(s2, s1) && OnlyNewlyExact(s3, s2)
    ensures OnlyNewlyExact(s3, s1)
  {
  }

  lemma AtLeastTransitive(s1: Snippet, s2: Snippet, s3: Snippet)
    requires s1.Valid() && s2.Valid() && s3.Valid()
    requires AtLeast(s2, s1) && AtLeast(s3, s2)
    ensures AtLeast(s3, s1)
  {
  }

  /** A snippet built from raw file lines: every line normalised, every cell unguessed. */
  function Load(lines: seq<string>, fuzzy: bool): (s: Snippet)
    ensures s.Valid()
  {
    var code := seq(|lines|, i requires 0 <= i < |lines| => NormalizeLine(lines[i]));
    Snippet(code, seq(|lines|, i requires 0 <= i < |lines| => seq(|code[i]|, _ => Unguessed)), fuzzy)
  }

  // ---------------------------------------------------------------- counting

  /** Number of visible characters of the snippet (getTotalNumber). */
  function TotalNumber(code: seq<string>): nat
  {
    if |code| == 0 then 0
    else TotalNumber(code[..|code| - 1]) + NonBlankCount(code[|code| - 1])
  }

  /** Number of visible characters of one line whose cell is exact-matched. */
  function RowGuessed(line: string, row: seq<CellState>): nat
    requires |row| == |line|
  {
    if |line| == 0 then 0
    else RowGuessed(line[..|line| - 1], row[..|row| - 1])
         + (if !IsBlank(line[|line| - 1]) && row[|row| - 1] == ExactMatch then 1 else 0)
  }

  /** Number of visible, exact-matched characters of the snippet (getGuessedNumber). */
  function GuessedNumber(s: Snippet): nat
    requires s.Valid()
  {
    GuessedLines(s.code, s.state)
  }

  function GuessedLines(code: seq<string>, state: seq<seq<CellState>>): nat
    requires |state| == |code| && forall i :: 0 <= i < |code| ==> |state[i]| == |code[i]|
  {
    if |code| == 0 then 0
    else GuessedLines(code[..|code| - 1], state[..|state| - 1])
         + RowGuessed(code[|code| - 1], state[|state| - 1])
  }

  /** Every visible character of the line is exact-matched. */
  predicate RowRevealed(line: string, row: seq<CellState>)
    requires |row| == |line|
  {
    forall j :: 0 <= j < |line| && !IsBlank(line[j]) ==> row[j] == ExactMatch
  }

  /** The winning condition: every visible character of the snippet is exact-matched. */
  predicate AllRevealed(s: Snippet)
    requires s.Valid()
  {
    forall i, j :: 0 <= i < |s.code| && 0 <= j < |s.code[i]| && !IsBlank(s.code[i][j]) ==>
      s.state[i][j] == ExactMatch
  }

  lemma {:induction false} RowGuessedMonotone(line: string, r1: seq<CellState>, r2: seq<CellState>)
    requires |r1| == |line| && |r2| == |line|
    requires forall j :: 0 <= j < |line| ==> Rank(r2[j]) >= Rank(r1[j])
    ensures RowGuessed(line, r2) >= RowGuessed(line, r1)
    decreases |line|
  {
    if |line| > 0 {
      var n := |line| - 1;
      RowGuessedMonotone(line[..n], r1[..n], r2[..n]);
    }
  }

  lemma {:induction false} GuessedLinesMonotone(code: seq<string>, st1: seq<seq<CellState>>, st2: seq<seq<CellState>>)
    requires |st1| == |code| && forall i :: 0 <= i < |code| ==> |st1[i]| == |code[i]|
    requires |st2| == |code| && forall i :: 0 <= i < |code| ==> |st2[i]| == |code[i]|
    requires forall i, j :: 0 <= i < |code| && 0 <= j < |code[i]| ==> Rank(st2[i][j]) >= Rank(st1[i][j])
    ensures GuessedLines(code, st2) >= GuessedLines(code, st1)
    decreases |code|
  {
    if |code| > 0 {
      var n := |code| - 1;
      GuessedLinesMonotone(code[..n], st1[..n], st2[..n]);
      RowGuessedMonotone(code[n], st1[n], st2[n]);
    }
  }

  /** Progress is never lost: a snippet at least as far along has at least as many
      exact-matched characters, and stays solved once solved. */
  lemma AtLeastKeepsProgress(s1: Snippet, s2: Snippet)
    requires s1.Valid() && s2.Valid() && AtLeast(s2, s1)
    ensures GuessedNumber(s2) >= GuessedNumber(s1)
    ensures AllRevealed(s1) ==> AllRevealed(s2)
  {
    GuessedLinesMonotone(s1.code, s1.state, s2.state);
  }

  lemma {:induction false} RowGuessedBound(line: string, row: seq<CellState>)
    requires |row| == |line|
    ensures RowGuessed(line, row) <= NonBlankCount(line)
    ensures RowGuessed(line, row) == NonBlankCount(line) <==> RowRevealed(line, row)
    decreases |line|
  {
    if |line| > 0 {
      var n := |line| - 1;
      RowGuessedBound(line[..n], row[..n]);
      if RowRevealed(line, row) {
        assert RowRevealed(line[..n], row[..n]);
      }
      if RowRevealed(line[..n], row[..n]) && (IsBlank(line[n]) || row[n] == ExactMatch) {
        forall j | 0 <= j < |line| && !IsBlank(line[j])
          ensures row[j] == ExactMatch
        {
          if j < n {
            assert line[..n][j] == line[j];
          }
        }
      }
    }
  }

  lemma {:induction false} GuessedLinesBound(code: seq<string>, state: seq<seq<CellState>>)
    requires |state| == |code| && forall i :: 0 <= i < |code| ==> |state[i]| == |code[i]|
    ensures GuessedLines(code, state) <= TotalNumber(code)
    ensures GuessedLines(code, state) == TotalNumber(code) <==> AllRevealed(Snippet(code, state, false))
    decreases |code|
  {
    if |code| > 0 {
      var n := |code| - 1;
      GuessedLinesBound(code[..n], state[..n]);
      RowGuessedBound(code[n], state[n]);
      var s := Snippet(code, state, false);
      var s' := Snippet(code[..n], state[..n], false);
      if AllRevealed(s) {
        assert AllRevealed(s');
        assert RowRevealed(code[n], state[n]);
      }
      if AllRevealed(s') && RowRevealed(code[n], state[n]) {
        forall i, j | 0 <= i < |code| && 0 <= j < |code[i]| && !IsBlank(code[i][j])
          ensures state[i][j] == ExactMatch
        {
          if i < n {
            assert code[..n][i] == code[i];
          }
        }
      }
    }
  }

  /** 0 <= getGuessedNumber() <= getTotalNumber(), and they are equal exactly
      when every visible character is exact-matched. */
  lemma CountsAndWin(s: Snippet)
    requires s.Valid()
    ensures 0 <= GuessedNumber(s) <= TotalNumber(s.code)
    ensures GuessedNumber(s) == TotalNumber(s.code) <==> AllRevealed(s)
  {
    GuessedLinesBound(s.code, s.state);
    assert AllRevealed(s) <==> AllRevealed(Snippet(s.code, s.state, false));
  }

  /** `check()`: scans every line and stops scanning a line at its first visible
      character that is not exact-matched. */
  method Check(s: Snippet) returns (ok: bool)
    requires s.Valid()
    ensures ok <==> AllRevealed(s)
    ensures ok <==> GuessedNumber(s) == TotalNumber(s.code)
  {
    CountsAndWin(s);
    ok := true;
    var i := 0;
    while i < |s.code|
      invariant 0 <= i <= |s.code|
      invariant ok <==> forall i', j :: 0 <= i' < i && 0 <= j < |s.code[i']| && !IsBlank(s.code[i'][j]) ==>
                          s.state[i'][j] == ExactMatch
    {
      var line := s.code[i];
      var j := 0;
      ghost var okBefore := ok;
      while j < |line|
        invariant 0 <= j <= |line|
        invariant ok == okBefore
        invariant forall j' :: 0 <= j' < j && !IsBlank(line[j']) ==> s.state[i][j'] == ExactMatch
      {
        if !IsBlank(line[j]) && s.state[i][j] != ExactMatch {
          ok := false;
          break;
        }
        j := j + 1;
      }
      i := i + 1;
    }
  }

  /** A freshly loaded snippet holds the normalised lines, with every cell unguessed
      and nothing counted as guessed. */
  lemma LoadIsUnguessed(lines: seq<string>, fuzzy: bool)
    ensures var s := Load(lines, fuzzy);
            && |s.code| == |lines|
            && (forall i :: 0 <= i < |lines| ==> s.code[i] == NormalizeLine(lines[i]))
            && (forall i, j :: 0 <= i < |s.code| && 0 <= j < |s.code[i]| ==> s.state[i][j] == Unguessed)
            && s.fuzzyAllowed == fuzzy
            && GuessedNumber(s) == 0
  {
    var s := Load(lines, fuzzy);
    ZeroGuessedLines(s.code, s.state);
  }

  lemma {:induction false} ZeroGuessedLines(code: seq<string>, state: seq<seq<CellState>>)
    requires |state| == |code| && forall i :: 0 <= i < |code| ==> |state[i]| == |code[i]|
    requires forall i, j :: 0 <= i < |code| && 0 <= j < |code[i]| ==> state[i][j] == Unguessed
    ensures GuessedLines(code, state) == 0
    decreases |code|
  {
    if |code| > 0 {
      var n := |code| - 1;
      ZeroGuessedLines(code[..n], state[..n]);
      ZeroRowGuessed(code[n], state[n]);
    }
  }

  lemma {:induction false} ZeroRowGuessed(line: string, row: seq<CellState>)
    requires |row| == |line|
    requires forall j :: 0 <= j < |line| ==> row[j] == Unguessed
    ensures RowGuessed(line, row) == 0
    decreases |line|
  {
    if |line| > 0 {
      ZeroRowGuessed(line[..|line| - 1], row[..|row| - 1]);
    }
  }

  // ---------------------------------------------------------------- masked view

  /** How one cell is displayed: blanks and exact cells show the true character,
      unguessed cells the placeholder, fuzzy cells the fuzzy placeholder. */
  function MaskChar(c: char, st: CellState, placeholder: char, fuzzyPlaceholder: char): char {
    if IsBlank(c) || st == ExactMatch then c
    else if st == Unguessed then placeholder
    else fuzzyPlaceholder
  }

  /** `getMasked(placeholder, fuzzyPlaceholder)`. */
  function Masked(s: Snippet, placeholder: char, fuzzyPlaceholder: char): (m: seq<string>)
    requires s.Valid()
    ensures |m| == |s.code|
    ensures forall i :: 0 <= i < |m| ==> |m[i]| == |s.code[i]|
  {
    seq(|s.code|, i requires 0 <= i < |s.code| =>
      seq(|s.code[i]|, j requires 0 <= j < |s.code[i]| =>
        MaskChar(s.code[i][j], s.state[i][j], placeholder, fuzzyPlaceholder)))
  }

  /** The default view the front-ends and the hint generator use. */
  function DefaultMask(s: Snippet): (m: seq<string>)
    requires s.Valid()
  {
    Masked(s, '@', '#')
  }

  /** Neither placeholder occurs in the snippet text itself. */
  ghost predicate PlaceholderFree(s: Snippet, placeholder: char, fuzzyPlaceholder: char) {
    forall i, j :: 0 <= i < |s.code| && 0 <= j < |s.code[i]| ==>
      s.code[i][j] != placeholder && s.code[i][j] != fuzzyPlaceholder
  }

  /** The view never alters a blank, hides every visible unguessed cell behind the
      placeholder and every visible fuzzy cell behind the fuzzy placeholder, shows exact
      cells as they are, and shows the true character wherever it shows neither
      placeholder. When the text has no placeholder characters and the two placeholders
      differ, the view determines the state of every visible cell. */
  lemma MaskedDecodes(s: Snippet, placeholder: char, fuzzyPlaceholder: char, i: nat, j: nat)
    requires s.Valid() && 0 <= i < |s.code| && 0 <= j < |s.code[i]|
    ensures var m := Masked(s, placeholder, fuzzyPlaceholder);
            && (IsBlank(s.code[i][j]) ==> m[i][j] == ' ')
            && (!IsBlank(s.code[i][j]) && s.state[i][j] == Unguessed ==> m[i][j] == placeholder)
            && (!IsBlank(s.code[i][j]) && s.state[i][j] == FuzzyMatch ==> m[i][j] == fuzzyPlaceholder)
            && (s.state[i][j] == ExactMatch ==> m[i][j] == s.code[i][j])
            && (m[i][j] != placeholder && m[i][j] != fuzzyPlaceholder ==> m[i][j] == s.code[i][j])
            && (PlaceholderFree(s, placeholder, fuzzyPlaceholder) && placeholder != fuzzyPlaceholder &&
                !IsBlank(s.code[i][j]) ==>
                  && (m[i][j] == placeholder <==> s.state[i][j] == Unguessed)
                  && (m[i][j] == fuzzyPlaceholder <==> s.state[i][j] == FuzzyMatch)
                  && (m[i][j] == s.code[i][j] <==> s.state[i][j] == ExactMatch))
  {
  }

  /** Once every visible character is exact-matched the view is the text itself;
      for placeholder-free text the converse also holds. */
  lemma MaskedWhenRevealed(s: Snippet, placeholder: char, fuzzyPlaceholder: char)
    requires s.Valid()
    ensures AllRevealed(s) ==> Masked(s, placeholder, fuzzyPlaceholder) == s.code
    ensures (PlaceholderFree(s, placeholder, fuzzyPlaceholder) &&
             Masked(s, placeholder, fuzzyPlaceholder) == s.code) ==> AllRevealed(s)
  {
    var m := Masked(s, placeholder, fuzzyPlaceholder);
    if AllRevealed(s) {
      forall i | 0 <= i < |s.code|
        ensures m[i] == s.code[i]
      {
        assert forall j :: 0 <= j < |s.code[i]| ==> m[i][j] == s.code[i][j];
      }
    }
    if PlaceholderFree(s, placeholder, fuzzyPlaceholder) && m == s.code {
      forall i, j | 0 <= i < |s.code| && 0 <= j < |s.code[i]| && !IsBlank(s.code[i][j])
        ensures s.state[i][j] == ExactMatch
      {
        assert m[i][j] == s.code[i][j];
      }
    }
  }
}
