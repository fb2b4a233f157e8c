/** `AutoGuess`: the hint generator behind the "A" command. A cursor walks a fixed list
    of three-character keywords and suggests the first one that does not yet show in the
    masked view; once the list is used up it suggests three random characters. */
module AutoGuess {
  import opened Text
  import opened CodeSnippet
  import opened Matching
  import opened Reveal
  import opened Session

  /** Length of every suggestion. */
  const GUESS_LENGTH: nat := 3

  /** The keywords tried in order, each GUESS_LENGTH characters long. */
  const Keywords: seq<string> := [
    "int", "for", "if(", "els", "ret", "urn", "cla", "ass", "nam", "esp",
    "#in", "ude", "std", "siz", "lon", "eof", "nul", "ptr", "new", "del",
    "ete", "whi", "ile", "con", "st ", "cou", "t<<", "cin", ">> ", "%d ",
    "sca", "pri", "ntf", "<<\"", "\"<<"
  ]

  /** The characters a random suggestion is drawn from: lower-case letters, digits and
      the symbols common in C++, in that order. */
  const Alphabet: string := "abcdefghijklmnopqrstuvwxyz" + "0123456789" + "_^(){};%=<>+-*&|\""

  /** `w` starts in `line` at some column below n. */
  predicate InLine(line: string, w: string, n: nat) {
    exists i: nat :: i < n && ExactAt(line, i, w)
  }

  /** Reference definition: `w` shows somewhere in the masked view. */
  predicate Visible(mask: seq<string>, w: string) {
    exists l :: 0 <= l < |mask| && InLine(mask[l], w, |mask[l]|)
  }

  /** A usable keyword list: every entry is as long as a suggestion. */
  predicate WellFormed(kws: seq<string>) {
    forall k :: 0 <= k < |kws| ==> |kws[k]| == GUESS_LENGTH
  }

  /** Every keyword from `cursor` on already shows in the view. */
  predicate AllSeenFrom(kws: seq<string>, mask: seq<string>, cursor: nat)
    requires cursor <= |kws|
  {
    forall k :: cursor <= k < |kws| ==> Visible(mask, kws[k])
  }

  /** `random()` with its three uniform draws passed in: draw k, reduced into range,
      picks character k from `alphabet` (the game passes Alphabet). */
  function RandomHint(alphabet: string, rng: nat -> nat): (h: string)
    requires |alphabet| > 0
    ensures |h| == GUESS_LENGTH
    ensures forall k :: 0 <= k < |h| ==> h[k] in alphabet
  {
    [alphabet[rng(0) % |alphabet|], alphabet[rng(1) % |alphabet|], alphabet[rng(2) % |alphabet|]]
  }

  /** The scan for one keyword, as the nested loops walk it: every line, every start
      column from 0 to |line| - GUESS_LENGTH, raising the flag on a match. */
  method Visited(mask: seq<string>, w: string) returns (visited: bool)
    requires |w| == GUESS_LENGTH
    ensures visited <==> Visible(mask, w)
  {
    visited := false;
    for l := 0 to |mask|
      invariant visited <==> exists l' :: 0 <= l' < l && InLine(mask[l'], w, |mask[l']|)
    {
      var line := mask[l];
      var i: nat := 0;
      while i + GUESS_LENGTH <= |line|
        invariant visited <==> (exists l' :: 0 <= l' < l && InLine(mask[l'], w, |mask[l']|))
                               || InLine(line, w, i)
      {
        InLineStep(line, w, i);
        if line[i..i + GUESS_LENGTH] == w {
          visited := true;
        }
        i := i + 1;
      }
      assert InLine(line, w, i) <==> InLine(line, w, |line|);
    }
  }

  /** Widening the range of start columns by one adds exactly the window at column i. */
  lemma InLineStep(line: string, w: string, i: nat)
    ensures InLine(line, w, i + 1) <==> InLine(line, w, i) || ExactAt(line, i, w)
  {
    if InLine(line, w, i + 1) && !ExactAt(line, i, w) {
      var j: nat :| j < i + 1 && ExactAt(line, j, w);
      assert j < i;
    }
  }

  /** `guess(mask)` with keyword list `kws` from cursor position `cursor`: the suggestion
      and the new cursor. */
  function Suggest(kws: seq<string>, mask: seq<string>, cursor: nat, rng: nat -> nat): (out: (string, nat))
    requires WellFormed(kws) && cursor <= |kws|
    ensures cursor <= out.1 <= |kws| && |out.0| == GUESS_LENGTH
    ensures AllSeenFrom(kws, mask, cursor) ==> out == (RandomHint(Alphabet, rng), |kws|)
    ensures !AllSeenFrom(kws, mask, cursor) ==>
              && cursor < out.1
              && out.0 == kws[out.1 - 1]
              && !Visible(mask, out.0)
              && forall k :: cursor <= k < out.1 - 1 ==> Visible(mask, kws[k])
    decreases |kws| - cursor
  {
    if cursor == |kws| then (RandomHint(Alphabet, rng), cursor)
    else if Visible(mask, kws[cursor]) then Suggest(kws, mask, cursor + 1, rng)
    else (kws[cursor], cursor + 1)
  }

  // ---------------------------------------------------------------- properties

  /** No keyword occurs twice in the list. */
  predicate Distinct(kws: seq<string>) {
    forall a, b :: 0 <= a < b < |kws| ==> kws[a] != kws[b]
  }

  /** The game's own list is usable, and the random fallback has 53 characters to draw from. */
  lemma KeywordsShape()
    ensures |Keywords| == 35 && WellFormed(Keywords) && |Alphabet| == 53
  {
  }

  /** Every three-character string over the alphabet is some draw's random suggestion. */
  lemma EveryRandomHintReachable(alphabet: string, h: string)
    requires |alphabet| > 0
    requires |h| == GUESS_LENGTH && forall k :: 0 <= k < |h| ==> h[k] in alphabet
    ensures exists rng: nat -> nat :: RandomHint(alphabet, rng) == h
  {
    var i0 :| 0 <= i0 < |alphabet| && alphabet[i0] == h[0];
    var i1 :| 0 <= i1 < |alphabet| && alphabet[i1] == h[1];
    var i2 :| 0 <= i2 < |alphabet| && alphabet[i2] == h[2];
    var rng: nat -> nat := k => if k == 0 then i0 else if k == 1 then i1 else i2;
    DrawInRange(i0, |alphabet|);
    DrawInRange(i1, |alphabet|);
    DrawInRange(i2, |alphabet|);
    var r := RandomHint(alphabet, rng);
    assert r[0] == h[0] && r[1] == h[1] && r[2] == h[2];
    assert r == h;
  }

  /** Keyword b differs from every keyword before it. */
  lemma KeywordIsNew(b: nat)
    requires b < |Keywords|
    ensures forall a :: 0 <= a < b ==> Keywords[a] != Keywords[b]
  {
  }

  /** The game's keyword list has no repeats. */
  lemma KeywordsDistinct()
    ensures Distinct(Keywords)
  {
    forall a, b | 0 <= a < b < |Keywords|
      ensures Keywords[a] != Keywords[b]
    {
      KeywordIsNew(b);
    }
  }

  /** A suggestion never tells the player something the view already shows: wherever a
      keyword it offers sits in the snippet, a visible character of it is not yet exact. */
  lemma SuggestionNotRevealed(kws: seq<string>, s: Snippet, cursor: nat, rng: nat -> nat, l: nat, i: nat)
    requires WellFormed(kws) && cursor <= |kws| && s.Valid()
    requires !AllSeenFrom(kws, DefaultMask(s), cursor)
    requires l < |s.code| && ExactAt(s.code[l], i, Suggest(kws, DefaultMask(s), cursor, rng).0)
    ensures exists j :: i <= j < i + GUESS_LENGTH && !IsBlank(s.code[l][j]) && s.state[l][j] != ExactMatch
  {
    var m := DefaultMask(s);
    var w := Suggest(kws, m, cursor, rng).0;
    assert !ExactAt(m[l], i, w);
    assert m[l][i..i + GUESS_LENGTH] != s.code[l][i..i + GUESS_LENGTH];
    var mw, cw := m[l][i..i + GUESS_LENGTH], s.code[l][i..i + GUESS_LENGTH];
    var d :| 0 <= d < GUESS_LENGTH && mw[d] != cw[d];
    assert !IsBlank(s.code[l][i + d]) && s.state[l][i + d] != ExactMatch;
  }

  /** Entered as a guess, a suggestion is never too short and never a control token,
      so it is counted. */
  lemma SuggestionIsCounted(kws: seq<string>, game: Game, cursor: nat, rng: nat -> nat, now: int, rng2: nat -> nat)
    requires WellFormed(kws) && cursor <= |kws| && game.Valid() && ClockOk(game, now)
    ensures MakeGuess(game, Suggest(kws, DefaultMask(game.snippet), cursor, rng).0, now, rng2).0.Counted?
  {
    var w := Suggest(kws, DefaultMask(game.snippet), cursor, rng).0;
    assert w != "P" && w != "F";
  }

  /** No later request offers the same keyword from the list again. The cursor only
      moves forward, so every later request starts at some cursor `later` at or past where
      this one left it; whatever the view has become, it offers a different keyword from
      the list, or, once the rest of the list shows in the view, the random fallback,
      which may happen to spell the same three characters. */
  lemma SuggestionsDoNotRepeat(kws: seq<string>, m1: seq<string>, m2: seq<string>, cursor: nat, later: nat,
                               rng: nat -> nat, rng2: nat -> nat)
    requires WellFormed(kws) && Distinct(kws) && cursor <= |kws| && !AllSeenFrom(kws, m1, cursor)
    requires Suggest(kws, m1, cursor, rng).1 <= later <= |kws|
    ensures !AllSeenFrom(kws, m2, later) ==> Suggest(kws, m2, later, rng2).0 != Suggest(kws, m1, cursor, rng).0
    ensures AllSeenFrom(kws, m2, later) ==> Suggest(kws, m2, later, rng2).0 == RandomHint(Alphabet, rng2)
  {
  }

  /** With the game's own keyword list, no later request offers the same keyword from the
      list again; only the random fallback can coincide with it. */
  lemma KeywordSuggestionsDoNotRepeat(m1: seq<string>, m2: seq<string>, cursor: nat, later: nat,
                                      rng: nat -> nat, rng2: nat -> nat)
    requires cursor <= |Keywords| && later <= |Keywords| && !AllSeenFrom(Keywords, m1, cursor)
    ensures WellFormed(Keywords)
    ensures Suggest(Keywords, m1, cursor, rng).1 <= later && !AllSeenFrom(Keywords, m2, later) ==>
              Suggest(Keywords, m2, later, rng2).0 != Suggest(Keywords, m1, cursor, rng).0
    ensures AllSeenFrom(Keywords, m2, later) ==> Suggest(Keywords, m2, later, rng2).0 == RandomHint(Alphabet, rng2)
  {
    KeywordsShape();
    KeywordsDistinct();
    if Suggest(Keywords, m1, cursor, rng).1 <= later {
      SuggestionsDoNotRepeat(Keywords, m1, m2, cursor, later, rng, rng2);
    }
  }

  /** The random fallback can repeat a keyword already offered: on an empty view the first
      suggestion is "int", and at the end of the list some draws spell "int" again. */
  lemma RandomFallbackMayRepeat()
    ensures WellFormed(Keywords)
    ensures Suggest(Keywords, [], 0, k => 0) == ("int", 1)
    ensures exists rng: nat -> nat :: Suggest(Keywords, [], |Keywords|, rng).0 == "int"
  {
    KeywordsShape();
    assert !Visible([], Keywords[0]);
    var rng: nat -> nat := k => if k == 0 then 8 else if k == 1 then 13 else 19;
    assert Alphabet[8] == 'i' && Alphabet[13] == 'n' && Alphabet[19] == 't';
    DrawInRange(8, |Alphabet|);
    DrawInRange(13, |Alphabet|);
    DrawInRange(19, |Alphabet|);
    assert RandomHint(Alphabet, rng) == "int";
    assert Suggest(Keywords, [], |Keywords|, rng).0 == "int";
  }
}
