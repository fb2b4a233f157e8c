/** Character-level definitions shared by the snippet loader and the matcher:
    what counts as blank, and how a raw source line is normalised on load. */
module Text {

  /** Minimum guess length. Loaded lines are padded with MIN_LEN - 1 blanks so
      that every visible character starts at least one window of this length. */
  const MIN_LEN: nat := 3

  /** Width a tab expands to when a snippet line is loaded. */
  const TAB_WIDTH: nat := 4

  /** The larger of two numbers (`std::max`). */
  function Max(a: int, b: int): int {
    if a >= b then a else b
  }

  /** The smaller of two numbers (`std::min`). */
  function Min(a: int, b: int): int {
    if a <= b then a else b
  }

  /** Only the space character is blank; tabs are gone by the time a line is stored. */
  predicate IsBlank(c: char) {
    c == ' '
  }

  /** Number of non-blank characters of `s`. */
  function NonBlankCount(s: string): nat
  {
    if |s| == 0 then 0
    else NonBlankCount(s[..|s| - 1]) + (if IsBlank(s[|s| - 1]) then 0 else 1)
  }

  /** Number of characters that are neither blank nor a tab. */
  function VisibleCount(s: string): nat
  {
    if |s| == 0 then 0
    else VisibleCount(s[..|s| - 1]) + (if s[|s| - 1] == ' ' || s[|s| - 1] == '\t' then 0 else 1)
  }

  /** Number of tab characters in `s`. */
  function TabCount(s: string): nat
  {
    if |s| == 0 then 0
    else TabCount(s[..|s| - 1]) + (if s[|s| - 1] == '\t' then 1 else 0)
  }

  predicate NoTabs(s: string) {
    forall i :: 0 <= i < |s| ==> s[i] != '\t'
  }

  function Spaces(n: nat): (r: string)
    ensures |r| == n
    ensures forall i :: 0 <= i < n ==> r[i] == ' '
  {
    seq(n, _ => ' ')
  }

  /** What one character of a raw line becomes after tab expansion. */
  function ExpandChar(c: char): string {
    if c == '\t' then Spaces(TAB_WIDTH) else [c]
  }

  /** Reference definition of tab expansion: each tab becomes TAB_WIDTH blanks. */
  function ExpandTabs(s: string): string
  {
    if |s| == 0 then []
    else ExpandTabs(s[..|s| - 1]) + ExpandChar(s[|s| - 1])
  }

  /** A stored snippet line: tabs expanded, then MIN_LEN - 1 blanks appended. */
  function NormalizeLine(line: string): string {
    ExpandTabs(line) + Spaces(MIN_LEN - 1)
  }

  /** `std::string::find(c, from)`: the first index at or after `from` holding `c`, or -1 (npos). */
  function Find(s: string, c: char, from: nat): (i: int)
    ensures i == -1 || (from <= i < |s| && s[i] == c)
    ensures i == -1 ==> forall j :: from <= j < |s| ==> s[j] != c
    ensures i != -1 ==> forall j :: from <= j < i ==> s[j] != c
    decreases |s| - from
  {
    if from >= |s| then -1
    else if s[from] == c then from
    else Find(s, c, from + 1)
  }

  lemma {:induction false} NonBlankCountAppend(a: string, b: string)
    ensures NonBlankCount(a + b) == NonBlankCount(a) + NonBlankCount(b)
    decreases |b|
  {
    if |b| == 0 {
      assert a + b == a;
    } else {
      assert (a + b)[..|a + b| - 1] == a + b[..|b| - 1];
      NonBlankCountAppend(a, b[..|b| - 1]);
    }
  }

  lemma {:induction false} SpacesAreBlank(n: nat)
    ensures NonBlankCount(Spaces(n)) == 0
  {
    if n > 0 {
      assert Spaces(n)[..n - 1] == Spaces(n - 1);
      SpacesAreBlank(n - 1);
    }
  }

  lemma {:induction false} ExpandTabsAppend(a: string, b: string)
    ensures ExpandTabs(a + b) == ExpandTabs(a) + ExpandTabs(b)
    decreases |b|
  {
    if |b| == 0 {
      assert a + b == a;
    } else {
      assert (a + b)[..|a + b| - 1] == a + b[..|b| - 1];
      ExpandTabsAppend(a, b[..|b| - 1]);
    }
  }

  /** A tab-free line is left as it is by tab expansion. */
  lemma {:induction false} ExpandTabsIdentity(s: string)
    requires NoTabs(s)
    ensures ExpandTabs(s) == s
    decreases |s|
  {
    if |s| > 0 {
      ExpandTabsIdentity(s[..|s| - 1]);
      assert s == s[..|s| - 1] + [s[|s| - 1]];
    }
  }

  /** Tab expansion removes every tab, grows the line by three characters per tab
      and keeps exactly the visible (non-blank, non-tab) characters. */
  lemma {:induction false} ExpandTabsFacts(s: string)
    ensures NoTabs(ExpandTabs(s))
    ensures |ExpandTabs(s)| == |s| + (TAB_WIDTH - 1) * TabCount(s)
    ensures NonBlankCount(ExpandTabs(s)) == VisibleCount(s)
    decreases |s|
  {
    if |s| > 0 {
      var init := s[..|s| - 1];
      var c := s[|s| - 1];
      ExpandTabsFacts(init);
      var e, x := ExpandTabs(init), ExpandChar(c);
      assert ExpandTabs(s) == e + x;
      NonBlankCountAppend(e, x);
      if c == '\t' {
        SpacesAreBlank(TAB_WIDTH);
        assert NoTabs(x) && |x| == TAB_WIDTH;
        assert TabCount(s) == TabCount(init) + 1;
      } else {
        assert [c][..0] == [];
        assert NonBlankCount(x) == (if IsBlank(c) then 0 else 1);
        assert TabCount(s) == TabCount(init);
      }
      assert VisibleCount(s) == VisibleCount(init) + NonBlankCount(x);
    }
  }

  /** The normalised line has no tabs, is TabCount*3 + 2 characters longer than the raw
      line, keeps its visible characters, and every visible character is followed by
      room for a whole window of MIN_LEN characters. */
  lemma NormalizeLineFacts(line: string)
    ensures NoTabs(NormalizeLine(line))
    ensures |NormalizeLine(line)| == |line| + (TAB_WIDTH - 1) * TabCount(line) + MIN_LEN - 1
    ensures NonBlankCount(NormalizeLine(line)) == VisibleCount(line)
    ensures forall j :: 0 <= j < |NormalizeLine(line)| && !IsBlank(NormalizeLine(line)[j]) ==>
              j + MIN_LEN <= |NormalizeLine(line)|
  {
    ExpandTabsFacts(line);
    SpacesAreBlank(MIN_LEN - 1);
    NonBlankCountAppend(ExpandTabs(line), Spaces(MIN_LEN - 1));
  }

  /** Expanding up to and including the next tab appends the tab-free run and four blanks. */
  lemma ExpandThroughTab(line: string, k: nat, d: nat)
    requires k + d < |line|
    requires NoTabs(line[k..k + d]) && line[k + d] == '\t'
    ensures ExpandTabs(line[..k + d + 1]) == ExpandTabs(line[..k]) + line[k..k + d] + Spaces(TAB_WIDTH)
  {
    var plain := line[k..k + d];
    ExpandTabsIdentity(plain);
    assert line[..k + d + 1] == (line[..k] + plain) + ['\t'];
    ExpandTabsAppend(line[..k] + plain, ['\t']);
    ExpandTabsAppend(line[..k], plain);
    assert ExpandTabs(['\t']) == Spaces(TAB_WIDTH) by {
      assert ['\t'][..0] == [];
    }
  }

  /** One splice of the tab-replacement loop keeps "expanded prefix + untouched suffix". */
  lemma SpliceStep(line: string, r: string, k: nat, pos: nat, next: nat)
    requires k <= |line| && pos <= next < |r|
    requires r[..pos] == ExpandTabs(line[..k]) && r[pos..] == line[k..]
    requires r[next] == '\t' && forall j :: pos <= j < next ==> r[j] != '\t'
    ensures k + (next - pos) + 1 <= |line|
    ensures var r' := r[..next] + Spaces(TAB_WIDTH) + r[next + 1..];
            var k' := k + (next - pos) + 1;
            && next + TAB_WIDTH <= |r'|
            && r'[..next + TAB_WIDTH] == ExpandTabs(line[..k'])
            && r'[next + TAB_WIDTH..] == line[k'..]
  {
    var d := next - pos;
    assert |r| - pos == |line| - k;
    assert line[k..k + d] == r[pos..next];
    assert line[k + d] == r[next];
    ExpandThroughTab(line, k, d);
    var r' := r[..next] + Spaces(TAB_WIDTH) + r[next + 1..];
    assert r[..next] == r[..pos] + r[pos..next];
    assert r'[..next + TAB_WIDTH] == r[..next] + Spaces(TAB_WIDTH);
    assert r'[next + TAB_WIDTH..] == r[next + 1..];
    assert r[next + 1..] == line[k + d + 1..];
  }

  /** When no tab remains after `pos`, the whole line has been expanded. */
  lemma ReplaceDone(line: string, r: string, k: nat, pos: nat)
    requires k <= |line| && pos <= |r|
    requires r[..pos] == ExpandTabs(line[..k]) && r[pos..] == line[k..]
    requires forall j :: pos <= j < |r| ==> r[j] != '\t'
    ensures r == ExpandTabs(line)
  {
    assert NoTabs(line[k..]);
    ExpandTabsIdentity(line[k..]);
    ExpandTabsAppend(line[..k], line[k..]);
    assert line[..k] + line[k..] == line;
    assert r == r[..pos] + r[pos..];
  }

  /** The loader's in-place tab replacement: repeatedly find the next tab at or after
      `pos`, splice in four blanks, and continue after them. */
  method ReplaceTabs(line: string) returns (r: string)
    ensures r == ExpandTabs(line)
  {
    r := line;
    var pos: nat := 0;
    ghost var k: nat := 0;
    var next := Find(r, '\t', pos);
    while next != -1
      invariant k <= |line| && pos <= |r|
      invariant r[..pos] == ExpandTabs(line[..k])
      invariant r[pos..] == line[k..]
      invariant next == Find(r, '\t', pos)
      decreases |r| - pos
    {
      SpliceStep(line, r, k, pos, next);
      k := k + (next - pos) + 1;
      r := r[..next] + Spaces(TAB_WIDTH) + r[next + 1..];
      pos := next + TAB_WIDTH;
      next := Find(r, '\t', pos);
    }
    ReplaceDone(line, r, k, pos);
  }
}
