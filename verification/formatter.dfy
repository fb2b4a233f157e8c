/** `GameHistoryFormatter::format`: one history line, built from four fields. The first
    three are left-justified and padded with blanks to fixed widths; a field longer than
    its width is written whole, pushing the rest of the line to the right. */
module GameHistoryFormatter {
  import opened Text

  const TIME_WIDTH: nat := 26
  const GAME_TYPE_WIDTH: nat := 18
  const PID_WIDTH: nat := 7

  /** Column where the game information starts when every field fits its width. */
  const INFO_COLUMN: nat := TIME_WIDTH + GAME_TYPE_WIDTH + PID_WIDTH

  /** `std::left << std::setw(width) << s`: `s` followed by enough blanks to reach
      `width`; never cut. */
  function PadRight(s: string, width: nat): (r: string)
    ensures |r| == Max(|s|, width)
    ensures r[..|s|] == s
    ensures forall k :: |s| <= k < |r| ==> r[k] == ' '
  {
    s + Spaces(if |s| < width then width - |s| else 0)
  }

  function Format(time: string, gameType: string, pid: string, gameInfo: string): (r: string)
    ensures |r| == Max(|time|, TIME_WIDTH) + Max(|gameType|, GAME_TYPE_WIDTH) + Max(|pid|, PID_WIDTH) + |gameInfo|
  {
    PadRight(time, TIME_WIDTH) + PadRight(gameType, GAME_TYPE_WIDTH) + PadRight(pid, PID_WIDTH) + gameInfo
  }

  /** Nothing is truncated: each field appears whole, at the column where the padded
      fields before it end. */
  lemma FormatKeepsEveryField(time: string, gameType: string, pid: string, gameInfo: string)
    ensures var r := Format(time, gameType, pid, gameInfo);
            var c1 := Max(|time|, TIME_WIDTH);
            var c2 := c1 + Max(|gameType|, GAME_TYPE_WIDTH);
            var c3 := c2 + Max(|pid|, PID_WIDTH);
            && r[..|time|] == time
            && r[c1..c1 + |gameType|] == gameType
            && r[c2..c2 + |pid|] == pid
            && r[c3..] == gameInfo
  {
    var a, b, c := PadRight(time, TIME_WIDTH), PadRight(gameType, GAME_TYPE_WIDTH), PadRight(pid, PID_WIDTH);
    var r := a + b + c + gameInfo;
    assert r[..|time|] == a[..|time|];
    assert r[|a|..|a| + |gameType|] == b[..|gameType|];
    assert r[|a| + |b|..|a| + |b| + |pid|] == c[..|pid|];
  }

  /** Reads a history line back by columns: the three padded fields and the rest. */
  function Columns(line: string): (string, string, string, string)
    requires |line| >= INFO_COLUMN
  {
    (line[..TIME_WIDTH], line[TIME_WIDTH..TIME_WIDTH + GAME_TYPE_WIDTH],
     line[TIME_WIDTH + GAME_TYPE_WIDTH..INFO_COLUMN], line[INFO_COLUMN..])
  }

  /** `s` without its trailing blanks. */
  function TrimRight(s: string): (r: string)
    ensures |r| <= |s| && r == s[..|r|]
    ensures |r| > 0 ==> !IsBlank(r[|r| - 1])
    ensures forall k :: |r| <= k < |s| ==> IsBlank(s[k])
  {
    if |s| > 0 && IsBlank(s[|s| - 1]) then TrimRight(s[..|s| - 1]) else s
  }

  /** Trimming undoes padding for a field that does not itself end in a blank. */
  lemma TrimPadded(s: string, width: nat)
    requires |s| == 0 || !IsBlank(s[|s| - 1])
    ensures TrimRight(PadRight(s, width)) == s
  {
  }

  /** When every field fits its width, the columns give back the padded fields and the
      game information unchanged, and trimming recovers any field not ending in a blank. */
  lemma ColumnsRoundTrip(time: string, gameType: string, pid: string, gameInfo: string)
    requires |time| <= TIME_WIDTH && |gameType| <= GAME_TYPE_WIDTH && |pid| <= PID_WIDTH
    ensures |Format(time, gameType, pid, gameInfo)| >= INFO_COLUMN
    ensures Columns(Format(time, gameType, pid, gameInfo)) ==
              (PadRight(time, TIME_WIDTH), PadRight(gameType, GAME_TYPE_WIDTH), PadRight(pid, PID_WIDTH), gameInfo)
    ensures (|gameType| == 0 || !IsBlank(gameType[|gameType| - 1])) ==>
              TrimRight(Columns(Format(time, gameType, pid, gameInfo)).1) == gameType
    ensures (|pid| == 0 || !IsBlank(pid[|pid| - 1])) ==>
              TrimRight(Columns(Format(time, gameType, pid, gameInfo)).2) == pid
  {
    var a, b, c := PadRight(time, TIME_WIDTH), PadRight(gameType, GAME_TYPE_WIDTH), PadRight(pid, PID_WIDTH);
    var r := a + b + c + gameInfo;
    assert r[..TIME_WIDTH] == a;
    assert r[TIME_WIDTH..TIME_WIDTH + GAME_TYPE_WIDTH] == b;
    assert r[TIME_WIDTH + GAME_TYPE_WIDTH..INFO_COLUMN] == c;
    assert r[INFO_COLUMN..] == gameInfo;
    if |gameType| == 0 || !IsBlank(gameType[|gameType| - 1]) {
      TrimPadded(gameType, GAME_TYPE_WIDTH);
    }
    if |pid| == 0 || !IsBlank(pid[|pid| - 1]) {
      TrimPadded(pid, PID_WIDTH);
    }
  }
}
