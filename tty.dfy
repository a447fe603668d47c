// The terminal status screen of tty.h: a fixed text buffer of
// STATUS_HEIGHT lines of STATUS_WIDTH characters plus '\n', filled line by
// line from status text, and the bar drawn for a sound level.

module Tty {

  const StatusWidth: nat := 79
  const StatusHeight: nat := 100
  /** Characters per screen line, the '\n' included: STATUS_WIDTH + 1. */
  const LineSize: nat := 80
  /** Size of `ttyStatusStr`: STATUS_HEIGHT * LineSize characters and a
      terminating '\0'. */
  const ScreenSize: nat := 8001

  // ---------------------------------------------------------------------
  // Lines of a status text

  /** Index of the first '\n' of `s`, or `|s|` when there is none. */
  function Break(s: seq<char>): (q: nat)
    ensures q <= |s|
    ensures q < |s| ==> s[q] == '\n'
  {
    if s == [] || s[0] == '\n' then 0 else 1 + Break(s[1..])
  }

  /** There is no '\n' before Break(s). */
  lemma {:induction false} BeforeBreak(s: seq<char>)
    ensures '\n' !in s[..Break(s)]
  {
    if s != [] && s[0] != '\n' {
      BeforeBreak(s[1..]);
      assert s[..Break(s)] == [s[0]] + s[1..][..Break(s[1..])];
    }
  }

  /** The lines of `s`: the pieces between its '\n' characters. */
  function Lines(s: seq<char>): (r: seq<seq<char>>)
    ensures |r| >= 1
    decreases |s|
  {
    var b := Break(s);
    if b == |s| then [s] else [s[..b]] + Lines(s[b + 1..])
  }

  /** No line contains a '\n'. */
  lemma {:induction false} LinesHaveNoBreak(s: seq<char>)
    ensures forall line <- Lines(s) :: '\n' !in line
    decreases |s|
  {
    var b := Break(s);
    BeforeBreak(s);
    if b < |s| {
      LinesHaveNoBreak(s[b + 1..]);
    }
  }

  /** The lines joined again with '\n'. */
  function Join(ls: seq<seq<char>>): seq<char>
    requires |ls| >= 1
  {
    if |ls| == 1 then ls[0] else ls[0] + ['\n'] + Join(ls[1..])
  }

  /** Splitting at '\n' and joining again gives back the text. */
  lemma {:induction false} JoinLines(s: seq<char>)
    ensures Join(Lines(s)) == s
    decreases |s|
  {
    var b := Break(s);
    if b < |s| {
      JoinLines(s[b + 1..]);
      assert s == s[..b] + ['\n'] + s[b + 1..];
    }
  }

  function NewlineCount(s: seq<char>): nat
  {
    if s == [] then 0 else (if s[0] == '\n' then 1 else 0) + NewlineCount(s[1..])
  }

  lemma {:induction false} NewlineCountAppend(a: seq<char>, b: seq<char>)
    ensures NewlineCount(a + b) == NewlineCount(a) + NewlineCount(b)
  {
    if a == [] {
      assert a + b == b;
    } else {
      NewlineCountAppend(a[1..], b);
      assert (a + b)[1..] == a[1..] + b;
    }
  }

  lemma {:induction false} NoNewline(s: seq<char>)
    requires '\n' !in s
    ensures NewlineCount(s) == 0
  {
    if s != [] {
      NoNewline(s[1..]);
    }
  }

  /** A text of n '\n' characters has n + 1 lines. */
  lemma {:induction false} LineCount(s: seq<char>)
    ensures |Lines(s)| == NewlineCount(s) + 1
    decreases |s|
  {
    var b := Break(s);
    BeforeBreak(s);
    NoNewline(s[..b]);
    if b < |s| {
      LineCount(s[b + 1..]);
      assert s == s[..b] + ([s[b]] + s[b + 1..]);
      NewlineCountAppend(s[..b], [s[b]] + s[b + 1..]);
      assert ([s[b]] + s[b + 1..])[1..] == s[b + 1..];
    } else {
      assert s == s[..b];
    }
  }

  // ---------------------------------------------------------------------
  // Screen lines

  /** The end of a screen line that has `room` characters left: at most
      `room` characters of `t`, spaces up to `room`, then '\n'. */
  function Fill(t: seq<char>, room: nat): (r: seq<char>)
    ensures |r| == room + 1
  {
    if room == 0 then ['\n']
    else if t == [] then seq(room, _ => ' ') + ['\n']
    else [t[0]] + Fill(t[1..], room - 1)
  }

  /** The line is cut after `room` characters or padded with spaces up to
      `room`, and then closed with '\n'. */
  lemma {:induction false} FillAt(t: seq<char>, room: nat, k: nat)
    requires k <= room
    ensures Fill(t, room)[k] == (if k == room then '\n' else if k < |t| then t[k] else ' ')
  {
    if 0 < k && t != [] {
      FillAt(t[1..], room - 1, k - 1);
    }
  }

  /** A text line as it appears on the screen: cut or padded to exactly
      STATUS_WIDTH characters, followed by '\n'. */
  function ScreenLine(t: seq<char>): seq<char>
  {
    Fill(t, StatusWidth)
  }

  /** A blank screen line. */
  function BlankAt(k: int): char
  {
    if k % LineSize == StatusWidth then '\n' else ' '
  }

  function Screen(ls: seq<seq<char>>): (r: seq<char>)
    ensures |r| == LineSize * |ls|
  {
    if ls == [] then [] else ScreenLine(ls[0]) + Screen(ls[1..])
  }

  /** What `ttyUpdateStatus` writes for the text `s`: the screen line of
      its first text line, then those of the text after the first '\n'. */
  function Rendered(s: seq<char>): seq<char>
    decreases |s|
  {
    Fill(s[..Break(s)], StatusWidth) + (if Break(s) == |s| then [] else Rendered(s[Break(s) + 1..]))
  }

  /** The rendered text is one screen line per text line. */
  lemma {:induction false} RenderedLines(s: seq<char>)
    ensures Rendered(s) == Screen(Lines(s))
    decreases |s|
  {
    var b := Break(s);
    if b < |s| {
      RenderedLines(s[b + 1..]);
      var ls := [s[..b]] + Lines(s[b + 1..]);
      assert Lines(s) == ls;
      assert ls[0] == s[..b] && ls[1..] == Lines(s[b + 1..]);
    } else {
      assert Lines(s) == [s];
      assert s[..b] == s;
    }
  }

  lemma RenderedSize(s: seq<char>)
    ensures |Rendered(s)| == LineSize * (NewlineCount(s) + 1)
  {
    RenderedLines(s);
    LineCount(s);
  }

  /** Character k of screen line j of the rendered text is character k of
      ScreenLine of text line j. */
  lemma {:induction false} ScreenAt(ls: seq<seq<char>>, j: nat, k: nat)
    requires j < |ls| && k < LineSize
    ensures LineSize * j + k < |Screen(ls)|
    ensures Screen(ls)[LineSize * j + k] == ScreenLine(ls[j])[k]
  {
    if j > 0 {
      ScreenAt(ls[1..], j - 1, k);
      assert LineSize * j + k == LineSize + (LineSize * (j - 1) + k);
    }
  }

  /** Every screen line written is STATUS_WIDTH characters and a '\n':
      text lines too long are cut, short ones padded with spaces. */
  lemma RenderedLine(s: seq<char>, j: nat, k: nat)
    requires j < |Lines(s)| && k < LineSize
    ensures LineSize * j + k < |Rendered(s)|
    ensures k == StatusWidth ==> Rendered(s)[LineSize * j + k] == '\n'
    ensures k < StatusWidth && k < |Lines(s)[j]| ==> Rendered(s)[LineSize * j + k] == Lines(s)[j][k]
    ensures k < StatusWidth && k >= |Lines(s)[j]| ==> Rendered(s)[LineSize * j + k] == ' '
  {
    RenderedLines(s);
    ScreenAt(Lines(s), j, k);
    FillAt(Lines(s)[j], StatusWidth, k);
  }

  // ---------------------------------------------------------------------
  // The character loop of ttyUpdateStatus

  /** The text from the start of a line on renders as that line, then the
      text after its '\n'. */
  lemma RenderedStep(s: seq<char>, p: nat, e: nat)
    requires p <= |s| && e == p + Break(s[p..])
    ensures Rendered(s[p..]) == Fill(s[p..e], StatusWidth) + (if e == |s| then [] else Rendered(s[e + 1..]))
  {
    var b := Break(s[p..]);
    assert s[p..][..b] == s[p..e];
    if e < |s| {
      assert s[p..][b + 1..] == s[e + 1..];
    }
  }

  /** Character j of the screen line showing the text line s[p..e]. */
  function LineAt(s: seq<char>, p: nat, e: nat, j: nat): char
    requires p <= e <= |s|
  {
    if j == StatusWidth then '\n' else if j < e - p then s[p + j] else ' '
  }

  lemma FillLine(s: seq<char>, p: nat, e: nat, j: nat)
    requires p <= e <= |s| && j < LineSize
    ensures Fill(s[p..e], StatusWidth)[j] == LineAt(s, p, e, j)
  {
    FillAt(s[p..e], StatusWidth, j);
  }

  /** Where the rendering of the text from `p` on stands at position
      `pos - start` of `goal`, the next screen line shows the text line from
      `p` to its end `e`, then the rendering continues with the text after
      `e`. */
  lemma NextLine(goal: seq<char>, start: nat, pos: nat, s: seq<char>, p: nat, e: nat)
    requires start <= pos <= start + |goal| && p <= |s| && goal[pos - start..] == Rendered(s[p..])
    requires e == p + Break(s[p..])
    ensures pos + LineSize <= start + |goal|
    ensures forall j :: 0 <= j < LineSize ==> goal[pos - start + j] == LineAt(s, p, e, j)
    ensures e == |s| ==> pos + LineSize == start + |goal|
    ensures e < |s| ==> goal[pos + LineSize - start..] == Rendered(s[e + 1..])
  {
    var n := pos - start;
    RenderedStep(s, p, e);
    var a := Fill(s[p..e], StatusWidth);
    assert goal[n + |a|..] == goal[n..][|a|..];
    forall j | 0 <= j < LineSize
      ensures goal[n + j] == LineAt(s, p, e, j)
    {
      assert goal[n + j] == goal[n..][j] == a[j];
      FillLine(s, p, e, j);
    }
  }

  lemma RoomForLine(goal: seq<char>, n: nat, s: seq<char>, p: nat)
    requires n <= |goal| && p <= |s| && goal[n..] == Rendered(s[p..])
    ensures n + LineSize <= |goal|
  {
    assert |Rendered(s[p..])| >= LineSize;
  }

  /** Every text line but the last ends at a '\n'. */
  lemma LinesLeft(s: seq<char>, p: nat, e: nat)
    requires p <= e <= |s| && (e == |s| || s[e] == '\n')
    requires forall q :: p <= q < e ==> s[q] != '\n'
    ensures NewlineCount(s[p..]) == if e == |s| then 0 else 1 + NewlineCount(s[e + 1..])
  {
    SkipKeepsCount(s, p, e);
    if e < |s| {
      CountStep(s, e);
    }
  }

  lemma Written(a: array<char>, start: nat, goal: seq<char>)
    requires start + |goal| <= a.Length
    requires forall k :: start <= k < start + |goal| ==> a[k] == goal[k - start]
    ensures a[start..start + |goal|] == goal
  {
  }

  lemma CountStep(s: seq<char>, p: nat)
    requires p < |s|
    ensures NewlineCount(s[p..]) == (if s[p] == '\n' then 1 else 0) + NewlineCount(s[p + 1..])
  {
    assert s[p..][1..] == s[p + 1..];
  }

  /** The first '\n' at or after position p0 of s is found by scanning. */
  lemma BreakAt(s: seq<char>, p0: nat, p: nat)
    requires p0 <= p <= |s|
    requires forall q :: p0 <= q < p ==> s[q] != '\n'
    requires p == |s| || s[p] == '\n'
    ensures Break(s[p0..]) == p - p0
    ensures s[p0..][Break(s[p0..])..] == s[p..]
  {
    var t := s[p0..];
    var b := Break(t);
    BeforeBreak(t);
    assert forall k :: 0 <= k < b ==> t[..b][k] == t[k];
    assert p - p0 < |t| ==> t[p - p0] == '\n';
    assert forall k :: 0 <= k < p - p0 ==> t[k] == s[p0 + k];
  }

  /** Skipping through the rest of one text line never passes a '\n'. */
  lemma SkipKeepsCount(s: seq<char>, p0: nat, p: nat)
    requires p0 <= p <= |s|
    requires forall q :: p0 <= q < p ==> s[q] != '\n'
    ensures NewlineCount(s[p0..]) == NewlineCount(s[p..])
    decreases p - p0
  {
    if p0 < p {
      CountStep(s, p0);
      SkipKeepsCount(s, p0 + 1, p);
    }
  }

  // ---------------------------------------------------------------------
  // The screen buffer

  /** Lines that fit on the screen fit in `ttyStatusStr`. */
  lemma Fits(a: int, b: int)
    requires 0 <= a && 0 <= b && a + b <= StatusHeight
    ensures LineSize * a + LineSize * b < ScreenSize
  {
  }

  function Max(a: int, b: int): int { if a < b then b else a }

  function Min(a: int, b: int): int { if a < b then a else b }

  class StatusScreen {
    /** `ttyStatusStr` */
    const text: array<char>
    /** `ttyStatusLines` */
    var lines: int

    ghost predicate Valid()
      reads this`lines
    {
      text.Length == ScreenSize && 0 <= lines <= StatusHeight
    }

    constructor ()
      ensures Valid() && lines == 0
      ensures fresh(text) && forall k :: 0 <= k < text.Length ==> text[k] == '\0'
    {
      text := new char[ScreenSize](_ => '\0');
      lines := 0;
    }

    /** `ttyResetStatus`: forget all lines. */
    method Reset()
      requires Valid()
      modifies this`lines, text
      ensures Valid() && lines == 0
      ensures text[0] == '\0'
      ensures forall k :: 1 <= k < text.Length ==> text[k] == old(text[k])
    {
      lines := 0;
      text[0] := '\0';
    }

    /** `ttyUpdateStatus`: write the lines of `s` from screen line
        `firstLine` on, first filling any lines between the old end and
        `firstLine` with blanks. The text must fit on the screen. */
    method Update(s: seq<char>, firstLine: int)
      requires Valid()
      requires 0 <= firstLine && firstLine + NewlineCount(s) + 1 <= StatusHeight
      modifies this`lines, text
      ensures Valid()
      ensures lines == Max(old(lines), firstLine + |Lines(s)|)
      ensures text[LineSize * firstLine .. LineSize * (firstLine + |Lines(s)|)] == Rendered(s)
      ensures forall k :: LineSize * old(lines) <= k < LineSize * firstLine ==> text[k] == BlankAt(k)
      ensures forall k :: 0 <= k < Min(LineSize * old(lines), LineSize * firstLine) ==> text[k] == old(text[k])
      ensures forall k :: LineSize * (firstLine + |Lines(s)|) <= k < text.Length ==> text[k] == old(text[k])
    {
      LineCount(s);
      if lines < firstLine {
        FillBlank(firstLine);
      }
      var l := WriteText(s, firstLine);
      if lines <= l {
        lines := l;
      }
    }

    /** The blank lines `ttyUpdateStatus` writes from the old end of the
        screen up to `firstLine`. */
    method FillBlank(firstLine: int)
      requires Valid() && lines < firstLine <= StatusHeight
      modifies this`lines, text
      ensures Valid() && lines == firstLine
      ensures forall k :: LineSize * old(lines) <= k < LineSize * firstLine ==> text[k] == BlankAt(k)
      ensures forall k :: 0 <= k < text.Length && !(LineSize * old(lines) <= k < LineSize * firstLine) ==> text[k] == old(text[k])
    {
      ghost var start := LineSize * lines;
      var pos := LineSize * lines;
      while lines < firstLine
        invariant old(lines) <= lines <= firstLine && pos == LineSize * lines
        decreases firstLine - lines
        invariant forall k :: start <= k < pos ==> text[k] == BlankAt(k)
        invariant forall k :: 0 <= k < text.Length && !(start <= k < pos) ==> text[k] == old(text[k])
      {
        var i := 0;
        while i < StatusWidth
          modifies text
          invariant lines < firstLine
          invariant 0 <= i <= StatusWidth && pos == LineSize * lines + i
          invariant forall k :: start <= k < pos ==> text[k] == BlankAt(k)
          invariant forall k :: 0 <= k < text.Length && !(start <= k < pos) ==> text[k] == old(text[k])
        {
          text[pos] := ' ';
          pos := pos + 1;
          i := i + 1;
        }
        text[pos] := '\n';
        pos := pos + 1;
        lines := lines + 1;
      }
    }

    /** The character loop of `ttyUpdateStatus`: writes the screen lines of
        `s` from line `firstLine` and returns the line after the last. */
    method WriteText(s: seq<char>, firstLine: int) returns (l: int)
      requires text.Length == ScreenSize
      requires 0 <= firstLine && firstLine + NewlineCount(s) + 1 <= StatusHeight
      modifies text
      ensures l == firstLine + NewlineCount(s) + 1
      ensures text[LineSize * firstLine .. LineSize * l] == Rendered(s)
      ensures forall k :: 0 <= k < text.Length && !(LineSize * firstLine <= k < LineSize * l) ==> text[k] == old(text[k])
    {
      ghost var start := LineSize * firstLine;
      ghost var goal := Rendered(s);
      RenderedSize(s);
      var pos := LineSize * firstLine;
      var p := 0;
      l := firstLine;
      assert s[p..] == s;
      assert goal[pos - start..] == goal;
      while true
        invariant 0 <= p <= |s| && pos == LineSize * l && firstLine <= l
        invariant start <= pos <= start + |goal| && goal[pos - start..] == Rendered(s[p..])
        invariant l + NewlineCount(s[p..]) == firstLine + NewlineCount(s)
        invariant forall k :: start <= k < pos ==> text[k] == goal[k - start]
        invariant forall k :: 0 <= k < start ==> text[k] == old(text[k])
        invariant forall k :: pos <= k < text.Length ==> text[k] == old(text[k])
        decreases |s| - p
      {
        var last, q, next := EmitLine(s, p, pos, start, goal);
        pos := next;
        l := l + 1;
        if last {
          break;
        }
        p := q;
      }
      Written(text, start, goal);
    }

    /** One pass of the line loop of `ttyUpdateStatus`, stated against the
        rendering `goal` of the whole text written from `start`. */
    method EmitLine(s: seq<char>, p: nat, pos: nat, ghost start: nat, ghost goal: seq<char>) returns (last: bool, q: nat, next: nat)
      requires p <= |s| && start <= pos <= start + |goal| && start + |goal| < text.Length
      requires goal[pos - start..] == Rendered(s[p..])
      modifies text
      ensures next == pos + LineSize <= start + |goal|
      ensures last ==> next == start + |goal| && NewlineCount(s[p..]) == 0
      ensures !last ==> p < q <= |s| && goal[next - start..] == Rendered(s[q..])
      ensures !last ==> NewlineCount(s[p..]) == 1 + NewlineCount(s[q..])
      ensures forall k :: pos <= k < next ==> text[k] == goal[k - start]
      ensures forall k :: 0 <= k < text.Length && !(pos <= k < next) ==> text[k] == old(text[k])
    {
      RoomForLine(goal, pos - start, s, p);
      var e := WriteLine(s, p, pos);
      NextLine(goal, start, pos, s, p, e);
      forall k | pos <= k < pos + LineSize
        ensures text[k] == goal[k - start]
      {
        var j := k - pos;
        assert text[pos + j] == LineAt(s, p, e, j) == goal[pos - start + j];
      }
      LinesLeft(s, p, e);
      next := pos + LineSize;
      last := e == |s|;
      q := if last then p else e + 1;
    }

    /** One screen line of `ttyUpdateStatus`: the text line starting at `p0`
        is copied up to STATUS_WIDTH characters, the rest of it is skipped,
        the screen line is padded with spaces and closed with '\n'. Returns
        the position of the '\n' or the end of the text. */
    method WriteLine(s: seq<char>, p0: nat, pos0: nat) returns (e: nat)
      requires p0 <= |s| && pos0 + LineSize <= text.Length
      modifies text
      ensures e == p0 + Break(s[p0..]) && (e == |s| || s[e] == '\n')
      ensures forall q :: p0 <= q < e ==> s[q] != '\n'
      ensures forall j :: 0 <= j < LineSize ==> text[pos0 + j] == LineAt(s, p0, e, j)
      ensures forall k :: 0 <= k < text.Length && !(pos0 <= k < pos0 + LineSize) ==> text[k] == old(text[k])
    {
      var p, pos := p0, pos0;
      while p < |s| && s[p] != '\n' && pos - pos0 < StatusWidth
        invariant p0 <= p <= |s| && pos == pos0 + (p - p0) && p - p0 <= StatusWidth
        invariant forall q :: p0 <= q < p ==> s[q] != '\n'
        invariant forall k :: pos0 <= k < pos ==> text[k] == s[p0 + (k - pos0)]
        invariant forall k :: 0 <= k < text.Length && !(pos0 <= k < pos) ==> text[k] == old(text[k])
      {
        text[pos] := s[p];
        pos := pos + 1;
        p := p + 1;
      }
      var copied := p - p0;
      e := p;
      if copied >= StatusWidth {
        e := SkipLine(s, p);
      }
      BreakAt(s, p0, e);
      Pad(pos0, copied);
      assert copied == e - p0 || copied == StatusWidth;
    }

    /** The end of a screen line: spaces after the `used` characters
        already written, then '\n'. */
    method Pad(pos0: nat, used: nat)
      requires used <= StatusWidth && pos0 + LineSize <= text.Length
      modifies text
      ensures forall k :: pos0 + used <= k < pos0 + StatusWidth ==> text[k] == ' '
      ensures text[pos0 + StatusWidth] == '\n'
      ensures forall k :: 0 <= k < text.Length && !(pos0 + used <= k < pos0 + LineSize) ==> text[k] == old(text[k])
    {
      var pos := pos0 + used;
      while pos < pos0 + StatusWidth
        invariant pos0 + used <= pos <= pos0 + StatusWidth
        invariant forall k :: pos0 + used <= k < pos ==> text[k] == ' '
        invariant forall k :: 0 <= k < text.Length && !(pos0 + used <= k < pos) ==> text[k] == old(text[k])
      {
        text[pos] := ' ';
        pos := pos + 1;
      }
      text[pos] := '\n';
    }

    /** The scan past the rest of a text line that does not fit. */
    static method SkipLine(s: seq<char>, p0: nat) returns (p: nat)
      requires p0 <= |s|
      ensures p0 <= p <= |s| && (p == |s| || s[p] == '\n')
      ensures forall q :: p0 <= q < p ==> s[q] != '\n'
    {
      p := p0;
      while p < |s| && s[p] != '\n'
        invariant p0 <= p <= |s|
        invariant forall q :: p0 <= q < p ==> s[q] != '\n'
      {
        p := p + 1;
      }
    }
  }

  // ---------------------------------------------------------------------
  // The level bar of ttyFormatSndLevel

  const BarCells: nat := 38

  /** The dB level drawn by cell j of the bar (j = 0 is the leftmost):
      -76 dB up to -2 dB in steps of 2. */
  function Threshold(j: int): int { 2 * j - 2 * BarCells }

  function Cell(avg: real, peak: real, j: int): char
  {
    if avg > Threshold(j) as real then '#' else if peak > Threshold(j) as real then '+' else '-'
  }

  /** The bar drawn for a level: '[', one cell per threshold, ']'. */
  function Bar(avg: real, peak: real): (r: seq<char>)
    ensures |r| == BarCells + 2 && r[0] == '[' && r[BarCells + 1] == ']'
    ensures forall j :: 0 <= j < BarCells ==> r[j + 1] == Cell(avg, peak, j)
  {
    ['['] + seq(BarCells, j => Cell(avg, peak, j)) + [']']
  }

  /** Number of thresholds a level is above. */
  function Above(x: real, j: nat): (n: nat)
    requires j <= BarCells
    ensures j <= n <= BarCells
    ensures forall c :: j <= c < BarCells ==> (c < n <==> x > Threshold(c) as real)
    decreases BarCells - j
  {
    if j == BarCells || !(x > Threshold(j) as real) then j else Above(x, j + 1)
  }

  /** The bar is some '#' cells, then some '+' cells, then '-' cells: the
      average level fills from the left with '#', the peak continues with
      '+'. */
  lemma BarShape(avg: real, peak: real)
    ensures forall j :: 1 <= j <= BarCells ==>
      Bar(avg, peak)[j] == (if j <= Above(avg, 0) then '#' else if j <= Above(peak, 0) then '+' else '-')
  {
    forall j | 1 <= j <= BarCells
      ensures Bar(avg, peak)[j] == (if j <= Above(avg, 0) then '#' else if j <= Above(peak, 0) then '+' else '-')
    {
      assert Bar(avg, peak)[j] == Cell(avg, peak, j - 1);
    }
  }

  /** `ttyFormatSndLevel` (the bar, without the dB text): appends the bar at
      `at` and returns the position after it. */
  method FormatLevel(buf: array<char>, at: nat, avg: real, peak: real) returns (next: nat)
    requires at + BarCells + 2 <= buf.Length
    modifies buf
    ensures next == at + BarCells + 2
    ensures buf[at..next] == Bar(avg, peak)
    ensures forall k :: 0 <= k < buf.Length && !(at <= k < next) ==> buf[k] == old(buf[k])
  {
    buf[at] := '[';
    next := at + 1;
    var i := BarCells;
    while i > 0
      invariant 0 <= i <= BarCells && next == at + 1 + (BarCells - i)
      invariant buf[at] == '['
      invariant forall j :: 0 <= j < BarCells - i ==> buf[at + 1 + j] == Cell(avg, peak, j)
      invariant forall k :: 0 <= k < buf.Length && !(at <= k < next) ==> buf[k] == old(buf[k])
    {
      var db := -(i as real) * 2.0;
      buf[next] := if avg > db then '#' else if peak > db then '+' else '-';
      next := next + 1;
      i := i - 1;
    }
    buf[next] := ']';
    next := next + 1;
    assert buf[at..next] == Bar(avg, peak);
  }
}
