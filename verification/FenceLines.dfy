/** What opens and closes a code fence, and which lines the checkers look at, written out in characters and numbers. */
module FenceLines {
  import opened Prelude
  import opened MarkdownLinks
  import opened DocumentFences

  function Repeat(c: char, n: nat): (s: string)
    ensures |s| == n && forall k {:trigger s[k]} | 0 <= k < n :: s[k] == c
  {
    seq(n, k requires 0 <= k < n => c)
  }

  predicate IsMark(c: char) {
    c == '`' || c == '~'
  }

  /** At most three spaces, at least three times `c`, and an info text that does not go on with a fence character. */
  predicate FenceLine(line: string, indent: nat, c: char, width: nat, info: string) {
    && indent <= 3 && width >= 3 && IsMark(c)
    && line == Repeat(' ', indent) + Repeat(c, width) + info
    && (info != "" ==> !IsMark(info[0]))
  }

  lemma FenceLineIsSyntax(line: string, indent: nat, c: char, width: nat, info: string)
    ensures FenceLine(line, indent, c, width, info) <==>
      FenceSyntax(line, indent, width) && c == line[indent] && info == line[indent + width..]
  {
    var spaces, run := Repeat(' ', indent), Repeat(c, width);
    if FenceLine(line, indent, c, width, info) {
      assert forall k | 0 <= k < indent :: line[k] == spaces[k];
      assert forall k | 0 <= k < width :: line[indent + k] == run[k];
      assert info != "" ==> line[indent + width] == info[0];
    }
    if FenceSyntax(line, indent, width) && c == line[indent] && info == line[indent + width..] {
      assert line[..indent] == spaces;
      assert line[indent..indent + width] == run;
      assert line == line[..indent] + line[indent..indent + width] + line[indent + width..];
    }
  }

  /** A line is read as a fence line exactly when it is spelled like one. */
  lemma FenceLinesAre(line: string, c: char, width: nat, info: string)
    ensures FenceMatch(line) == Some(Marker(c, width, info)) <==>
      exists indent :: FenceLine(line, indent, c, width, info)
  {
    hide FenceLine;
    if FenceMatch(line) == Some(Marker(c, width, info)) {
      var indent := Indent(line);
      FenceMatchIsSyntax(line, indent, width) by { assert indent + width <= |line|; }
      FenceLineIsSyntax(line, indent, c, width, info);
    }
    if indent :| FenceLine(line, indent, c, width, info) {
      FenceLineIsSyntax(line, indent, c, width, info);
      FenceMatchIsSyntax(line, indent, width);
    }
  }

  lemma NoFenceLine(line: string)
    ensures FenceMatch(line) == None <==>
      forall indent, c, width, info :: !FenceLine(line, indent, c, width, info)
  {
    hide FenceLine, FenceMatch;
    if FenceMatch(line).Some? {
      var marker := FenceMatch(line).value;
      FenceLinesAre(line, marker.character, marker.width, marker.info);
    }
    if indent, c, width, info :| FenceLine(line, indent, c, width, info) { FenceLinesAre(line, c, width, info); }
  }

  // ----- Opening and closing

  /** With no fence open, a line opens a fence exactly when it is a fence line; no other line opens one. */
  lemma FenceOpens(lines: seq<string>, line: string, c: char, width: nat)
    requires FenceAfter(lines) == Closed
    ensures FenceAfter(lines + [line]) == Open(c, width) <==>
      exists indent, info :: FenceLine(line, indent, c, width, info)
  {
    hide FenceLine, FenceMatch;
    assert (lines + [line])[..|lines|] == lines;
    if FenceMatch(line).Some? {
      var marker := FenceMatch(line).value;
      FenceLinesAre(line, marker.character, marker.width, marker.info);
    }
    if indent, info :| FenceLine(line, indent, c, width, info) { FenceLinesAre(line, c, width, info); }
  }

  /** A fence line of the open fence's character, at least as wide, with nothing but white space after it. */
  ghost predicate ClosingLine(line: string, c: char, width: nat) {
    exists indent, run, blank :: run >= width && FenceLine(line, indent, c, run, blank) && AllSpace(blank)
  }

  /** An open fence is closed by such a line, and stays as it is after every other one. */
  lemma FenceCloses(lines: seq<string>, line: string, c: char, width: nat)
    requires FenceAfter(lines) == Open(c, width)
    ensures FenceAfter(lines + [line]) == if ClosingLine(line, c, width) then Closed else Open(c, width)
  {
    hide FenceLine, FenceMatch, Blank, AllSpace;
    assert (lines + [line])[..|lines|] == lines;
    if FenceMatch(line).Some? {
      var marker := FenceMatch(line).value;
      FenceLinesAre(line, marker.character, marker.width, marker.info);
      BlankIsSpace(marker.info);
    }
    if indent, run, blank :| run >= width && FenceLine(line, indent, c, run, blank) && AllSpace(blank) {
      FenceLinesAre(line, c, run, blank);
    }
  }

  lemma BlankIsSpace(s: string)
    ensures Blank(s) == AllSpace(s)
  {
  }

  // ----- Mixed markers

  /** At most three spaces and a run of three or more fence characters, of both kinds, that does not go on. */
  predicate MixedLine(line: string, indent: nat, marker: string, rest: string) {
    && indent <= 3 && |marker| >= 3
    && line == Repeat(' ', indent) + marker + rest
    && (forall k | 0 <= k < |marker| :: IsMark(marker[k]))
    && '`' in marker && '~' in marker
    && (rest != "" ==> !IsMark(rest[0]))
  }

  /** A marker is found exactly when the line is spelled like that. */
  lemma MixedMarkersAre(line: string, marker: string)
    ensures MixedFenceMarker(line) == Some(marker) <==> exists indent, rest :: MixedLine(line, indent, marker, rest)
  {
    if MixedFenceMarker(line) == Some(marker) {
      var indent := Indent(line);
      var end := indent + |marker|;
      var rest := line[end..];
      assert marker == line[indent..end];
      assert line[..indent] == Repeat(' ', indent);
      assert line == line[..indent] + marker + rest;
      forall k | 0 <= k < |marker| ensures IsMark(marker[k]) { assert marker[k] == line[indent + k]; }
      assert rest != "" ==> rest[0] == line[end];
      assert MixedLine(line, indent, marker, rest);
    }
    if indent, rest :| MixedLine(line, indent, marker, rest) { MixedLineIsFound(line, indent, marker, rest); }
  }

  lemma MixedLineIsFound(line: string, indent: nat, marker: string, rest: string)
    requires MixedLine(line, indent, marker, rest)
    ensures MixedFenceMarker(line) == Some(marker)
  {
    var end := indent + |marker|;
    assert line[..indent] == Repeat(' ', indent);
    assert line[indent..end] == marker;
    assert forall k | 0 <= k < indent :: line[k] == line[..indent][k];
    assert forall k | indent <= k < end :: line[k] == marker[k - indent];
    assert end < |line| ==> line[end] == rest[0];
    RunIs(line, 0, c => c == ' ', indent);
    RunIs(line, indent, FenceCharacter, |marker|);
  }

  /** The first characters of the marker are enough of the open fence's to close it. */
  lemma SamePrefixMeans(marker: string, c: char, width: nat)
    ensures SamePrefix(marker, c) >= width <==> width <= |marker| && forall k | 0 <= k < width :: marker[k] == c
  {
    var n := SamePrefix(marker, c);
    assert forall k | 0 <= k < n :: marker[k] == c;
    assert n < |marker| ==> marker[n] != c;
  }

  // ----- Which lines are looked at

  ghost predicate Increasing(numbers: seq<nat>) {
    forall i, j | 0 <= i < j < |numbers| :: numbers[i] < numbers[j]
  }

  /** Prose: outside every fence, and no fence line. */
  lemma {:induction false} ProseLinesAre(lines: seq<string>, n: nat)
    ensures n in ProseLines(lines) <==>
      0 < n <= |lines| && FenceAfter(lines[..n - 1]) == Closed && FenceMatch(lines[n - 1]) == None
  {
    hide FenceMatch, FenceAfter;
    if lines != [] {
      var before := lines[..|lines| - 1];
      ProseLinesAre(before, n);
      if 0 < n < |lines| { assert lines[n - 1] == before[n - 1] && lines[..n - 1] == before[..n - 1]; }
    }
  }

  /** Scanned for links: prose without a mixed marker. */
  lemma {:induction false} ScannedLinesAre(lines: seq<string>, n: nat)
    ensures n in ScannedLines(lines) <==>
      && 0 < n <= |lines| && FenceAfter(lines[..n - 1]) == Closed
      && FenceMatch(lines[n - 1]) == None && MixedFenceMarker(lines[n - 1]) == None
  {
    hide FenceMatch, FenceAfter, MixedFenceMarker;
    if lines != [] {
      var before := lines[..|lines| - 1];
      ScannedLinesAre(before, n);
      if 0 < n < |lines| { assert lines[n - 1] == before[n - 1] && lines[..n - 1] == before[..n - 1]; }
    }
  }

  /** A marker is reported outside fences, and inside one when it starts with enough of the fence's character. */
  predicate Confuses(fence: Fence, marker: string) {
    match fence
    case Closed => true
    case Open(c, width) => width <= |marker| && forall k | 0 <= k < width :: marker[k] == c
  }

  lemma ReportedMarkers(fence: Fence, marker: Option<string>)
    ensures ReportsMixed(fence, marker) <==> marker.Some? && Confuses(fence, marker.value)
  {
    if marker.Some? && fence.Open? { SamePrefixMeans(marker.value, fence.character, fence.width); }
  }

  lemma {:induction false} MixedLinesAre(lines: seq<string>, n: nat)
    ensures n in MixedLines(lines) <==>
      && 0 < n <= |lines| && MixedFenceMarker(lines[n - 1]).Some?
      && Confuses(FenceAfter(lines[..n - 1]), MixedFenceMarker(lines[n - 1]).value)
  {
    hide ReportsMixed, FenceAfter, MixedFenceMarker, Confuses;
    if lines != [] {
      var before, line := lines[..|lines| - 1], lines[|lines| - 1];
      MixedLinesAre(before, n);
      ReportedMarkers(FenceAfter(before), MixedFenceMarker(line));
      if 0 < n < |lines| { assert lines[n - 1] == before[n - 1] && lines[..n - 1] == before[..n - 1]; }
    }
  }

  lemma OneMoreIncreases(numbers: seq<nat>, n: nat)
    requires Increasing(numbers) && forall m | m in numbers :: m < n
    ensures Increasing(numbers + [n])
  {
    var all := numbers + [n];
    forall i, j | 0 <= i < j < |all| ensures all[i] < all[j] {
      assert all[i] in numbers;
    }
  }

  /** Each list has its lines in order, once. */
  lemma {:induction false} LinesAreInOrder(lines: seq<string>)
    ensures Increasing(ProseLines(lines)) && Increasing(ScannedLines(lines)) && Increasing(MixedLines(lines))
  {
    hide FenceMatch, FenceAfter, MixedFenceMarker, ReportsMixed, Increasing;
    if lines != [] {
      var before := lines[..|lines| - 1];
      LinesAreInOrder(before);
      forall n: nat ensures n in ProseLines(before) || n in ScannedLines(before) || n in MixedLines(before) ==> n < |lines| {
        ProseLinesAre(before, n);
        ScannedLinesAre(before, n);
        MixedLinesAre(before, n);
      }
      OneMoreIncreases(ProseLines(before), |lines|);
      OneMoreIncreases(ScannedLines(before), |lines|);
      OneMoreIncreases(MixedLines(before), |lines|);
      assert forall numbers: seq<nat> :: numbers + [] == numbers;
    } else {
      NoLines();
    }
  }

  lemma NoLines()
    ensures Increasing([])
  {
  }

  /** One diagnostic for every prose line in which something is found, with how much. */
  lemma {:induction false} CountedAre(lines: seq<string>, numbers: seq<nat>, count: string -> nat)
    requires forall n | n in numbers :: 0 < n <= |lines|
    ensures forall n: nat, found: nat :: (n, found) in Counted(lines, numbers, count) <==>
      n in numbers && found > 0 && 0 < n <= |lines| && found == count(lines[n - 1])
  {
    if numbers != [] {
      var fewer, last := numbers[..|numbers| - 1], numbers[|numbers| - 1];
      assert last in numbers && forall n | n in fewer :: n in numbers;
      CountedAre(lines, fewer, count);
      assert numbers == fewer + [last];
    }
  }

  ghost predicate InOrder(found: seq<(nat, nat)>, numbers: seq<nat>) {
    && (forall i | 0 <= i < |found| :: found[i].0 in numbers)
    && forall i, j | 0 <= i < j < |found| :: found[i].0 < found[j].0
  }

  lemma OneMoreInOrder(found: seq<(nat, nat)>, fewer: seq<nat>, numbers: seq<nat>, last: (nat, nat))
    requires InOrder(found, fewer) && last.0 in numbers
    requires forall n | n in fewer :: n in numbers && n < last.0
    ensures InOrder(found, numbers) && InOrder(found + [last], numbers)
  {
    var all := found + [last];
    forall i | 0 <= i < |found| ensures all[i].0 in numbers && all[i].0 < last.0 {
      assert all[i] == found[i] && found[i].0 in fewer;
    }
  }

  /** The diagnostics come in the order of the lines. */
  lemma {:induction false} CountedInOrder(lines: seq<string>, numbers: seq<nat>, count: string -> nat)
    requires Increasing(numbers)
    ensures InOrder(Counted(lines, numbers, count), numbers)
  {
    if numbers != [] {
      var fewer, last := numbers[..|numbers| - 1], numbers[|numbers| - 1];
      FewerAreSmaller(numbers);
      assert Increasing(fewer);
      CountedInOrder(lines, fewer, count);
      hide InOrder, Increasing;
      var before := Counted(lines, fewer, count);
      OneMoreInOrder(before, fewer, numbers, (last, if 0 < last <= |lines| then count(lines[last - 1]) else 0));
      assert before + [] == before;
    }
  }

  lemma FewerAreSmaller(numbers: seq<nat>)
    requires Increasing(numbers) && numbers != []
    ensures var fewer, last := numbers[..|numbers| - 1], numbers[|numbers| - 1];
      forall n | n in fewer :: n in numbers && n < last
  {
    var fewer := numbers[..|numbers| - 1];
    forall n | n in fewer ensures n in numbers && n < numbers[|numbers| - 1] {
      var i :| 0 <= i < |fewer| && fewer[i] == n;
      assert numbers[i] == n;
    }
  }
}
