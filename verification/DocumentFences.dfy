/** Code fences in Markdown documents, and the three places of the documentation checker that follow them. */
module DocumentFences {
  import opened Prelude
  import opened MarkdownLinks

  predicate FenceCharacter(c: char) {
    c == '`' || c == '~'
  }

  predicate Blank(s: string) {
    forall k | 0 <= k < |s| :: IsSpace(s[k])
  }

  // ----- Fence lines

  /** A fence line: at most three spaces, three or more of one fence character, and no fence character right after. */
  predicate FenceSyntax(line: string, indent: nat, width: nat) {
    && indent <= 3 && width >= 3 && indent + width <= |line|
    && (forall k | 0 <= k < indent :: line[k] == ' ')
    && (forall k | indent <= k < indent + width :: line[k] == line[indent])
    && FenceCharacter(line[indent])
    && (indent + width < |line| ==> !FenceCharacter(line[indent + width]))
  }

  datatype Marker = Marker(character: char, width: nat, info: string)

  /** How many characters from `i` on satisfy `p`. */
  function RunLength(s: string, i: nat, p: char -> bool): (n: nat)
    requires i <= |s|
    ensures i + n <= |s|
    ensures forall k | i <= k < i + n :: p(s[k])
    ensures i + n < |s| ==> !p(s[i + n])
    decreases |s| - i
  {
    if i == |s| || !p(s[i]) then 0 else 1 + RunLength(s, i + 1, p)
  }

  function Indent(line: string): nat {
    RunLength(line, 0, c => c == ' ')
  }

  function FenceMatch(line: string): Option<Marker> {
    var indent := Indent(line);
    if indent > 3 || indent == |line| || !FenceCharacter(line[indent]) then None
    else
      var width := RunLength(line, indent, c => c == line[indent]);
      var end := indent + width;
      if width < 3 || (end < |line| && FenceCharacter(line[end])) then None
      else Some(Marker(line[indent], width, line[end..]))
  }

  lemma RunIs(s: string, i: nat, p: char -> bool, n: nat)
    requires i + n <= |s|
    requires forall k | i <= k < i + n :: p(s[k])
    requires i + n < |s| ==> !p(s[i + n])
    ensures RunLength(s, i, p) == n
  {
  }

  /** There is one way to read a line as a fence line at most, and `FenceMatch` finds it. */
  lemma FenceMatchIsSyntax(line: string, indent: nat, width: nat)
    ensures FenceSyntax(line, indent, width) <==>
      && FenceMatch(line).Some? && indent == Indent(line)
      && indent + width <= |line| && FenceMatch(line).value == Marker(line[indent], width, line[indent + width..])
  {
    if FenceSyntax(line, indent, width) {
      RunIs(line, 0, c => c == ' ', indent);
      RunIs(line, indent, c => c == line[indent], width);
    }
  }

  /** The longest run of fence characters after the indent, when it holds both of them. */
  function MixedFenceMarker(line: string): Option<string> {
    var indent := Indent(line);
    if indent > 3 then None
    else
      var marker := line[indent..indent + RunLength(line, indent, FenceCharacter)];
      if |marker| >= 3 && '`' in marker && '~' in marker then Some(marker) else None
  }

  function SamePrefix(marker: string, character: char): nat {
    RunLength(marker, 0, c => c == character)
  }

  lemma FenceLinesAreNotMixed(line: string)
    requires FenceMatch(line).Some?
    ensures MixedFenceMarker(line).None?
  {
    var indent := Indent(line);
    var width := RunLength(line, indent, c => c == line[indent]);
    RunIs(line, indent, FenceCharacter, width);
    var marker := line[indent..indent + width];
    forall c | c in marker ensures c == line[indent] {
      var k :| 0 <= k < |marker| && marker[k] == c;
      assert marker[k] == line[indent + k];
    }
  }

  // ----- Fence states

  datatype Fence = Closed | Open(character: char, width: nat)

  predicate Closes(fence: Fence, marker: Marker) {
    fence.Open? && marker.character == fence.character && marker.width >= fence.width && Blank(marker.info)
  }

  function NextFence(fence: Fence, line: string): Fence {
    match FenceMatch(line)
    case None => fence
    case Some(marker) =>
      if fence.Closed? then Open(marker.character, marker.width)
      else if Closes(fence, marker) then Closed
      else fence
  }

  /** The fence that is open after reading `lines`. */
  function FenceAfter(lines: seq<string>): Fence {
    if lines == [] then Closed else NextFence(FenceAfter(lines[..|lines| - 1]), lines[|lines| - 1])
  }

  /** Line `j` opens a fence that none of the lines after it closes. */
  ghost predicate OpenSince(lines: seq<string>, j: nat, fence: Fence)
    requires fence.Open?
  {
    && j < |lines|
    && FenceAfter(lines[..j]).Closed?
    && FenceMatch(lines[j]).Some?
    && fence == Open(FenceMatch(lines[j]).value.character, FenceMatch(lines[j]).value.width)
    && forall k | j < k < |lines| :: FenceMatch(lines[k]).Some? ==> !Closes(fence, FenceMatch(lines[k]).value)
  }

  lemma {:induction false} OpenerOf(lines: seq<string>) returns (j: nat)
    requires FenceAfter(lines).Open?
    ensures OpenSince(lines, j, FenceAfter(lines))
    decreases lines
  {
    hide FenceMatch, Closes;
    var last := |lines| - 1;
    var before := lines[..last];
    if FenceAfter(before).Closed? {
      j := last;
    } else {
      j := OpenerOf(before);
      assert lines[..j] == before[..j] && lines[j] == before[j];
      assert forall k | j < k < last :: lines[k] == before[k];
    }
  }

  lemma {:induction false} OpenerStays(lines: seq<string>, j: nat, fence: Fence)
    requires fence.Open? && OpenSince(lines, j, fence)
    ensures FenceAfter(lines) == fence
    decreases lines
  {
    hide FenceMatch, Closes;
    var last := |lines| - 1;
    if j < last {
      var before := lines[..last];
      assert before[..j] == lines[..j] && before[j] == lines[j];
      assert forall k | j < k < last :: before[k] == lines[k];
      OpenerStays(before, j, fence);
    }
  }

  /** A fence is open exactly when one line opened it and none since closes it. */
  lemma OpenFenceHasAnOpener(lines: seq<string>, fence: Fence)
    requires fence.Open?
    ensures FenceAfter(lines) == fence <==> exists j :: OpenSince(lines, j, fence)
  {
    if FenceAfter(lines) == fence {
      var j := OpenerOf(lines);
    } else if j :| OpenSince(lines, j, fence) {
      OpenerStays(lines, j, fence);
    }
  }

  /** Numbers, from 1, of the lines outside every fence that are not fence lines themselves. */
  function ProseLines(lines: seq<string>): seq<nat> {
    if lines == [] then []
    else
      var before, line := lines[..|lines| - 1], lines[|lines| - 1];
      ProseLines(before) + if FenceAfter(before).Closed? && FenceMatch(line).None? then [|lines|] else []
  }

  /** Lines the link scanner looks at: prose without a mixed marker. */
  function ScannedLines(lines: seq<string>): seq<nat> {
    if lines == [] then []
    else
      var before, line := lines[..|lines| - 1], lines[|lines| - 1];
      ScannedLines(before)
      + if FenceAfter(before).Closed? && FenceMatch(line).None? && MixedFenceMarker(line).None? then [|lines|] else []
  }

  predicate ReportsMixed(fence: Fence, marker: Option<string>) {
    marker.Some? && (fence.Closed? || SamePrefix(marker.value, fence.character) >= fence.width)
  }

  /** Lines reported because their marker mixes the two characters where a fence could open or close. */
  function MixedLines(lines: seq<string>): seq<nat> {
    if lines == [] then []
    else
      var before, line := lines[..|lines| - 1], lines[|lines| - 1];
      MixedLines(before) + if ReportsMixed(FenceAfter(before), MixedFenceMarker(line)) then [|lines|] else []
  }

  // ----- The three trackers

  /** The variables `in_fence`, `fence_character` (empty or one character) and `fence_width` describe `fence`. */
  predicate Tracks(inFence: bool, character: string, width: nat, fence: Fence) {
    if inFence then fence.Open? && character == [fence.character] && width == fence.width else fence.Closed?
  }

  /** The numbers of the prose lines in which `count` finds something, with what it finds. */
  function Counted(lines: seq<string>, numbers: seq<nat>, count: string -> nat): seq<(nat, nat)> {
    if numbers == [] then []
    else
      var last := numbers[|numbers| - 1];
      Counted(lines, numbers[..|numbers| - 1], count)
      + if 0 < last <= |lines| && count(lines[last - 1]) > 0 then [(last, count(lines[last - 1]))] else []
  }

  lemma CountedOneMore(lines: seq<string>, numbers: seq<nat>, n: nat, count: string -> nat)
    requires 0 < n <= |lines|
    ensures Counted(lines, numbers + [n], count) ==
      if count(lines[n - 1]) > 0 then Counted(lines, numbers, count) + [(n, count(lines[n - 1]))]
      else Counted(lines, numbers, count)
  {
    assert (numbers + [n])[..|numbers|] == numbers;
  }

  lemma NothingCounted(lines: seq<string>, count: string -> nat)
    ensures Counted(lines, [], count) == []
  {
  }

  /** `count` gives the number of CJK characters of a line outside its code spans and allowed labels. */
  method ValidateLanguageEditions(lines: seq<string>, count: string -> nat)
    returns (diagnostics: seq<(nat, nat)>, inFence: bool, character: string, width: nat, ghost prose: seq<nat>)
    ensures Tracks(inFence, character, width, FenceAfter(lines))
    ensures prose == ProseLines(lines)
    ensures diagnostics == Counted(lines, ProseLines(lines), count)
  {
    hide FenceMatch, Counted;
    diagnostics, inFence, character, width, prose := [], false, "", 0, [];
    assert Counted(lines, [], count) == [] by { NothingCounted(lines, count); }
    var i := 0;
    while i < |lines|
      invariant 0 <= i <= |lines|
      invariant Tracks(inFence, character, width, FenceAfter(lines[..i]))
      invariant prose == ProseLines(lines[..i])
      invariant diagnostics == Counted(lines, prose, count)
    {
      var line := lines[i];
      assert lines[..i + 1][..i] == lines[..i] && lines[..i + 1][i] == line;
      var fenceMatch := FenceMatch(line);
      if fenceMatch.Some? {
        var marker := fenceMatch.value;
        if !inFence {
          inFence, character, width := true, [marker.character], marker.width;
        } else if [marker.character] == character && marker.width >= width && Blank(marker.info) {
          inFence := false;
        }
      } else if !inFence {
        var found := count(line);
        if found > 0 {
          diagnostics := diagnostics + [(i + 1, found)];
        }
        CountedOneMore(lines, prose, i + 1, count);
        prose := prose + [i + 1];
      }
      i := i + 1;
    }
    assert lines[..i] == lines;
  }

  lemma NothingRead()
    ensures FenceAfter([]) == Closed && ScannedLines([]) == MixedLines([]) == []
  {
  }

  lemma OneMoreLine(lines: seq<string>, i: nat)
    requires i < |lines|
    ensures FenceAfter(lines[..i + 1]) == NextFence(FenceAfter(lines[..i]), lines[i])
    ensures ScannedLines(lines[..i + 1]) == ScannedLines(lines[..i])
      + if FenceAfter(lines[..i]).Closed? && FenceMatch(lines[i]).None? && MixedFenceMarker(lines[i]).None? then [i + 1] else []
    ensures MixedLines(lines[..i + 1]) == MixedLines(lines[..i])
      + if ReportsMixed(FenceAfter(lines[..i]), MixedFenceMarker(lines[i])) then [i + 1] else []
  {
    assert lines[..i + 1][..i] == lines[..i] && lines[..i + 1][i] == lines[i];
  }

  lemma OpenOneMoreLine(lines: seq<string>, i: nat, j: nat)
    requires i < |lines| && FenceAfter(lines[..i + 1]).Open?
    requires if FenceAfter(lines[..i]).Open? then OpenSince(lines[..i], j, FenceAfter(lines[..i])) else j == i
    ensures OpenSince(lines[..i + 1], j, FenceAfter(lines[..i + 1]))
  {
    hide FenceMatch;
    var now, before := lines[..i + 1], lines[..i];
    OneMoreLine(lines, i);
    assert now[..i] == before && now[i] == lines[i];
    assert j < i ==> now[..j] == before[..j];
    assert forall k | 0 <= k < i :: now[k] == before[k];
  }

  method ScanDocument(lines: seq<string>)
    returns (character: Option<char>, width: nat, openedAt: nat, scanned: seq<nat>, mixed: seq<nat>, unclosed: bool)
    ensures Tracks(character.Some?, if character.Some? then [character.value] else "", width, FenceAfter(lines))
    ensures unclosed <==> FenceAfter(lines).Open?
    ensures unclosed ==> openedAt > 0 && OpenSince(lines, openedAt - 1, FenceAfter(lines))
    ensures if forall line | line in lines :: Blank(line) then scanned == mixed == []
            else scanned == ScannedLines(lines) && mixed == MixedLines(lines)
  {
    hide FenceMatch, MixedFenceMarker, FenceAfter, ScannedLines, MixedLines, OpenSince, SamePrefix, Blank;
    character, width, openedAt, scanned, mixed, unclosed := None, 0, 0, [], [], false;
    if forall line | line in lines :: Blank(line) {
      BlankLinesOpenNothing(lines);
    } else {
      NothingRead();
      assert lines[..0] == [];
      var i := 0;
      while i < |lines|
        invariant 0 <= i <= |lines|
        invariant Tracks(character.Some?, if character.Some? then [character.value] else "", width, FenceAfter(lines[..i]))
        invariant character.Some? ==> 0 < openedAt <= i && OpenSince(lines[..i], openedAt - 1, FenceAfter(lines[..i]))
        invariant scanned == ScannedLines(lines[..i])
        invariant mixed == MixedLines(lines[..i])
      {
        var line := lines[i];
        OneMoreLine(lines, i);
        if FenceMatch(line).Some? { FenceLinesAreNotMixed(line); }
        var fenceMatch, mixedMarker := FenceMatch(line), MixedFenceMarker(line);
        if character.Some? {
          if fenceMatch.Some? && fenceMatch.value.character == character.value && fenceMatch.value.width >= width
             && Blank(fenceMatch.value.info)
          {
            character := None;
          } else if mixedMarker.Some? && SamePrefix(mixedMarker.value, character.value) >= width {
            mixed := mixed + [i + 1];
          }
        } else if mixedMarker.Some? {
          mixed := mixed + [i + 1];
        } else if fenceMatch.Some? {
          character, width, openedAt := Some(fenceMatch.value.character), fenceMatch.value.width, i + 1;
        } else {
          scanned := scanned + [i + 1];
        }
        if character.Some? { OpenOneMoreLine(lines, i, openedAt - 1); }
        i := i + 1;
      }
      assert lines[..i] == lines;
      unclosed := character.Some?;
    }
  }

  lemma {:induction false} BlankLinesOpenNothing(lines: seq<string>)
    requires forall line | line in lines :: Blank(line)
    ensures FenceAfter(lines).Closed?
  {
    if lines != [] {
      BlankLinesOpenNothing(lines[..|lines| - 1]);
      var line := lines[|lines| - 1];
      assert line in lines && Blank(line);
      var indent := Indent(line);
      assert indent < |line| ==> IsSpace(line[indent]);
    }
  }

  /** A prose line that the link scanner passes over is reported for its marker. */
  lemma {:induction false} SkippedProseIsReported(lines: seq<string>, n: nat)
    ensures n in ScannedLines(lines) ==> n in ProseLines(lines)
    ensures n in ProseLines(lines) ==> n in ScannedLines(lines) || n in MixedLines(lines)
    decreases lines
  {
    hide FenceMatch, MixedFenceMarker, SamePrefix;
    if lines != [] { SkippedProseIsReported(lines[..|lines| - 1], n); }
  }
}
