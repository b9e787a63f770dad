/** Link destinations in the documentation checker: which characters are escaped, and what a target spells. */
module MarkdownLinks {
  import opened Text

  /** What Python's `isspace` accepts: the white space of Unicode and the four information separators. */
  predicate IsSpace(c: char) {
    IsWhitespace(c) || 0x1C <= c as int <= 0x1F
  }

  /** The twenty-nine characters. */
  lemma SpaceCharacters(c: char)
    ensures IsSpace(c) <==> c as int in {
      0x9, 0xA, 0xB, 0xC, 0xD, 0x1C, 0x1D, 0x1E, 0x1F, 0x20, 0x85, 0xA0, 0x1680, 0x2000, 0x2001, 0x2002, 0x2003, 0x2004,
      0x2005, 0x2006, 0x2007, 0x2008, 0x2009, 0x200A, 0x2028, 0x2029, 0x202F, 0x205F, 0x3000}
  {
  }

  // ----- Escapes

  /** Reading from `from` on, a backslash together with the character after it, the reader stops at index `i`. */
  predicate Visited(value: string, from: nat, i: nat)
    requires i <= |value|
    decreases i - from
  {
    if from >= i then from == i
    else Visited(value, if value[from] == '\\' then from + 2 else from + 1, i)
  }

  /** A character is passed over exactly when it follows a backslash that is not. */
  lemma {:induction false} VisitedStep(value: string, from: nat, i: nat)
    requires from < i <= |value|
    ensures Visited(value, from, i) <==> !(value[i - 1] == '\\' && Visited(value, from, i - 1))
    decreases i - from
  {
    var next := if value[from] == '\\' then from + 2 else from + 1;
    if next < i { VisitedStep(value, next, i); }
  }

  /** Counting the backslashes before `index` backwards answers what reading from the left would: is it passed over? */
  method IsEscaped(value: string, index: nat) returns (escaped: bool)
    requires index < |value|
    ensures escaped <==> !Visited(value, 0, index)
  {
    var backslashes := 0;
    var i := index - 1;
    while i >= 0 && value[i] == '\\'
      invariant -1 <= i < index && backslashes == index - 1 - i
      invariant Visited(value, 0, index) == (Visited(value, 0, i + 1) == (backslashes % 2 == 0))
    {
      VisitedStep(value, 0, i + 1);
      backslashes := backslashes + 1;
      i := i - 1;
    }
    if i >= 0 { VisitedStep(value, 0, i + 1); }
    escaped := backslashes % 2 == 1;
  }

  /** The first unescaped `c` at or after `start`, if any. */
  ghost predicate FirstUnescaped(value: string, c: char, start: nat, index: int) {
    && (index == -1 || (start <= index < |value| && value[index] == c && Visited(value, 0, index)))
    && forall j | start <= j < (if index == -1 then |value| else index) && j < |value| && value[j] == c ::
         !Visited(value, 0, j)
  }

  lemma OneCharacterOccurs(value: string, c: char)
    ensures forall j: nat {:trigger OccursAt(value, [c], j)} {:trigger value[j]} :: OccursAt(value, [c], j) <==> j < |value| && value[j] == c
  {
    forall j: nat | j < |value| ensures OccursAt(value, [c], j) <==> value[j] == c {
      assert value[j..j + 1] == [value[j]];
    }
  }

  /** `find` for one character. */
  function FindCharacter(value: string, c: char, start: nat): (index: int)
    ensures index == -1 || (start <= index < |value| && value[index] == c)
    ensures forall j | start <= j < |value| && value[j] == c :: 0 <= index <= j
  {
    OneCharacterOccurs(value, c);
    Find(value, [c], start)
  }

  /** No unescaped `c` from `start` to `end`. */
  ghost predicate NoneUnescaped(value: string, c: char, start: nat, end: int) {
    forall j | start <= j < end && j < |value| && value[j] == c :: !Visited(value, 0, j)
  }

  lemma NoneUpToFirst(value: string, c: char, start: nat, from: nat)
    requires start <= from && NoneUnescaped(value, c, start, from)
    ensures var index := FindCharacter(value, c, from);
      NoneUnescaped(value, c, start, if index == -1 then |value| else index)
  {
    hide Visited, FindCharacter;
  }

  lemma NoneAfterEscaped(value: string, c: char, start: nat, index: nat)
    requires index < |value| && NoneUnescaped(value, c, start, index) && !Visited(value, 0, index)
    ensures NoneUnescaped(value, c, start, index + 1)
  {
    hide Visited;
  }

  method FindUnescaped(value: string, c: char, start: nat) returns (index: int)
    ensures FirstUnescaped(value, c, start, index)
    ensures index == -1 || start <= index < |value|
  {
    hide Visited, FindCharacter, NoneUnescaped;
    NothingYet(value, c, start);
    NoneUpToFirst(value, c, start, start);
    index := FindCharacter(value, c, start);
    var escaped := false;
    if index >= 0 { escaped := IsEscaped(value, index); }
    while index >= 0 && escaped
      invariant index == -1 || (start <= index < |value| && value[index] == c && escaped == !Visited(value, 0, index))
      invariant NoneUnescaped(value, c, start, if index == -1 then |value| else index)
      decreases if index == -1 then 0 else |value| - index
    {
      NoneAfterEscaped(value, c, start, index);
      NoneUpToFirst(value, c, start, index + 1);
      index := FindCharacter(value, c, index + 1);
      if index >= 0 { escaped := IsEscaped(value, index); }
    }
    FirstIsUnescaped(value, c, start, index);
  }

  lemma NothingYet(value: string, c: char, start: nat)
    ensures NoneUnescaped(value, c, start, start)
  {
  }

  lemma FirstIsUnescaped(value: string, c: char, start: nat, index: int)
    requires index == -1 || (start <= index < |value| && value[index] == c && Visited(value, 0, index))
    requires NoneUnescaped(value, c, start, if index == -1 then |value| else index)
    ensures FirstUnescaped(value, c, start, index)
  {
    hide Visited;
  }

  function Unescape(value: string): string {
    if value == "" then ""
    else if value[0] == '\\' && |value| > 1 then [value[1]] + Unescape(value[2..])
    else [value[0]] + Unescape(value[1..])
  }

  lemma UnescapeFrom(value: string, i: nat)
    requires i <= |value|
    ensures i == |value| ==> Unescape(value[i..]) == ""
    ensures i < |value| && !(value[i] == '\\' && i + 1 < |value|) ==>
      Unescape(value[i..]) == [value[i]] + Unescape(value[i + 1..])
    ensures i + 1 < |value| && value[i] == '\\' ==> Unescape(value[i..]) == [value[i + 1]] + Unescape(value[i + 2..])
  {
    var rest := value[i..];
    if i < |value| { assert rest[0] == value[i] && rest[1..] == value[i + 1..]; }
    if i + 1 < |value| { assert rest[1] == value[i + 1] && rest[2..] == value[i + 2..]; }
  }

  method UnescapeMarkdown(value: string) returns (output: string)
    ensures output == Unescape(value)
  {
    hide Unescape;
    output := "";
    assert value[0..] == value;
    var index := 0;
    while index < |value|
      invariant 0 <= index <= |value| && output + Unescape(value[index..]) == Unescape(value)
    {
      UnescapeFrom(value, index);
      if value[index] == '\\' && index + 1 < |value| {
        output := output + [value[index + 1]];
        index := index + 2;
      } else {
        output := output + [value[index]];
        index := index + 1;
      }
    }
    UnescapeFrom(value, index);
  }

  // ----- Destinations

  function StripStart(s: string): (r: string)
    ensures r == "" || !IsSpace(r[0])
  {
    if s != "" && IsSpace(s[0]) then StripStart(s[1..]) else s
  }

  function StripEnd(s: string): (r: string)
    ensures r <= s && (r == "" || !IsSpace(r[|r| - 1]))
  {
    if s != "" && IsSpace(s[|s| - 1]) then StripEnd(s[..|s| - 1]) else s
  }

  function Strip(s: string): string {
    StripEnd(StripStart(s))
  }

  /** A bare destination runs to the first unescaped white space. */
  function Bare(target: string): string {
    if target == "" then ""
    else if target[0] == '\\' && |target| > 1 then [target[1]] + Bare(target[2..])
    else if IsSpace(target[0]) then ""
    else [target[0]] + Bare(target[1..])
  }

  ghost predicate IsDestination(raw: string, destination: string) {
    var target := Strip(raw);
    if target != "" && target[0] == '<' then
      exists closing {:trigger FirstUnescaped(target, '>', 1, closing)} ::
        && FirstUnescaped(target, '>', 1, closing)
        && destination == Unescape(if closing >= 0 then target[1..closing] else target[1..])
    else
      destination == Bare(target)
  }

  method LinkDestination(raw: string) returns (destination: string)
    ensures IsDestination(raw, destination)
  {
    hide Strip, FirstUnescaped, Unescape, IsSpace, Bare;
    var target := Strip(raw);
    if target != "" && target[0] == '<' {
      var closing := FindUnescaped(target, '>', 1);
      destination := UnescapeMarkdown(if closing >= 0 then target[1..closing] else target[1..]);
    } else {
      destination := "";
      assert target[0..] == target;
      var index := 0;
      var done := false;
      while index < |target| && !done
        invariant 0 <= index <= |target|
        invariant !done ==> Bare(target) == destination + Bare(target[index..])
        invariant done ==> Bare(target) == destination
        decreases |target| - index, !done
      {
        BareFrom(target, index);
        if target[index] == '\\' && index + 1 < |target| {
          destination := destination + [target[index + 1]];
          index := index + 2;
        } else if IsSpace(target[index]) {
          done := true;
        } else {
          destination := destination + [target[index]];
          index := index + 1;
        }
      }
      if !done { BareFrom(target, index); }
    }
  }

  lemma BareFrom(target: string, i: nat)
    requires i <= |target|
    ensures i == |target| ==> Bare(target[i..]) == ""
    ensures i + 1 < |target| && target[i] == '\\' ==> Bare(target[i..]) == [target[i + 1]] + Bare(target[i + 2..])
    ensures i < |target| && !(i + 1 < |target| && target[i] == '\\') ==>
      Bare(target[i..]) == if IsSpace(target[i]) then "" else [target[i]] + Bare(target[i + 1..])
  {
    var rest := target[i..];
    if i < |target| { assert rest[0] == target[i] && rest[1..] == target[i + 1..]; }
    if i + 1 < |target| { assert rest[1] == target[i + 1] && rest[2..] == target[i + 2..]; }
  }

  // ----- Round trips

  /** A backslash before every character of `d` that `must` selects. */
  function Escape(d: string, must: char -> bool): string {
    if d == "" then ""
    else (if must(d[0]) then ['\\', d[0]] else [d[0]]) + Escape(d[1..], must)
  }

  lemma EscapeStarts(d: string, must: char -> bool)
    ensures d == "" ==> Escape(d, must) == ""
    ensures d != "" ==> Escape(d, must) == (if must(d[0]) then ['\\', d[0]] else [d[0]]) + Escape(d[1..], must)
  {
  }

  lemma {:induction false} UnescapeUndoesEscape(d: string, must: char -> bool)
    requires must('\\')
    ensures Unescape(Escape(d, must)) == d
  {
    if d != "" {
      var e := Escape(d, must);
      UnescapeUndoesEscape(d[1..], must);
      if must(d[0]) {
        assert e[2..] == Escape(d[1..], must);
      } else {
        assert e[1..] == Escape(d[1..], must);
      }
    }
  }

  /** Reading an escaped text stops right after it and at no closing bracket inside. */
  lemma {:induction false} ReadingEscaped(target: string, from: nat, d: string, must: char -> bool)
    requires must('\\') && must('>')
    requires from + |Escape(d, must)| <= |target|
    requires target[from..from + |Escape(d, must)|] == Escape(d, must)
    ensures Visited(target, from, from + |Escape(d, must)|)
    ensures forall j | from <= j < from + |Escape(d, must)| && target[j] == '>' :: !Visited(target, from, j)
    decreases d
  {
    if d != "" {
      var e := Escape(d, must);
      var step := if must(d[0]) then 2 else 1;
      assert e[step..] == Escape(d[1..], must);
      assert target[from + step..from + |e|] == target[from..from + |e|][step..];
      assert target[from] == e[0];
      ReadingEscaped(target, from + step, d[1..], must);
      forall j | from <= j < from + |e| && target[j] == '>' ensures !Visited(target, from, j) {
        if must(d[0]) && j == from + 1 {
          assert !Visited(target, from + 2, j);
        } else if j >= from + step {
          assert !Visited(target, from + step, j);
        }
      }
    }
  }

  /** The first unescaped closing bracket is unique. */
  lemma FirstUnescapedIsUnique(value: string, c: char, start: nat, a: int, b: int)
    requires FirstUnescaped(value, c, start, a) && FirstUnescaped(value, c, start, b)
    ensures a == b
  {
  }

  lemma {:induction false} StripEndKeeps(s: string, n: nat)
    requires 0 < n <= |s| && !IsSpace(s[n - 1])
    ensures s[..n] <= StripEnd(s)
  {
    if |s| > n && IsSpace(s[|s| - 1]) {
      var shorter := s[..|s| - 1];
      assert shorter[n - 1] == s[n - 1] && shorter[..n] == s[..n];
      StripEndKeeps(shorter, n);
    }
  }

  lemma BracketIsFound(target: string, d: string, must: char -> bool, end: nat)
    requires must('\\') && must('>')
    requires 0 < end < |target| && target[0] == '<' && target[end] == '>' && target[1..end] == Escape(d, must)
    ensures FirstUnescaped(target, '>', 1, end)
  {
    ReadingEscaped(target, 1, d, must);
    assert forall j | 1 <= j <= end :: Visited(target, 0, j) == Visited(target, 1, j);
  }

  /** `<...>` with `\` and `>` escaped spells its content, whatever else is escaped and whatever follows. */
  lemma BracketedDestinationReadsBack(d: string, must: char -> bool, rest: string, read: string)
    requires must('\\') && must('>')
    requires IsDestination("<" + Escape(d, must) + ">" + rest, read)
    ensures read == d
  {
    hide Visited, Escape, Unescape, Bare, FirstUnescaped;
    var e := Escape(d, must);
    var raw := "<" + e + ">" + rest;
    var target := Strip(raw);
    var end := 1 + |e|;
    assert raw[0] == '<' && raw[end] == '>';
    assert StripStart(raw) == raw;
    StripEndKeeps(raw, end + 1);
    assert target[..end + 1] == raw[..end + 1];
    assert target[0] == '<' && target[end] == '>' && target[1..end] == raw[..end + 1][1..end] == e;
    BracketIsFound(target, d, must, end);
    forall closing | FirstUnescaped(target, '>', 1, closing) ensures closing == end {
      FirstUnescapedIsUnique(target, '>', 1, closing, end);
    }
    UnescapeUndoesEscape(d, must);
  }

  lemma BareReadsOne(c: char, escaped: bool, more: string)
    requires escaped || (!IsSpace(c) && c != '\\')
    ensures Bare((if escaped then ['\\', c] else [c]) + more) == [c] + Bare(more)
  {
    var target := (if escaped then ['\\', c] else [c]) + more;
    if escaped {
      assert target[2..] == more;
    } else {
      assert target[1..] == more;
    }
  }

  lemma {:induction false} BareUndoesEscape(d: string, must: char -> bool, rest: string)
    requires must('\\') && forall c | IsSpace(c) :: must(c)
    ensures Bare(Escape(d, must) + rest) == d + Bare(rest)
  {
    EscapeStarts(d, must);
    hide Bare, IsSpace, Escape;
    if d == "" {
      assert "" + rest == rest;
    } else {
      var first := if must(d[0]) then ['\\', d[0]] else [d[0]];
      var more := Escape(d[1..], must) + rest;
      assert (first + Escape(d[1..], must)) + rest == first + more;
      BareReadsOne(d[0], must(d[0]), more);
      BareUndoesEscape(d[1..], must, rest);
      assert [d[0]] + (d[1..] + Bare(rest)) == d + Bare(rest);
    }
  }

  /** The last character of an escaped text is the last of the text, after a backslash if it must be. */
  lemma {:induction false} EscapeEnds(d: string, must: char -> bool)
    requires d != ""
    ensures Escape(d, must) == Escape(d[..|d| - 1], must) + (if must(d[|d| - 1]) then ['\\', d[|d| - 1]] else [d[|d| - 1]])
    decreases d
  {
    var fewer, last := d[..|d| - 1], d[|d| - 1];
    EscapeStarts(d, must);
    EscapeStarts(fewer, must);
    hide Escape;
    var end := if must(last) then ['\\', last] else [last];
    if |d| == 1 {
      EscapeStarts(d[1..], must);
      assert end + "" == "" + end;
    } else {
      var rest := d[1..];
      EscapeEnds(rest, must);
      assert rest[..|rest| - 1] == fewer[1..] && rest[|rest| - 1] == last && fewer[0] == d[0];
      var first := if must(d[0]) then ['\\', d[0]] else [d[0]];
      assert first + (Escape(fewer[1..], must) + end) == (first + Escape(fewer[1..], must)) + end;
    }
  }

  lemma {:induction false} StripEndIs(s: string, n: nat)
    requires n <= |s| && (n == 0 || !IsSpace(s[n - 1]))
    requires forall k | n <= k < |s| :: IsSpace(s[k])
    ensures StripEnd(s) == s[..n]
    decreases s
  {
    if |s| > n {
      var shorter := s[..|s| - 1];
      StripEndIs(shorter, n);
      assert shorter[..n] == s[..n];
    } else {
      assert s[..n] == s;
    }
  }

  predicate AllSpace(s: string) {
    forall k | 0 <= k < |s| :: IsSpace(s[k])
  }

  /** Nothing is stripped from the front of an escaped text, and it does not look bracketed. */
  lemma EscapedStart(d: string, must: char -> bool, rest: string)
    requires d != "" && must('\\') && (forall c | IsSpace(c) :: must(c)) && (d[0] == '<' ==> must('<'))
    ensures Strip(Escape(d, must) + rest) == StripEnd(Escape(d, must) + rest)
    ensures Escape(d, must) != "" && (Escape(d, must) + rest)[0] != '<'
  {
    var raw := Escape(d, must) + rest;
    assert raw[0] == Escape(d, must)[0];
    assert !IsSpace('\\');
    assert StripStart(raw) == raw;
  }

  /** Stripping the end leaves the escaped text whole when the text or what follows ends in something visible. */
  lemma BareSurvives(d: string, must: char -> bool, rest: string)
    requires d != "" && must('\\') && (forall c | IsSpace(c) :: must(c)) && (d[0] == '<' ==> must('<'))
    requires rest == "" || IsSpace(rest[0])
    requires !IsSpace(d[|d| - 1]) || !AllSpace(rest)
    ensures Bare(StripEnd(Escape(d, must) + rest)) == d
  {
    hide Bare, Escape, IsSpace;
    EscapeEnds(d, must);
    var left := StripAfter(Escape(d, must), rest);
    BareUndoesEscape(d, must, left);
    BareStops(left);
    assert d + "" == d;
  }

  lemma StripAfter(e: string, rest: string) returns (left: string)
    requires e != "" && (!IsSpace(e[|e| - 1]) || !AllSpace(rest))
    requires rest == "" || IsSpace(rest[0])
    ensures StripEnd(e + rest) == e + left && (left == "" || IsSpace(left[0]))
  {
    var raw := e + rest;
    var n := |e|;
    if !AllSpace(rest) {
      var k :| 0 <= k < |rest| && !IsSpace(rest[k]);
      n := |e| + k + 1;
    }
    hide IsSpace;
    StripEndKeeps(raw, n);
    var target := StripEnd(raw);
    left := target[|e|..];
    assert target[..n] == raw[..n] && target[..|e|] == target[..n][..|e|] == raw[..n][..|e|] == e;
    assert target == e + left;
    assert left != "" ==> left[0] == raw[|e|] == rest[0];
  }

  lemma BareStops(rest: string)
    requires rest == "" || IsSpace(rest[0])
    ensures Bare(rest) == ""
  {
  }

  lemma StripToBackslash(before: string, c: char, rest: string)
    requires IsSpace(c) && AllSpace(rest)
    ensures StripEnd(before + ['\\', c] + rest) == before + "\\"
  {
    var raw := before + ['\\', c] + rest;
    var n := |before| + 1;
    assert raw[n - 1] == '\\' && raw[n] == c && !IsSpace('\\');
    forall k | n < k < |raw| ensures IsSpace(raw[k]) { assert raw[k] == rest[k - n - 1]; }
    StripEndIs(raw, n);
  }

  /** Otherwise the last character is stripped and its backslash is left behind. */
  lemma BareIsCut(d: string, must: char -> bool, rest: string)
    requires d != "" && must('\\') && (forall c | IsSpace(c) :: must(c))
    requires IsSpace(d[|d| - 1]) && AllSpace(rest)
    ensures Bare(StripEnd(Escape(d, must) + rest)) == d[..|d| - 1] + "\\"
  {
    assert Bare("\\") == "\\";
    hide Bare, Escape, StripEnd, IsSpace;
    EscapeEnds(d, must);
    StripToBackslash(Escape(d[..|d| - 1], must), d[|d| - 1], rest);
    BareUndoesEscape(d[..|d| - 1], must, "\\");
  }

  /**
   * A bare destination with `\`, white space and a leading `<` escaped spells its content, followed by nothing or by
   * white space and anything, exactly when the content or what follows it ends in something visible: otherwise
   * stripping the target takes the last escaped character away.
   */
  lemma BareDestinationReadsBack(d: string, must: char -> bool, rest: string, read: string)
    requires d != "" && must('\\') && (forall c | IsSpace(c) :: must(c)) && (d[0] == '<' ==> must('<'))
    requires rest == "" || IsSpace(rest[0])
    requires IsDestination(Escape(d, must) + rest, read)
    ensures read == d <==> !IsSpace(d[|d| - 1]) || !AllSpace(rest)
  {
    hide Bare, Escape, StripEnd, FirstUnescaped;
    var raw := Escape(d, must) + rest;
    EscapedStart(d, must, rest);
    assert raw[0] != '<';
    var target := Strip(raw);
    if !IsSpace(d[|d| - 1]) || !AllSpace(rest) {
      BareSurvives(d, must, rest);
      PrefixKeepsStart(target, raw);
    } else {
      BareIsCut(d, must, rest);
      PrefixKeepsStart(target, raw);
      assert (d[..|d| - 1] + "\\")[|d| - 1] == '\\' != d[|d| - 1];
    }
  }

  lemma PrefixKeepsStart(target: string, raw: string)
    requires target <= raw
    ensures target != "" ==> target[0] == raw[0]
  {
  }

  // ----- The readers, character by character

  /** A backslash spells the character after it and, at the end, itself; every other character spells itself. */
  lemma UnescapeReads(c: char, d: char, rest: string)
    ensures Unescape("") == "" && Unescape([c]) == [c]
    ensures Unescape(['\\', d] + rest) == [d] + Unescape(rest)
    ensures c != '\\' ==> Unescape([c] + rest) == [c] + Unescape(rest)
  {
    assert Unescape([c]) == [c] by { assert [c][1..] == ""; }
    assert (['\\', d] + rest)[2..] == rest;
    assert ([c] + rest)[1..] == rest;
  }

  /** The same up to the first white space that no backslash precedes. */
  lemma BareReads(c: char, d: char, rest: string)
    ensures Bare("") == "" && Bare("\\") == "\\"
    ensures Bare(['\\', d] + rest) == [d] + Bare(rest)
    ensures c != '\\' ==> Bare([c] + rest) == if IsSpace(c) then "" else [c] + Bare(rest)
  {
    assert (['\\', d] + rest)[2..] == rest;
    assert ([c] + rest)[1..] == rest;
  }

  lemma {:induction false} StripStartDrops(before: string, s: string)
    requires AllSpace(before)
    ensures StripStart(before + s) == StripStart(s)
  {
    if before != "" {
      assert (before + s)[1..] == before[1..] + s;
      StripStartDrops(before[1..], s);
    } else {
      assert before + s == s;
    }
  }

  lemma {:induction false} StripEndDrops(s: string, after: string)
    requires AllSpace(after)
    ensures StripEnd(s + after) == StripEnd(s)
    decreases after
  {
    if after != "" {
      var shorter := after[..|after| - 1];
      assert (s + after)[..|s + after| - 1] == s + shorter;
      StripEndDrops(s, shorter);
    } else {
      assert s + after == s;
    }
  }

  lemma {:induction false} StripStartKeepsEnd(s: string, after: string)
    requires !AllSpace(s)
    ensures StripStart(s + after) == StripStart(s) + after
  {
    if IsSpace(s[0]) {
      assert (s + after)[1..] == s[1..] + after;
      StripStartKeepsEnd(s[1..], after);
    }
  }

  lemma {:induction false} StripOfSpace(s: string)
    requires AllSpace(s)
    ensures Strip(s) == ""
  {
    if s != "" { StripOfSpace(s[1..]); }
  }

  /** White space around a link target does not matter. */
  lemma SurroundingSpaceIsIgnored(before: string, raw: string, after: string, read: string)
    requires AllSpace(before) && AllSpace(after)
    ensures IsDestination(before + raw + after, read) <==> IsDestination(raw, read)
  {
    assert Strip(before + raw + after) == Strip(raw) by {
      if AllSpace(raw) {
        StripOfSpace(raw);
        StripOfSpace(before + raw + after);
      } else {
        assert before + raw + after == before + (raw + after);
        StripStartDrops(before, raw + after);
        StripStartKeepsEnd(raw, after);
        StripEndDrops(StripStart(raw), after);
      }
    }
    hide Strip, Bare, FirstUnescaped, Unescape;
  }

  lemma NothingClosesEscaped(d: string, must: char -> bool)
    requires must('\\') && must('>')
    ensures FirstUnescaped("<" + Escape(d, must), '>', 1, -1)
  {
    var target := "<" + Escape(d, must);
    ReadingEscaped(target, 1, d, must);
    assert forall j | 1 <= j < |target| :: Visited(target, 0, j) == Visited(target, 1, j);
  }

  /** A bracket that nothing closes spells the rest of the target. */
  lemma UnclosedDestinationReadsBack(d: string, must: char -> bool, read: string)
    requires must('\\') && must('>')
    requires d == "" || !IsSpace(d[|d| - 1])
    requires IsDestination("<" + Escape(d, must), read)
    ensures read == d
  {
    hide Visited, Escape, Unescape, Bare, FirstUnescaped;
    var e := Escape(d, must);
    var raw := "<" + e;
    assert StripStart(raw) == raw;
    if d != "" { EscapeEnds(d, must); } else { assert e == "" by { EscapeOfNothing(must); } }
    StripEndIs(raw, |raw|);
    assert Strip(raw) == raw && raw[1..] == e;
    NothingClosesEscaped(d, must);
    forall closing | FirstUnescaped(raw, '>', 1, closing) ensures closing == -1 {
      FirstUnescapedIsUnique(raw, '>', 1, closing, -1);
    }
    UnescapeUndoesEscape(d, must);
  }

  lemma EscapeOfNothing(must: char -> bool)
    ensures Escape("", must) == ""
  {
  }
}
