/** Search terms of identifiers: how a chunk such as `HTTPServer2` is cut, and the terms of a whole text. */
module IdentifierTerms {
  import opened Prelude
  import opened Text

  /**
   What Unicode says beyond ASCII: which other characters are alphanumeric, and what lower-casing makes of one of them
   and of a whole token, where neighbours can matter.
   */
  datatype Alphabet = Alphabet(other: char -> bool, lower: char -> string, lowerToken: string -> string)

  /** No character is lower-cased to nothing, and none but the ten digits to one of them. */
  type Unicode = u: Alphabet | forall c | !IsAscii(c) :: u.lower(c) != "" && forall d | d in u.lower(c) :: !IsDigit(d)
    witness Alphabet(c => false, c => [c], token => token)

  predicate IsAlphanumeric(u: Unicode, c: char) {
    IsLetter(c) || IsDigit(c) || (!IsAscii(c) && u.other(c))
  }

  function LowerOne(u: Unicode, c: char): (r: string)
    ensures r != ""
  {
    if IsAscii(c) then [LowerChar(c)] else u.lower(c)
  }

  /** Lower-casing character by character, as the parts of a chunk are. */
  function Lowered(u: Unicode, s: string): string {
    if s == "" then "" else LowerOne(u, s[0]) + Lowered(u, s[1..])
  }

  function LoweredToken(u: Unicode, token: string): string {
    if forall c | c in token :: IsAscii(c) then Lower(token) else u.lowerToken(token)
  }

  datatype CharacterClass = UpperCase | LowerCase | Digit | Boundary

  function Class(u: Unicode, c: char): CharacterClass {
    if 'A' <= c <= 'Z' then UpperCase
    else if 'a' <= c <= 'z' then LowerCase
    else if IsDigit(c) then Digit
    else if IsAlphanumeric(u, c) then LowerCase
    else Boundary
  }

  predicate ShouldSplit(previous: CharacterClass, current: CharacterClass, next: CharacterClass) {
    || (previous == LowerCase && current == UpperCase)
    || (previous == Digit && current == UpperCase)
    || (previous == Digit && current == LowerCase)
    || (previous == LowerCase && current == Digit)
    || (previous == UpperCase && current == Digit)
    || (previous == UpperCase && current == UpperCase && next == LowerCase)
  }

  /** The class at an index; Boundary outside the chunk. */
  function ClassAt(u: Unicode, chunk: string, i: int): CharacterClass {
    if 0 <= i < |chunk| then Class(u, chunk[i]) else Boundary
  }

  predicate CutAt(u: Unicode, chunk: string, i: int) {
    ShouldSplit(ClassAt(u, chunk, i - 1), ClassAt(u, chunk, i), ClassAt(u, chunk, i + 1))
  }

  // ----- What the parts of a chunk are

  /** The first index from `i` on at which a running part has to stop. */
  function PartEnd(u: Unicode, chunk: string, i: nat): (end: nat)
    requires i <= |chunk|
    ensures i <= end <= |chunk|
    ensures ClassAt(u, chunk, end) == Boundary || CutAt(u, chunk, end)
    ensures forall j | i <= j < end :: ClassAt(u, chunk, j) != Boundary && !CutAt(u, chunk, j)
    decreases |chunk| - i
  {
    if ClassAt(u, chunk, i) == Boundary || CutAt(u, chunk, i) then i else PartEnd(u, chunk, i + 1)
  }

  /** The parts of `chunk[i..]` when a part may start at `i`. */
  function PartsFrom(u: Unicode, chunk: string, i: nat): seq<string>
    requires i <= |chunk|
    decreases |chunk| - i
  {
    if i == |chunk| then []
    else if ClassAt(u, chunk, i) == Boundary then PartsFrom(u, chunk, i + 1)
    else
      var end := PartEnd(u, chunk, i + 1);
      [Lowered(u, chunk[i..end])] + PartsFrom(u, chunk, end)
  }

  function Parts(u: Unicode, chunk: string): seq<string> {
    PartsFrom(u, chunk, 0)
  }

  // ----- The loop

  function Pushed(parts: seq<string>, current: string): seq<string> {
    if current == "" then parts else parts + [current]
  }

  /** What is still to come when `current` holds the part under construction. */
  ghost function Rest(u: Unicode, chunk: string, i: nat, current: string): seq<string>
    requires i <= |chunk|
  {
    if current == "" then PartsFrom(u, chunk, i)
    else [current + Lowered(u, chunk[i..PartEnd(u, chunk, i)])] + PartsFrom(u, chunk, PartEnd(u, chunk, i))
  }

  lemma NothingLowered(u: Unicode, chunk: string, i: nat, current: string)
    requires i <= |chunk|
    ensures current + Lowered(u, chunk[i..i]) == current
  {
  }

  /** Stopping the running part keeps the parts announced so far. */
  lemma RestAfterPush(u: Unicode, done: seq<string>, chunk: string, i: nat, current: string)
    requires i <= |chunk|
    requires ClassAt(u, chunk, i) == Boundary || CutAt(u, chunk, i)
    ensures Pushed(done, current) + Rest(u, chunk, i, "") == done + Rest(u, chunk, i, current)
  {
    hide CutAt, PartsFrom;
    if current != "" {
      assert PartEnd(u, chunk, i) == i;
      NothingLowered(u, chunk, i, current);
      assert (done + [current]) + PartsFrom(u, chunk, i) == done + ([current] + PartsFrom(u, chunk, i));
    }
  }

  lemma RestAfterBoundary(u: Unicode, chunk: string, i: nat)
    requires i < |chunk| && ClassAt(u, chunk, i) == Boundary
    ensures Rest(u, chunk, i + 1, "") == Rest(u, chunk, i, "")
  {
  }

  /** A character that does not stop the running part, or starts one, keeps the parts announced so far. */
  lemma RestAfterCharacter(u: Unicode, chunk: string, i: nat, current: string)
    requires i < |chunk| && ClassAt(u, chunk, i) != Boundary
    requires current == "" || !CutAt(u, chunk, i)
    ensures Rest(u, chunk, i + 1, current + LowerOne(u, chunk[i])) == Rest(u, chunk, i, current)
  {
    hide CutAt;
    var one := LowerOne(u, chunk[i]);
    var end := PartEnd(u, chunk, i + 1);
    var here, after := Lowered(u, chunk[i..end]), Lowered(u, chunk[i + 1..end]);
    assert one + after == here by { assert chunk[i..end][0] == chunk[i] && chunk[i..end][1..] == chunk[i + 1..end]; }
    if current == "" {
      assert (current + one) + after == here;
    } else {
      assert PartEnd(u, chunk, i) == end;
      assert (current + one) + after == current + here;
    }
  }

  lemma NoCutAfterBoundary(u: Unicode, chunk: string, i: nat)
    requires i < |chunk|
    ensures CutAt(u, chunk, i) == ShouldSplit(ClassAt(u, chunk, i - 1), ClassAt(u, chunk, i), ClassAt(u, chunk, i + 1))
    ensures ClassAt(u, chunk, i - 1) == Boundary ==> !CutAt(u, chunk, i)
  {
  }

  /** Appends the parts of `chunk` to `parts`. */
  method SplitIdentifierChunk(u: Unicode, chunk: string, parts: seq<string>) returns (extended: seq<string>)
    ensures extended == parts + Parts(u, chunk)
  {
    var current := "";
    var previous := Boundary;
    extended := parts;
    var index := 0;
    while index < |chunk|
      invariant 0 <= index <= |chunk|
      invariant previous == ClassAt(u, chunk, index - 1)
      invariant current != "" <==> previous != Boundary
      invariant extended + Rest(u, chunk, index, current) == parts + Parts(u, chunk)
    {
      hide PartsFrom, Rest, CutAt, ShouldSplit;
      NoCutAfterBoundary(u, chunk, index);
      var kind := Class(u, chunk[index]);
      var next := if index + 1 < |chunk| then Class(u, chunk[index + 1]) else Boundary;
      if kind == Boundary {
        RestAfterPush(u, extended, chunk, index, current);
        RestAfterBoundary(u, chunk, index);
        extended, current := Pushed(extended, current), "";
      } else {
        if ShouldSplit(previous, kind, next) {
          RestAfterPush(u, extended, chunk, index, current);
          extended, current := Pushed(extended, current), "";
        }
        RestAfterCharacter(u, chunk, index, current);
        current := current + LowerOne(u, chunk[index]);
      }
      previous := kind;
      index := index + 1;
    }
    RestAfterPush(u, extended, chunk, index, current);
    extended := Pushed(extended, current);
  }

  // ----- Splitting is a lossless maximal partition

  /** No separators: what every chunk of a token looks like. */
  predicate Solid(u: Unicode, chunk: string) {
    forall i | 0 <= i < |chunk| :: ClassAt(u, chunk, i) != Boundary
  }

  function Concat(parts: seq<string>): string {
    if parts == [] then "" else parts[0] + Concat(parts[1..])
  }

  /** One of the parts starts after exactly `offset` characters. */
  predicate StartsAt(parts: seq<string>, offset: int) {
    parts != [] && (offset == 0 || StartsAt(parts[1..], offset - |parts[0]|))
  }

  predicate OneKind(u: Unicode, part: string) {
    || (forall k | 0 <= k < |part| :: ClassAt(u, part, k) == LowerCase)
    || (forall k | 0 <= k < |part| :: ClassAt(u, part, k) == Digit)
  }

  lemma {:induction false} LoweredConcat(u: Unicode, a: string, b: string)
    ensures Lowered(u, a + b) == Lowered(u, a) + Lowered(u, b)
  {
    if a == "" {
      assert a + b == b;
    } else {
      assert (a + b)[1..] == a[1..] + b;
      LoweredConcat(u, a[1..], b);
    }
  }

  lemma LowerJoins(u: Unicode, s: string, i: nat, m: nat, end: nat)
    requires i <= m <= end <= |s|
    ensures Lowered(u, s[i..m]) + Lowered(u, s[m..end]) == Lowered(u, s[i..end])
    ensures i < m ==> Lowered(u, s[i..m]) != ""
  {
    assert s[i..m] + s[m..end] == s[i..end];
    LoweredConcat(u, s[i..m], s[m..end]);
  }

  lemma {:induction false} LosslessFrom(u: Unicode, chunk: string, i: nat)
    requires Solid(u, chunk) && i <= |chunk|
    ensures Concat(PartsFrom(u, chunk, i)) == Lowered(u, chunk[i..])
    decreases |chunk| - i
  {
    hide CutAt, ShouldSplit;
    if i == |chunk| {
      assert chunk[i..] == "";
      NothingLowered(u, chunk, i, "");
    } else {
      assert ClassAt(u, chunk, i) != Boundary;
      var end := PartEnd(u, chunk, i + 1);
      var parts := PartsFrom(u, chunk, i);
      assert parts[0] == Lowered(u, chunk[i..end]) && parts[1..] == PartsFrom(u, chunk, end);
      LosslessFrom(u, chunk, end);
      LowerJoins(u, chunk, i, end, |chunk|);
      assert chunk[i..|chunk|] == chunk[i..] && chunk[end..|chunk|] == chunk[end..];
    }
  }

  lemma FirstPart(u: Unicode, chunk: string, i: nat) returns (end: nat)
    requires i < |chunk| && ClassAt(u, chunk, i) != Boundary
    ensures end == PartEnd(u, chunk, i + 1)
    ensures PartsFrom(u, chunk, i) == [Lowered(u, chunk[i..end])] + PartsFrom(u, chunk, end)
  {
    end := PartEnd(u, chunk, i + 1);
  }

  /** A part starts where the text before a cut ends, in lower case. */
  lemma {:induction false} CutsFrom(u: Unicode, chunk: string, i: nat, j: nat)
    requires Solid(u, chunk) && i <= j < |chunk|
    ensures StartsAt(PartsFrom(u, chunk, i), |Lowered(u, chunk[i..j])|) <==> j == i || CutAt(u, chunk, j)
    decreases |chunk| - i
  {
    hide ShouldSplit, CutAt, PartsFrom, StartsAt, Lowered;
    assert ClassAt(u, chunk, i) != Boundary;
    var end := FirstPart(u, chunk, i);
    var later := PartsFrom(u, chunk, end);
    var first, offset := Lowered(u, chunk[i..end]), |Lowered(u, chunk[i..j])|;
    StartsAfterFirst(first, later, offset);
    LowerJoins(u, chunk, i, j, j);
    if j == i {
      NothingLowered(u, chunk, i, "");
    } else if j < end {
      LowerJoins(u, chunk, i, j, end);
      LowerJoins(u, chunk, j, end, end);
      NeverStartsBelowZero(later, offset - |first|);
    } else {
      LowerJoins(u, chunk, i, end, j);
      CutsFrom(u, chunk, end, j);
    }
  }

  /** And nowhere else. */
  lemma {:induction false} StartsOnlyAtCuts(u: Unicode, chunk: string, i: nat, offset: int) returns (j: nat)
    requires Solid(u, chunk) && i <= |chunk| && StartsAt(PartsFrom(u, chunk, i), offset)
    ensures i <= j < |chunk| && offset == |Lowered(u, chunk[i..j])| && (j == i || CutAt(u, chunk, j))
    decreases |chunk| - i
  {
    hide ShouldSplit, CutAt, StartsAt, Lowered;
    if i == |chunk| {
      NeverStartsInNothing(offset);
      assert false;
    } else {
      assert ClassAt(u, chunk, i) != Boundary;
      var end := FirstPart(u, chunk, i);
      var later := PartsFrom(u, chunk, end);
      hide PartsFrom;
      var first := Lowered(u, chunk[i..end]);
      StartsAfterFirst(first, later, offset);
      if offset == 0 {
        j := i;
        NothingLowered(u, chunk, i, "");
      } else {
        j := StartsOnlyAtCuts(u, chunk, end, offset - |first|);
        LowerJoins(u, chunk, i, end, j);
      }
    }
  }

  lemma NeverStartsInNothing(offset: int)
    ensures !StartsAt([], offset)
  {
  }

  lemma StartsAfterFirst(first: string, later: seq<string>, offset: int)
    ensures StartsAt([first] + later, offset) <==> offset == 0 || StartsAt(later, offset - |first|)
  {
    assert ([first] + later)[1..] == later;
  }

  lemma {:induction false} NeverStartsBelowZero(parts: seq<string>, offset: int)
    requires offset < 0
    ensures !StartsAt(parts, offset)
    decreases parts
  {
    if parts != [] { NeverStartsBelowZero(parts[1..], offset - |parts[0]|); }
  }

  /** Between two cuts nothing changes between letters and digits. */
  lemma {:induction false} RunIsOneKind(u: Unicode, chunk: string, i: nat, j: nat, end: nat)
    requires Solid(u, chunk) && i <= j < end <= |chunk|
    requires forall k | i < k < end :: !CutAt(u, chunk, k)
    ensures (ClassAt(u, chunk, j) == Digit) == (ClassAt(u, chunk, i) == Digit)
    decreases j
  {
    if j > i {
      RunIsOneKind(u, chunk, i, j - 1, end);
      assert !CutAt(u, chunk, j);
    }
  }

  /** Lower-casing the character gives only lower-case letters, or only digits for a digit, and nothing more to lower. */
  predicate Stable(u: Unicode, c: char) {
    var d := LowerOne(u, c);
    && Lowered(u, d) == d
    && forall k | 0 <= k < |d| :: Class(u, d[k]) == if Class(u, c) == Digit then Digit else LowerCase
  }

  lemma AsciiIsStable(u: Unicode, c: char)
    requires IsLetter(c) || IsDigit(c)
    ensures Stable(u, c)
  {
    var d := LowerChar(c);
    assert LowerOne(u, c) == [d] && LowerOne(u, d) == [d];
    assert Lowered(u, [d]) == [d] + Lowered(u, [d][1..]);
  }

  lemma {:induction false} RunIsStable(u: Unicode, run: string, digits: bool)
    requires forall k | 0 <= k < |run| :: Stable(u, run[k]) && (Class(u, run[k]) == Digit <==> digits)
    ensures Lowered(u, Lowered(u, run)) == Lowered(u, run)
    ensures forall k | 0 <= k < |Lowered(u, run)| :: Class(u, Lowered(u, run)[k]) == if digits then Digit else LowerCase
  {
    if run != "" {
      var one, more := LowerOne(u, run[0]), Lowered(u, run[1..]);
      assert Stable(u, run[0]);
      hide Class, LowerOne;
      RunIsStable(u, run[1..], digits);
      LoweredConcat(u, one, more);
      assert Lowered(u, run) == one + more;
    }
  }

  lemma RunKinds(u: Unicode, chunk: string, i: nat, end: nat)
    requires Solid(u, chunk) && i < end <= |chunk|
    requires forall k | i < k < end :: !CutAt(u, chunk, k)
    ensures forall k | 0 <= k < end - i :: Class(u, chunk[i..end][k]) == Digit <==> ClassAt(u, chunk, i) == Digit
  {
    hide CutAt, Solid, Class;
    var run := chunk[i..end];
    forall k | 0 <= k < |run| ensures Class(u, run[k]) == Digit <==> ClassAt(u, chunk, i) == Digit {
      RunIsOneKind(u, chunk, i, i + k, end);
      assert run[k] == chunk[i + k];
    }
  }

  lemma PartIsOneKind(u: Unicode, chunk: string, i: nat, end: nat)
    requires Solid(u, chunk) && i < end <= |chunk|
    requires forall k | i < k < end :: !CutAt(u, chunk, k)
    requires forall k | 0 <= k < |chunk| :: Stable(u, chunk[k])
    ensures OneKind(u, Lowered(u, chunk[i..end])) && Lowered(u, Lowered(u, chunk[i..end])) == Lowered(u, chunk[i..end])
  {
    hide Stable, CutAt, Solid, Lowered, Class, ClassAt, OneKind;
    var run := chunk[i..end];
    var digits := ClassAt(u, chunk, i) == Digit;
    RunKinds(u, chunk, i, end);
    forall k | 0 <= k < |run| ensures Stable(u, run[k]) { assert run[k] == chunk[i + k]; }
    RunIsStable(u, run, digits);
    SameClassIsOneKind(u, Lowered(u, run), digits);
  }

  lemma SameClassIsOneKind(u: Unicode, part: string, digits: bool)
    requires forall k | 0 <= k < |part| :: Class(u, part[k]) == if digits then Digit else LowerCase
    ensures OneKind(u, part)
  {
  }

  lemma {:induction false} NonePartEmpty(u: Unicode, chunk: string, i: nat)
    requires i <= |chunk|
    ensures NoneEmpty(PartsFrom(u, chunk, i))
    decreases |chunk| - i
  {
    if i < |chunk| {
      if ClassAt(u, chunk, i) == Boundary {
        NonePartEmpty(u, chunk, i + 1);
      } else {
        var end := FirstPart(u, chunk, i);
        NonePartEmpty(u, chunk, end);
        LowerJoins(u, chunk, i, end, end);
      }
    }
  }

  lemma {:induction false} KindsFrom(u: Unicode, chunk: string, i: nat)
    requires Solid(u, chunk) && i <= |chunk|
    requires forall k | 0 <= k < |chunk| :: Stable(u, chunk[k])
    ensures forall p | p in PartsFrom(u, chunk, i) :: OneKind(u, p) && Lowered(u, p) == p
    decreases |chunk| - i
  {
    hide Stable, OneKind, CutAt;
    if i < |chunk| {
      assert ClassAt(u, chunk, i) != Boundary;
      var end := FirstPart(u, chunk, i);
      KindsFrom(u, chunk, end);
      PartIsOneKind(u, chunk, i, end);
      hide Lowered, PartsFrom;
    }
  }

  /** A lower-case word or a number is not cut any further. */
  lemma OneKindStays(u: Unicode, part: string)
    requires part != "" && OneKind(u, part) && Lowered(u, part) == part
    ensures Parts(u, part) == [part]
  {
    hide Lowered;
    assert forall k | 0 < k < |part| :: !CutAt(u, part, k);
    assert ClassAt(u, part, 0) != Boundary;
    var end := FirstPart(u, part, 0);
    assert part[0..end] == part;
    assert PartsFrom(u, part, end) == [];
  }

  /** Where the text before a cut ends, in lower case. */
  ghost predicate CutOffset(u: Unicode, chunk: string, offset: int) {
    exists j | 0 < j < |chunk| :: CutAt(u, chunk, j) && offset == |Lowered(u, chunk[..j])|
  }

  /** `parts` cuts `chunk` into non-empty pieces, all of it, at the places where `ShouldSplit` holds and nowhere else. */
  ghost predicate Partitions(u: Unicode, parts: seq<string>, chunk: string) {
    && Concat(parts) == Lowered(u, chunk)
    && NoneEmpty(parts)
    && (forall offset {:trigger StartsAt(parts, offset)} | 0 < offset < |Lowered(u, chunk)| ::
          StartsAt(parts, offset) <==> CutOffset(u, chunk, offset))
  }

  /** The parts of a chunk partition it. */
  lemma SplittingPartitions(u: Unicode, chunk: string)
    requires Solid(u, chunk)
    ensures Partitions(u, Parts(u, chunk), chunk)
  {
    LosslessFrom(u, chunk, 0);
    NonePartEmpty(u, chunk, 0);
    assert chunk[0..] == chunk;
    hide Solid, PartsFrom, StartsAt, CutAt, Lowered;
    NothingLowered(u, chunk, 0, "");
    forall offset | 0 < offset < |Lowered(u, chunk)| ensures StartsAt(Parts(u, chunk), offset) <==> CutOffset(u, chunk, offset) {
      if StartsAt(Parts(u, chunk), offset) {
        var j := StartsOnlyAtCuts(u, chunk, 0, offset);
        assert chunk[0..j] == chunk[..j];
      }
      if CutOffset(u, chunk, offset) {
        var j :| 0 < j < |chunk| && CutAt(u, chunk, j) && offset == |Lowered(u, chunk[..j])|;
        assert chunk[0..j] == chunk[..j];
        CutsFrom(u, chunk, 0, j);
      }
    }
  }

  /** Each part is all letters or all digits and splits into itself alone. */
  ghost predicate KindsStay(u: Unicode, chunk: string) {
    forall p | p in Parts(u, chunk) :: OneKind(u, p) && Parts(u, p) == [p]
  }

  lemma PartsStay(u: Unicode, chunk: string)
    requires Solid(u, chunk) && forall k | 0 <= k < |chunk| :: Stable(u, chunk[k])
    ensures KindsStay(u, chunk)
  {
    KindsFrom(u, chunk, 0);
    NonePartEmpty(u, chunk, 0);
    hide Stable, Solid, PartsFrom, OneKind, Lowered;
    forall p | p in Parts(u, chunk) ensures Parts(u, p) == [p] { OneKindStays(u, p); }
  }

  lemma AsciiPartsStay(u: Unicode, chunk: string)
    requires forall k | 0 <= k < |chunk| :: IsLetter(chunk[k]) || IsDigit(chunk[k])
    ensures Solid(u, chunk) && KindsStay(u, chunk)
  {
    forall k | 0 <= k < |chunk| ensures Stable(u, chunk[k]) { AsciiIsStable(u, chunk[k]); }
    PartsStay(u, chunk);
  }

  lemma {:induction false} LoweredIsNoShorter(u: Unicode, s: string)
    ensures |Lowered(u, s)| >= |s|
  {
    if s != "" { LoweredIsNoShorter(u, s[1..]); }
  }

  /** Lower-casing never shortens, so what it leaves alone as a whole it leaves alone in every piece. */
  lemma PiecesStay(u: Unicode, a: string, b: string, c: string)
    requires Lowered(u, a + b + c) == a + b + c
    ensures Lowered(u, b) == b
  {
    LoweredConcat(u, a + b, c);
    LoweredConcat(u, a, b);
    LoweredIsNoShorter(u, a);
    LoweredIsNoShorter(u, b);
    LoweredIsNoShorter(u, c);
    hide Lowered;
    var whole := a + b + c;
    var x, y, z := Lowered(u, a), Lowered(u, b), Lowered(u, c);
    assert whole == x + y + z;
    assert |x| == |a| && |y| == |b|;
    assert whole[|a|..|a| + |b|] == b && whole[|x|..|x| + |y|] == y;
  }

  /** The part that holds a character. */
  lemma {:induction false} PartHolding(u: Unicode, chunk: string, i: nat, k: nat) returns (start: nat, end: nat)
    requires Solid(u, chunk) && i <= k < |chunk|
    ensures start <= k < end <= |chunk|
    ensures Lowered(u, chunk[start..end]) in PartsFrom(u, chunk, i)
    decreases |chunk| - i
  {
    hide CutAt, Lowered;
    assert ClassAt(u, chunk, i) != Boundary;
    start := i;
    end := FirstPart(u, chunk, i);
    if k >= end {
      start, end := PartHolding(u, chunk, end, k);
    }
  }

  /** A part that splits into itself alone is left alone by lower-casing. */
  lemma StayingPartIsLowered(u: Unicode, p: string)
    requires p != "" && OneKind(u, p) && Parts(u, p) == [p]
    ensures Lowered(u, p) == p
  {
    LosslessFrom(u, p, 0);
    assert p[0..] == p;
    assert Concat([p]) == p by {
      var none: seq<string> := [];
      assert [p][1..] == none;
    }
  }

  lemma LoweredOneClass(u: Unicode, c: char, k: nat)
    requires IsAlphanumeric(u, c) && k < |LowerOne(u, c)|
    ensures Class(u, LowerOne(u, c)[k]) == Digit <==> Class(u, c) == Digit
  {
    assert LowerOne(u, c)[k] in LowerOne(u, c);
  }

  /** A character is stable when a part it contributes to is left alone and is all letters or all digits. */
  lemma StableInPart(u: Unicode, c: char, before: string, after: string)
    requires IsAlphanumeric(u, c)
    requires var p := before + LowerOne(u, c) + after; OneKind(u, p) && Lowered(u, p) == p
    ensures Stable(u, c)
  {
    var d := LowerOne(u, c);
    var p := before + d + after;
    hide Lowered, LowerOne, Class, IsAlphanumeric;
    PiecesStay(u, before, d, after);
    forall n | 0 <= n < |d| ensures Class(u, d[n]) == if Class(u, c) == Digit then Digit else LowerCase {
      LoweredOneClass(u, c, n);
      assert p[|before| + n] == d[n];
      assert ClassAt(u, p, |before| + n) == Class(u, d[n]);
    }
  }

  lemma StayingMeansStable(u: Unicode, chunk: string, k: nat)
    requires Solid(u, chunk) && k < |chunk| && KindsStay(u, chunk)
    ensures Stable(u, chunk[k])
  {
    assert ClassAt(u, chunk, k) != Boundary && IsAlphanumeric(u, chunk[k]);
    hide Lowered, PartsFrom, LowerOne, OneKind, Solid, IsAlphanumeric, Stable;
    var start, end := PartHolding(u, chunk, 0, k);
    LoweredAround(u, chunk, start, k, end);
    StayingPartIsLowered(u, Lowered(u, chunk[start..end]));
    StableInPart(u, chunk[k], Lowered(u, chunk[start..k]), Lowered(u, chunk[k + 1..end]));
  }

  lemma LoweredAround(u: Unicode, chunk: string, start: nat, k: nat, end: nat)
    requires start <= k < end <= |chunk|
    ensures Lowered(u, chunk[start..end]) == Lowered(u, chunk[start..k]) + LowerOne(u, chunk[k]) + Lowered(u, chunk[k + 1..end])
    ensures Lowered(u, chunk[start..end]) != ""
  {
    LowerJoins(u, chunk, start, k, end);
    var rest := chunk[k..end];
    assert rest[0] == chunk[k] && rest[1..] == chunk[k + 1..end];
  }

  /** The parts of a chunk stay exactly when lower-casing is stable for each of its characters. */
  lemma PartsStayExactly(u: Unicode, chunk: string)
    requires Solid(u, chunk)
    ensures KindsStay(u, chunk) <==> forall k | 0 <= k < |chunk| :: Stable(u, chunk[k])
  {
    hide Stable, KindsStay;
    if KindsStay(u, chunk) {
      forall k | 0 <= k < |chunk| ensures Stable(u, chunk[k]) { StayingMeansStable(u, chunk, k); }
    }
    if forall k | 0 <= k < |chunk| :: Stable(u, chunk[k]) {
      PartsStay(u, chunk);
    }
  }

  /** So all parts of all chunks stay exactly when lower-casing every letter and digit is stable. */
  lemma AllPartsStayExactly(u: Unicode)
    ensures (forall chunk | Solid(u, chunk) :: KindsStay(u, chunk)) <==> forall c | IsAlphanumeric(u, c) :: Stable(u, c)
  {
    hide Stable, KindsStay;
    if forall c | IsAlphanumeric(u, c) :: Stable(u, c) {
      forall chunk | Solid(u, chunk) ensures KindsStay(u, chunk) {
        assert forall k | 0 <= k < |chunk| :: ClassAt(u, chunk, k) != Boundary && IsAlphanumeric(u, chunk[k]);
        PartsStayExactly(u, chunk);
      }
    }
    if forall chunk | Solid(u, chunk) :: KindsStay(u, chunk) {
      forall c | IsAlphanumeric(u, c) ensures Stable(u, c) {
        assert Solid(u, [c]);
        PartsStayExactly(u, [c]);
        assert [c][0] == c;
      }
    }
  }

  const DOTTED := '\U{0130}'
  const DOT := '\U{0307}'

  /** Stability is needed: capital dotted I becomes an i and a combining dot, which is no letter and is cut off again. */
  lemma DottedCapitalDoesNotStay(u: Unicode)
    requires u.other(DOTTED) && !u.other(DOT) && u.lower(DOTTED) == ['i', DOT] && u.lower(DOT) == [DOT]
    ensures Parts(u, [DOTTED]) == [['i', DOT]] && Parts(u, ['i', DOT]) == ["i"]
  {
    var one, two := [DOTTED], ['i', DOT];
    assert Lowered(u, one[1..]) == "" && Lowered(u, "i"[1..]) == "";
    assert PartEnd(u, one, 1) == 1 && one[0..1] == one;
    assert Lowered(u, one) == two && PartsFrom(u, one, 1) == [];
    assert ClassAt(u, two, 1) == Boundary && PartEnd(u, two, 1) == 1;
    assert two[0..1] == "i" && Lowered(u, "i") == "i";
    assert PartsFrom(u, two, 2) == [] && PartsFrom(u, two, 1) == [];
  }

  ghost predicate SameStarts(a: seq<string>, b: seq<string>, length: nat) {
    forall j {:trigger StartsAt(a, j)} | 0 < j < length :: StartsAt(a, j) == StartsAt(b, j)
  }

  predicate NoneEmpty(parts: seq<string>) {
    forall p | p in parts :: p != ""
  }

  lemma ConcatIsEmpty(parts: seq<string>)
    requires NoneEmpty(parts)
    ensures Concat(parts) == "" <==> parts == []
  {
    if parts != [] { assert parts[0] in parts; }
  }

  lemma {:induction false} PartitionsAgree(a: seq<string>, b: seq<string>)
    requires NoneEmpty(a) && NoneEmpty(b) && Concat(a) == Concat(b) && SameStarts(a, b, |Concat(a)|)
    ensures a == b
    decreases a
  {
    ConcatIsEmpty(a);
    ConcatIsEmpty(b);
    if a != [] {
      FirstIsAtMost(a, b);
      FirstIsAtMost(b, a);
      hide NoneEmpty;
      var n := |a[0]|;
      assert a[0] == Concat(a)[..n] == b[0];
      assert Concat(a[1..]) == Concat(a)[n..] == Concat(b[1..]);
      SameStartsAfterFirst(a, b);
      PartitionsAgree(a[1..], b[1..]);
      assert a == [a[0]] + a[1..] && b == [b[0]] + b[1..];
    }
  }

  lemma SameStartsAfterFirst(a: seq<string>, b: seq<string>)
    requires a != [] && b != [] && a[0] == b[0]
    requires NoneEmpty(a) && NoneEmpty(b) && SameStarts(a, b, |Concat(a)|)
    ensures NoneEmpty(a[1..]) && NoneEmpty(b[1..]) && SameStarts(a[1..], b[1..], |Concat(a[1..])|)
  {
    var n := |a[0]|;
    forall p | p in a[1..] ensures p != "" { assert p in a; }
    forall p | p in b[1..] ensures p != "" { assert p in b; }
    forall j | 0 < j < |Concat(a[1..])| ensures StartsAt(a[1..], j) == StartsAt(b[1..], j) {
      assert StartsAt(a, j + n) == StartsAt(b, j + n);
    }
  }

  lemma FirstIsAtMost(a: seq<string>, b: seq<string>)
    requires a != [] && b != [] && NoneEmpty(b)
    requires Concat(a) == Concat(b) && (SameStarts(a, b, |Concat(a)|) || SameStarts(b, a, |Concat(a)|))
    ensures |a[0]| <= |b[0]|
  {
    var n := |b[0]|;
    if n < |a[0]| {
      assert b[0] in b && n > 0;
      if |b| > 1 {
        assert StartsAt(b[1..], 0) && StartsAt(b, n);
        NeverStartsBelowZero(a[1..], n - |a[0]|);
        assert !StartsAt(a, n);
      }
    }
  }

  /** Nothing else partitions the chunk, so the two clauses together say exactly what splitting returns. */
  lemma SplittingIsTheOnlyPartition(u: Unicode, chunk: string, parts: seq<string>)
    requires Solid(u, chunk)
    ensures Partitions(u, parts, chunk) <==> parts == Parts(u, chunk)
  {
    SplittingPartitions(u, chunk);
    if Partitions(u, parts, chunk) {
      hide NoneEmpty, Parts, StartsAt, CutOffset;
      PartitionsAgree(parts, Parts(u, chunk));
    }
  }

  // ----- Tokens

  /** The first underscore of `token[i..]`, or the end. */
  function ChunkEnd(token: string, i: nat): (end: nat)
    requires i <= |token|
    ensures i <= end <= |token|
    ensures end < |token| ==> token[end] == '_'
    ensures forall j | i <= j < end :: token[j] != '_'
    decreases |token| - i
  {
    if i == |token| || token[i] == '_' then i else ChunkEnd(token, i + 1)
  }

  /** The non-empty pieces of `token[i..]` between underscores. */
  function Chunks(token: string, i: nat): seq<string>
    requires i <= |token|
    decreases |token| - i
  {
    if i == |token| then []
    else if token[i] == '_' then Chunks(token, i + 1)
    else [token[i..ChunkEnd(token, i)]] + Chunks(token, ChunkEnd(token, i))
  }

  function AllParts(u: Unicode, chunks: seq<string>): seq<string> {
    if chunks == [] then [] else AllParts(u, chunks[..|chunks| - 1]) + Parts(u, chunks[|chunks| - 1])
  }

  function TokenParts(u: Unicode, token: string): seq<string> {
    AllParts(u, Chunks(token, 0))
  }

  /** The first character of each part, as far as it has one. */
  function Initials(parts: seq<string>): string {
    if parts == [] then ""
    else (if parts[0] == "" then "" else [parts[0][0]]) + Initials(parts[1..])
  }

  function Acronym(parts: seq<string>): Option<string> {
    if |parts| < 2 || Initials(parts) == "" then None else Some(Initials(parts))
  }

  /** Everything one token stands for, of any length. */
  function TokenTerms(u: Unicode, token: string): set<string> {
    if token == "" then {}
    else
      {LoweredToken(u, token)} + (set p | p in TokenParts(u, token))
      + match Acronym(TokenParts(u, token)) case Some(initials) => {initials} case None => {}
  }

  function LongEnough(terms: set<string>, minLen: nat): set<string> {
    set t | t in terms && |t| >= minLen
  }

  method InsertTerm(term: string, minLen: nat, terms: set<string>) returns (updated: set<string>)
    ensures updated == terms + LongEnough({term}, minLen)
  {
    updated := terms;
    if |term| >= minLen {
      updated := updated + {term};
    }
  }

  method InsertIdentifierTerms(u: Unicode, token: string, minLen: nat, terms: set<string>) returns (updated: set<string>)
    ensures updated == terms + LongEnough(TokenTerms(u, token), minLen)
  {
    hide AllParts, Chunks, Initials;
    updated := terms;
    if token != "" {
      updated := InsertTerm(LoweredToken(u, token), minLen, updated);
      var parts := CollectParts(u, Chunks(token, 0));
      var i := 0;
      while i < |parts|
        invariant 0 <= i <= |parts|
        invariant updated == terms + LongEnough({LoweredToken(u, token)} + (set p | p in parts[..i]), minLen)
      {
        assert parts[..i + 1] == parts[..i] + [parts[i]];
        updated := InsertTerm(parts[i], minLen, updated);
        i := i + 1;
      }
      assert parts[..i] == parts;
      var acronym := Acronym(parts);
      if acronym.Some? {
        updated := InsertTerm(acronym.value, minLen, updated);
      }
    }
  }

  method CollectParts(u: Unicode, chunks: seq<string>) returns (parts: seq<string>)
    ensures parts == AllParts(u, chunks)
  {
    parts := [];
    var i := 0;
    while i < |chunks|
      invariant 0 <= i <= |chunks| && parts == AllParts(u, chunks[..i])
    {
      assert chunks[..i + 1][..i] == chunks[..i];
      parts := SplitIdentifierChunk(u, chunks[i], parts);
      i := i + 1;
    }
    assert chunks[..i] == chunks;
  }

  lemma ClassInSlice(u: Unicode, token: string, start: nat, i: nat, end: nat)
    requires start <= i <= end <= |token|
    requires ClassAt(u, token, end) == Boundary
    ensures ClassAt(u, token[start..end], i - start) == ClassAt(u, token, i)
    ensures i < end ==> ClassAt(u, token[start..end], i + 1 - start) == ClassAt(u, token, i + 1)
    ensures start < i ==> ClassAt(u, token[start..end], i - 1 - start) == ClassAt(u, token, i - 1)
  {
  }

  lemma CutInSlice(u: Unicode, token: string, start: nat, i: nat, end: nat)
    requires start < i < end <= |token| && ClassAt(u, token, end) == Boundary
    ensures CutAt(u, token[start..end], i - start) == CutAt(u, token, i)
  {
    ClassInSlice(u, token, start, i, end);
    hide ClassAt, ShouldSplit;
  }

  lemma {:induction false} EndOfSlice(u: Unicode, token: string, start: nat, i: nat, end: nat)
    requires start < i <= end <= |token|
    requires ClassAt(u, token, end) == Boundary
    ensures PartEnd(u, token, i) == PartEnd(u, token[start..end], i - start) + start <= end
    decreases end - i
  {
    hide ClassAt, CutAt;
    ClassInSlice(u, token, start, i, end);
    if i < end {
      CutInSlice(u, token, start, i, end);
      EndOfSlice(u, token, start, i + 1, end);
    }
  }

  lemma FirstPartOfSlice(u: Unicode, token: string, start: nat, i: nat, end: nat) returns (stop: nat)
    requires start <= i < end <= |token|
    requires ClassAt(u, token, i) != Boundary && ClassAt(u, token, end) == Boundary
    ensures i < stop <= end
    ensures PartsFrom(u, token, i) == [Lowered(u, token[i..stop])] + PartsFrom(u, token, stop)
    ensures PartsFrom(u, token[start..end], i - start)
         == [Lowered(u, token[i..stop])] + PartsFrom(u, token[start..end], stop - start)
  {
    hide ClassAt, CutAt, PartsFrom, PartEnd;
    var slice := token[start..end];
    ClassInSlice(u, token, start, i, end);
    EndOfSlice(u, token, start, i + 1, end);
    stop := FirstPart(u, token, i);
    var stopInSlice := FirstPart(u, slice, i - start);
    assert stopInSlice == stop - start;
    SliceOfSlice(token, start, end, i, stop);
  }

  lemma SliceOfSlice(s: string, start: nat, end: nat, i: nat, j: nat)
    requires start <= i <= j <= end <= |s|
    ensures s[start..end][i - start..j - start] == s[i..j]
  {
    var inner, outer := s[start..end][i - start..j - start], s[i..j];
    assert |inner| == |outer|;
    forall k | 0 <= k < |outer| ensures inner[k] == outer[k] {
      assert inner[k] == s[start..end][k + (i - start)] == s[k + i];
    }
  }

  /** A slice that ends at a separator is cut as it is in place. */
  lemma {:induction false} PartsOfSlice(u: Unicode, token: string, start: nat, i: nat, end: nat)
    requires start <= i <= end <= |token|
    requires ClassAt(u, token, end) == Boundary
    ensures PartsFrom(u, token, i) == PartsFrom(u, token[start..end], i - start) + PartsFrom(u, token, end)
    decreases end - i
  {
    var slice := token[start..end];
    if i == end {
      assert PartsFrom(u, slice, |slice|) == [];
    } else if ClassAt(u, token, i) == Boundary {
      ClassInSlice(u, token, start, i, end);
      PartsOfSlice(u, token, start, i + 1, end);
    } else {
      hide PartsFrom, ClassAt, Lowered, CutAt, PartEnd;
      var stop := FirstPartOfSlice(u, token, start, i, end);
      PartsOfSlice(u, token, start, stop, end);
      Associative([Lowered(u, token[i..stop])], PartsFrom(u, slice, stop - start), PartsFrom(u, token, end));
    }
  }

  lemma Associative(a: seq<string>, b: seq<string>, c: seq<string>)
    ensures a + (b + c) == (a + b) + c
  {
  }

  lemma {:induction false} AllPartsOfMore(u: Unicode, chunk: string, chunks: seq<string>)
    ensures AllParts(u, [chunk] + chunks) == Parts(u, chunk) + AllParts(u, chunks)
    decreases chunks
  {
    var all := [chunk] + chunks;
    var n := |chunks|;
    if n == 0 {
      assert all[..0] == [] && all[0] == chunk;
    } else {
      assert all[..n] == [chunk] + chunks[..n - 1] && all[n] == chunks[n - 1];
      AllPartsOfMore(u, chunk, chunks[..n - 1]);
    }
  }

  lemma {:induction false} ChunksAreCutInPlace(u: Unicode, token: string, i: nat)
    requires i <= |token|
    ensures AllParts(u, Chunks(token, i)) == PartsFrom(u, token, i)
    decreases |token| - i
  {
    if i < |token| {
      if token[i] == '_' {
        ChunksAreCutInPlace(u, token, i + 1);
      } else {
        var end := ChunkEnd(token, i);
        var chunk := token[i..end];
        assert Chunks(token, i) == [chunk] + Chunks(token, end);
        AllPartsOfMore(u, chunk, Chunks(token, end));
        ChunksAreCutInPlace(u, token, end);
        PartsOfSlice(u, token, i, i, end);
      }
    }
  }

  /** Splitting at underscores first changes nothing: the chunk splitter treats them as boundaries by itself. */
  lemma UnderscoresAreBoundaries(u: Unicode, token: string)
    ensures TokenParts(u, token) == Parts(u, token)
  {
    ChunksAreCutInPlace(u, token, 0);
  }

  /** The acronym takes one character from every part, so it is never missing when there are two parts or more. */
  lemma {:induction false} InitialsOfParts(parts: seq<string>)
    requires NoneEmpty(parts)
    ensures |Initials(parts)| == |parts|
    ensures forall k | 0 <= k < |parts| :: parts[k] != "" && Initials(parts)[k] == parts[k][0]
  {
    if parts != [] {
      assert parts[0] in parts;
      forall p | p in parts[1..] ensures p != "" { assert p in parts; }
      InitialsOfParts(parts[1..]);
    }
  }

  // ----- Texts

  predicate InToken(u: Unicode, c: char) {
    IsAlphanumeric(u, c) || c == '_'
  }

  /** What is still to be found in `text[i..]` when `token` has been read so far. */
  function TermsFrom(u: Unicode, text: string, i: nat, token: string): set<string>
    requires i <= |text|
    decreases |text| - i
  {
    if i == |text| then TokenTerms(u, token)
    else if InToken(u, text[i]) then TermsFrom(u, text, i + 1, token + [text[i]])
    else TokenTerms(u, token) + TermsFrom(u, text, i + 1, "")
  }

  /** Everything a text stands for, of any length. */
  function TextTerms(u: Unicode, text: string): set<string> {
    TermsFrom(u, text, 0, "")
  }

  method ExtendNormalizedTerms(u: Unicode, text: string, minLen: nat, terms: set<string>) returns (extended: set<string>)
    ensures extended == terms + LongEnough(TextTerms(u, text), minLen)
  {
    hide TokenTerms;
    var token := "";
    extended := terms;
    var i := 0;
    while i < |text|
      invariant 0 <= i <= |text|
      invariant extended + LongEnough(TermsFrom(u, text, i, token), minLen) == terms + LongEnough(TextTerms(u, text), minLen)
    {
      if InToken(u, text[i]) {
        token := token + [text[i]];
      } else {
        extended := InsertIdentifierTerms(u, token, minLen, extended);
        token := "";
      }
      i := i + 1;
    }
    extended := InsertIdentifierTerms(u, token, minLen, extended);
  }

  method NormalizedTerms(u: Unicode, text: string, minLen: nat) returns (terms: set<string>)
    ensures terms == LongEnough(TextTerms(u, text), minLen)
  {
    terms := ExtendNormalizedTerms(u, text, minLen, {});
  }

  lemma {:induction false} TermsOfJoined(u: Unicode, a: string, separator: char, b: string, i: nat, token: string)
    requires i <= |a| && !InToken(u, separator)
    ensures TermsFrom(u, a + [separator] + b, i, token) == TermsFrom(u, a, i, token) + TextTerms(u, b)
    decreases |a| - i
  {
    hide TokenTerms;
    var joined := a + [separator] + b;
    if i == |a| {
      assert joined[i] == separator;
      TermsOfSuffix(u, joined, i + 1, b, 0, "");
    } else {
      assert joined[i] == a[i];
      TermsOfJoined(u, a, separator, b, i + 1, if InToken(u, a[i]) then token + [a[i]] else "");
    }
  }

  lemma {:induction false} TermsOfSuffix(u: Unicode, text: string, start: nat, b: string, i: nat, token: string)
    requires start <= |text| && text[start..] == b && i <= |b|
    ensures TermsFrom(u, text, start + i, token) == TermsFrom(u, b, i, token)
    decreases |b| - i
  {
    hide TokenTerms;
    if i < |b| {
      assert text[start + i] == b[i];
      TermsOfSuffix(u, text, start, b, i + 1, if InToken(u, b[i]) then token + [b[i]] else "");
    }
  }

  /** Terms on the two sides of a separator are found independently, and the length bound only filters. */
  lemma SeparatedTextsAreIndependent(u: Unicode, a: string, separator: char, b: string, minLen: nat)
    requires !InToken(u, separator)
    ensures LongEnough(TextTerms(u, a + [separator] + b), minLen)
         == LongEnough(TextTerms(u, a), minLen) + LongEnough(TextTerms(u, b), minLen)
  {
    TermsOfJoined(u, a, separator, b, 0, "");
  }
}
