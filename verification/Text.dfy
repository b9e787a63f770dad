/** String operations of the standard library that several components rely on. */
module Text {
  /** Unicode's White_Space property. */
  predicate IsWhitespace(c: char) {
    var n := c as int;
    || 0x09 <= n <= 0x0D || n == 0x20 || n == 0x85 || n == 0xA0 || n == 0x1680 || 0x2000 <= n <= 0x200A
    || n == 0x2028 || n == 0x2029 || n == 0x202F || n == 0x205F || n == 0x3000
  }

  /** The twenty-five characters of that property. */
  lemma WhitespaceCharacters(c: char)
    ensures IsWhitespace(c) <==> c as int in {
      0x9, 0xA, 0xB, 0xC, 0xD, 0x20, 0x85, 0xA0, 0x1680, 0x2000, 0x2001, 0x2002, 0x2003, 0x2004, 0x2005, 0x2006,
      0x2007, 0x2008, 0x2009, 0x200A, 0x2028, 0x2029, 0x202F, 0x205F, 0x3000}
  {
  }

  function TrimStart(s: string): (r: string)
    ensures r != "" ==> !IsWhitespace(r[0])
  {
    if s != "" && IsWhitespace(s[0]) then TrimStart(s[1..]) else s
  }

  function TrimEnd(s: string): (r: string)
    ensures r <= s
    ensures r != "" ==> !IsWhitespace(r[|r| - 1])
  {
    if s != "" && IsWhitespace(s[|s| - 1]) then TrimEnd(s[..|s| - 1]) else s
  }

  function Trim(s: string): string {
    TrimEnd(TrimStart(s))
  }

  /** Nothing to trim. */
  predicate Trimmed(s: string) {
    s != "" && !IsWhitespace(s[0]) && !IsWhitespace(s[|s| - 1])
  }

  lemma TrimmedStays(s: string)
    requires Trimmed(s)
    ensures Trim(s) == s
  {
  }

  lemma TrimYieldsTrimmed(s: string)
    ensures Trim(s) == "" || Trimmed(Trim(s))
  {
  }

  predicate Blank(s: string) {
    forall k | 0 <= k < |s| :: IsWhitespace(s[k])
  }

  lemma {:induction false} TrimStartDrops(before: string, s: string)
    requires Blank(before) && (s == "" || !IsWhitespace(s[0]))
    ensures TrimStart(before + s) == s
  {
    if before != "" {
      assert (before + s)[1..] == before[1..] + s;
      TrimStartDrops(before[1..], s);
    } else {
      assert before + s == s;
    }
  }

  lemma {:induction false} TrimEndDrops(s: string, after: string)
    requires Blank(after) && (s == "" || !IsWhitespace(s[|s| - 1]))
    ensures TrimEnd(s + after) == s
    decreases after
  {
    if after != "" {
      var shorter := after[..|after| - 1];
      assert (s + after)[..|s + after| - 1] == s + shorter;
      TrimEndDrops(s, shorter);
    } else {
      assert s + after == s;
    }
  }

  /** Trimming takes the white space at both ends away, and nothing else. */
  lemma TrimDropsBlanks(before: string, s: string, after: string)
    requires Blank(before) && Blank(after) && (s == "" || Trimmed(s))
    ensures Trim(before + s + after) == s
  {
    assert before + s + after == before + (s + after);
    if s == "" {
      assert s + after == after;
      BlankTrimsToNothing(before + after);
    } else {
      TrimStartDrops(before, s + after);
      TrimEndDrops(s, after);
    }
  }

  lemma {:induction false} BlankTrimsToNothing(s: string)
    requires Blank(s)
    ensures Trim(s) == ""
  {
    if s != "" { BlankTrimsToNothing(s[1..]); }
  }

  /** Trimming the end cannot pass a character that is not white space. */
  lemma {:induction false} TrimEndKeeps(s: string, n: nat)
    requires 0 < n <= |s| && !IsWhitespace(s[n - 1])
    ensures s[..n] <= TrimEnd(s)
  {
    if |s| > n && IsWhitespace(s[|s| - 1]) {
      var shorter := s[..|s| - 1];
      assert shorter[n - 1] == s[n - 1] && shorter[..n] == s[..n];
      TrimEndKeeps(shorter, n);
    }
  }

  function LowerChar(c: char): char {
    if 'A' <= c <= 'Z' then (c as int + 32) as char else c
  }

  /** ASCII lower case; other characters stay. */
  function Lower(s: string): (r: string)
    ensures |r| == |s| && forall k {:trigger r[k]} | 0 <= k < |s| :: r[k] == LowerChar(s[k])
  {
    seq(|s|, k requires 0 <= k < |s| => LowerChar(s[k]))
  }

  function UpperChar(c: char): char {
    if 'a' <= c <= 'z' then (c as int - 32) as char else c
  }

  /** ASCII upper case; other characters stay. */
  function Upper(s: string): (r: string)
    ensures |r| == |s| && forall k {:trigger r[k]} | 0 <= k < |s| :: r[k] == UpperChar(s[k])
  {
    seq(|s|, k requires 0 <= k < |s| => UpperChar(s[k]))
  }

  predicate IsAscii(c: char) {
    (c as int) < 128
  }

  predicate IsDigit(c: char) {
    '0' <= c <= '9'
  }

  predicate IsLetter(c: char) {
    'a' <= c <= 'z' || 'A' <= c <= 'Z'
  }

  const CAPITALS: string := "ABCDEFGHIJKLMNOPQRSTUVWXYZ"
  const SMALL: string := "abcdefghijklmnopqrstuvwxyz"

  /** The twenty-six letters change case, and nothing else does. */
  lemma LettersChangeCase(k: nat, c: char)
    ensures k < 26 ==> LowerChar(CAPITALS[k]) == SMALL[k] && UpperChar(SMALL[k]) == CAPITALS[k]
    ensures c !in CAPITALS ==> LowerChar(c) == c
    ensures c !in SMALL ==> UpperChar(c) == c
  {
    if 'A' <= c <= 'Z' { assert CAPITALS[c as int - 'A' as int] == c; }
    if 'a' <= c <= 'z' { assert SMALL[c as int - 'a' as int] == c; }
  }

  lemma CapitalsAre(c: char)
    ensures c in CAPITALS <==> 'A' <= c <= 'Z'
  {
    if 'A' <= c <= 'Z' { assert CAPITALS[c as int - 'A' as int] == c; }
  }

  lemma SmallAre(c: char)
    ensures c in SMALL <==> 'a' <= c <= 'z'
  {
    if 'a' <= c <= 'z' { assert SMALL[c as int - 'a' as int] == c; }
  }

  /** Letters, digits and ASCII. */
  lemma AsciiKinds(c: char)
    ensures IsLetter(c) <==> c in CAPITALS || c in SMALL
    ensures IsDigit(c) <==> c in "0123456789"
    ensures IsAscii(c) <==> c as int <= 0x7F
  {
    CapitalsAre(c);
    SmallAre(c);
    if '0' <= c <= '9' { assert "0123456789"[c as int - '0' as int] == c; }
  }

  /** The order of strings by code point, which is also the order of their UTF-8 bytes. */
  predicate AtMost(a: string, b: string) {
    a == "" || (b != "" && (a[0] < b[0] || (a[0] == b[0] && AtMost(a[1..], b[1..]))))
  }

  lemma {:induction false} AtMostAntisymmetric(a: string, b: string)
    requires AtMost(a, b) && AtMost(b, a)
    ensures a == b
  {
    if a != "" { AtMostAntisymmetric(a[1..], b[1..]); }
  }

  lemma {:induction false} AtMostTransitive(a: string, b: string, c: string)
    requires AtMost(a, b) && AtMost(b, c)
    ensures AtMost(a, c)
  {
    if a != "" && a[0] == b[0] && b[0] == c[0] { AtMostTransitive(a[1..], b[1..], c[1..]); }
  }

  lemma {:induction false} AtMostTotal(a: string, b: string)
    ensures AtMost(a, b) || AtMost(b, a)
  {
    if a != "" && b != "" && a[0] == b[0] { AtMostTotal(a[1..], b[1..]); }
  }

  /** `a` and `b` agree before index `k`, where `a` ends first or has the smaller character. */
  predicate FirstLessAt(a: string, b: string, k: nat) {
    && k <= |a| && k <= |b|
    && (forall i | 0 <= i < k :: a[i] == b[i])
    && (if k < |a| && k < |b| then a[k] < b[k] else |a| < |b|)
  }

  lemma {:induction false} AtMostDiffers(a: string, b: string) returns (k: nat)
    requires AtMost(a, b) && a != b
    ensures FirstLessAt(a, b, k)
  {
    k := 0;
    if a != "" && a[0] == b[0] {
      assert a[1..] != b[1..] by { assert a == [a[0]] + a[1..] && b == [b[0]] + b[1..]; }
      var rest := AtMostDiffers(a[1..], b[1..]);
      k := rest + 1;
      assert forall i | 0 < i < k :: a[i] == a[1..][i - 1] && b[i] == b[1..][i - 1];
    }
  }

  lemma {:induction false} FirstLessIsAtMost(a: string, b: string, k: nat)
    requires FirstLessAt(a, b, k)
    ensures AtMost(a, b) && a != b
    decreases k
  {
    if k > 0 {
      assert forall i | 0 <= i < k - 1 :: a[1..][i] == a[i + 1] && b[1..][i] == b[i + 1];
      FirstLessIsAtMost(a[1..], b[1..], k - 1);
    }
  }

  /** The order is lexicographic: strings are equal, or the first difference decides, a proper prefix coming first. */
  lemma AtMostMeans(a: string, b: string)
    ensures AtMost(a, b) <==> a == b || exists k :: FirstLessAt(a, b, k)
  {
    hide FirstLessAt;
    AtMostTotal(a, b);
    if AtMost(a, b) && a != b { var k := AtMostDiffers(a, b); }
    if k :| FirstLessAt(a, b, k) { FirstLessIsAtMost(a, b, k); }
  }

  lemma {:induction false} LeastExists(strings: set<string>) returns (least: string)
    requires strings != {}
    ensures least in strings && forall s | s in strings :: AtMost(least, s)
  {
    var one :| one in strings;
    AtMostTotal(one, one);
    if strings == {one} {
      least := one;
    } else {
      assert strings - {one} != {};
      var other := LeastExists(strings - {one});
      AtMostTotal(one, other);
      least := if AtMost(one, other) then one else other;
      forall s | s in strings ensures AtMost(least, s) {
        if s != one && least == one { AtMostTransitive(one, other, s); }
      }
    }
  }

  /** The first key of an ordered map. */
  function First(strings: set<string>): (least: string)
    requires strings != {}
    ensures least in strings && forall s | s in strings :: AtMost(least, s)
  {
    assert exists least :: least in strings && forall s | s in strings :: AtMost(least, s) by {
      var least := LeastExists(strings);
    }
    assert forall a, b | a in strings && b in strings && AtMost(a, b) && AtMost(b, a) :: a == b by {
      forall a, b | a in strings && b in strings && AtMost(a, b) && AtMost(b, a) ensures a == b {
        AtMostAntisymmetric(a, b);
      }
    }
    var least :| least in strings && forall s | s in strings :: AtMost(least, s);
    least
  }

  // ----- Searching

  predicate OccursAt(text: string, phrase: string, i: nat) {
    i + |phrase| <= |text| && text[i..i + |phrase|] == phrase
  }

  lemma OccursPointwise(text: string, phrase: string, i: nat, k: nat)
    requires OccursAt(text, phrase, i) && k < |phrase|
    ensures text[i + k] == phrase[k]
  {
    assert text[i..i + |phrase|][k] == text[i + k];
  }

  /** The first occurrence at or after `from`, or -1. An empty phrase occurs everywhere. */
  function Find(text: string, phrase: string, from: nat): (index: int)
    ensures index == -1 || (from <= index && OccursAt(text, phrase, index))
    ensures forall j | from <= j && OccursAt(text, phrase, j) :: 0 <= index <= j
    decreases |text| - from
  {
    if OccursAt(text, phrase, from) then from
    else if from >= |text| then -1
    else Find(text, phrase, from + 1)
  }
}
