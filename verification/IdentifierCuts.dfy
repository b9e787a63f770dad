/** Where identifiers are cut and what terms they give, character by character. */
module IdentifierCuts {
  import opened Text
  import opened IdentifierTerms

  predicate Capital(c: char) {
    'A' <= c <= 'Z'
  }

  predicate Numeral(c: char) {
    '0' <= c <= '9'
  }

  /** A small letter, or any other alphanumeric beyond ASCII. */
  predicate Small(u: Unicode, c: char) {
    'a' <= c <= 'z' || ((c as int) >= 128 && u.other(c))
  }

  predicate Alphanumeric(u: Unicode, c: char) {
    Capital(c) || Numeral(c) || Small(u, c)
  }

  /** A chunk is cut at a new hump, between a letter and a digit, and before the last of several capitals that starts a word. */
  predicate CutBefore(u: Unicode, chunk: string, i: nat)
    requires 0 < i < |chunk|
  {
    || (Small(u, chunk[i - 1]) && Capital(chunk[i]))
    || Numeral(chunk[i - 1]) != Numeral(chunk[i])
    || (Capital(chunk[i - 1]) && Capital(chunk[i]) && i + 1 < |chunk| && Small(u, chunk[i + 1]))
  }

  predicate AllAlphanumeric(u: Unicode, chunk: string) {
    forall k | 0 <= k < |chunk| :: Alphanumeric(u, chunk[k])
  }

  lemma SolidMeans(u: Unicode, chunk: string)
    ensures Solid(u, chunk) <==> AllAlphanumeric(u, chunk)
  {
    assert forall k | 0 <= k < |chunk| :: ClassAt(u, chunk, k) != Boundary <==> Alphanumeric(u, chunk[k]);
  }

  lemma CutAtMeans(u: Unicode, chunk: string, i: nat)
    requires AllAlphanumeric(u, chunk) && 0 < i < |chunk|
    ensures CutAt(u, chunk, i) <==> CutBefore(u, chunk, i)
  {
    assert Alphanumeric(u, chunk[i - 1]) && Alphanumeric(u, chunk[i]);
    assert i + 1 < |chunk| ==> Alphanumeric(u, chunk[i + 1]);
  }

  /** A part starts at an offset exactly when the text before some cut is that long, in lower case. */
  lemma PartsStartAtCuts(u: Unicode, chunk: string, offset: nat)
    requires AllAlphanumeric(u, chunk) && 0 < offset < |Lowered(u, chunk)|
    ensures StartsAt(Parts(u, chunk), offset) <==>
      exists i | 0 < i < |chunk| :: CutBefore(u, chunk, i) && offset == |Lowered(u, chunk[..i])|
  {
    SolidMeans(u, chunk);
    SplittingPartitions(u, chunk);
    hide Lowered, CutAt, StartsAt, CutBefore, Parts;
    forall i | 0 < i < |chunk| ensures CutAt(u, chunk, i) <==> CutBefore(u, chunk, i) { CutAtMeans(u, chunk, i); }
    assert StartsAt(Parts(u, chunk), offset) <==> CutOffset(u, chunk, offset);
  }

  // ----- ASCII

  predicate AsciiChunk(chunk: string) {
    forall k | 0 <= k < |chunk| :: IsLetter(chunk[k]) || IsDigit(chunk[k])
  }

  lemma {:induction false} LoweredAscii(u: Unicode, s: string)
    requires forall k | 0 <= k < |s| :: IsAscii(s[k])
    ensures Lowered(u, s) == Lower(s)
  {
    if s != "" {
      LoweredAscii(u, s[1..]);
      assert Lower(s) == [LowerChar(s[0])] + Lower(s[1..]);
    }
  }

  lemma AsciiLength(u: Unicode, chunk: string, i: nat)
    requires AsciiChunk(chunk) && i <= |chunk|
    ensures |Lowered(u, chunk[..i])| == i
  {
    LoweredAscii(u, chunk[..i]);
  }

  /** For ASCII the offsets are the indices, and the parts spell the lower-cased chunk. */
  lemma AsciiPartsStartAtCuts(u: Unicode, chunk: string)
    requires AsciiChunk(chunk)
    ensures Concat(Parts(u, chunk)) == Lower(chunk) && NoneEmpty(Parts(u, chunk))
    ensures forall i {:trigger StartsAt(Parts(u, chunk), i)} | 0 < i < |chunk| ::
              StartsAt(Parts(u, chunk), i) <==> CutBefore(u, chunk, i)
  {
    assert AllAlphanumeric(u, chunk);
    SolidMeans(u, chunk);
    SplittingPartitions(u, chunk);
    LoweredAscii(u, chunk);
    hide Lowered, StartsAt, CutBefore, Parts, AsciiChunk, AllAlphanumeric;
    forall i | 0 < i < |chunk| ensures StartsAt(Parts(u, chunk), i) <==> CutBefore(u, chunk, i) {
      PartsStartAtCuts(u, chunk, i);
      AsciiLength(u, chunk, i);
      forall j | 0 < j < |chunk| ensures |Lowered(u, chunk[..j])| == j { AsciiLength(u, chunk, j); }
    }
  }

  /** Two pieces with the one cut between them are the parts. */
  lemma TwoParts(u: Unicode, a: string, b: string)
    requires a != "" && b != "" && AsciiChunk(a + b)
    requires forall i | 0 < i < |a + b| :: CutBefore(u, a + b, i) <==> i == |a|
    ensures Parts(u, a + b) == [Lower(a), Lower(b)]
  {
    var chunk, parts := a + b, [Lower(a), Lower(b)];
    AsciiPartsStartAtCuts(u, chunk);
    TwoStart(Lower(a), Lower(b));
    TwoSpell(a, b);
    hide CutBefore, Parts, AsciiChunk, StartsAt, Concat, NoneEmpty, Lower;
    PartitionsAgree(parts, Parts(u, chunk));
  }

  lemma TwoSpell(a: string, b: string)
    ensures Concat([Lower(a), Lower(b)]) == Lower(a + b)
  {
    var none: seq<string> := [];
    var x, y := Lower(a), Lower(b);
    assert x + y == Lower(a + b);
    assert Concat(none) == "" && [y][1..] == none && Concat([y]) == y + "" == y;
    assert [x, y][1..] == [y] && Concat([x, y]) == x + Concat([y]);
  }

  lemma TwoStart(a: string, b: string)
    requires a != "" && b != ""
    ensures NoneEmpty([a, b])
    ensures forall i {:trigger StartsAt([a, b], i)} | 0 < i < |a| + |b| :: StartsAt([a, b], i) <==> i == |a|
  {
    forall i | 0 < i < |a| + |b| ensures StartsAt([a, b], i) <==> i == |a| {
      assert [a, b][1..] == [b] && [b][1..] == [];
      NeverStartsInNothing(i - |a| - |b|);
    }
  }

  predicate AllSmall(s: string) {
    forall k | 0 <= k < |s| :: 'a' <= s[k] <= 'z'
  }

  predicate AllCapitals(s: string) {
    forall k | 0 <= k < |s| :: Capital(s[k])
  }

  /** `userName` is `user` and `name`. */
  lemma CamelCaseSplits(u: Unicode, word: string, capital: char, rest: string)
    requires word != "" && AllSmall(word) && Capital(capital) && AllSmall(rest)
    ensures Parts(u, word + ([capital] + rest)) == [word, Lower([capital] + rest)]
  {
    var hump := [capital] + rest;
    var chunk := word + hump;
    assert forall k | 0 <= k < |chunk| ::
        if k < |word| then chunk[k] == word[k] else if k == |word| then chunk[k] == capital else chunk[k] == rest[k - |word| - 1];
    assert Lower(word) == word;
    TwoParts(u, word, hump);
  }

  /** `HTTPServer` is `http` and `server`. */
  lemma CapitalsBeforeAWordSplit(u: Unicode, capitals: string, capital: char, rest: string)
    requires capitals != "" && AllCapitals(capitals) && Capital(capital) && rest != "" && AllSmall(rest)
    ensures Parts(u, capitals + ([capital] + rest)) == [Lower(capitals), Lower([capital] + rest)]
  {
    var word := [capital] + rest;
    var chunk := capitals + word;
    assert forall k | 0 <= k < |chunk| ::
        if k < |capitals| then chunk[k] == capitals[k]
        else if k == |capitals| then chunk[k] == capital else chunk[k] == rest[k - |capitals| - 1];
    TwoParts(u, capitals, word);
  }

  /** `sha256` is `sha` and `256`. */
  lemma DigitsSplit(u: Unicode, word: string, digits: string)
    requires word != "" && AllSmall(word) && digits != "" && forall k | 0 <= k < |digits| :: Numeral(digits[k])
    ensures Parts(u, word + digits) == [word, digits]
  {
    var chunk := word + digits;
    assert forall k | 0 <= k < |chunk| :: if k < |word| then chunk[k] == word[k] else chunk[k] == digits[k - |word|];
    assert Lower(word) == word && Lower(digits) == digits;
    TwoParts(u, word, digits);
  }

  // ----- Tokens and texts

  /** A token gives its lower-case form, its parts, and of two parts or more their first characters; nothing else. */
  lemma TokenGives(u: Unicode, token: string, t: string)
    requires token != ""
    ensures var parts := Parts(u, token);
      t in TokenTerms(u, token) <==>
        || t == (if forall c | c in token :: (c as int) < 128 then Lower(token) else u.lowerToken(token))
        || t in parts
        || (|parts| >= 2 && |t| == |parts| && forall k | 0 <= k < |t| :: parts[k] != "" && t[k] == parts[k][0])
  {
    UnderscoresAreBoundaries(u, token);
    NonePartEmpty(u, token, 0);
    InitialsOfParts(Parts(u, token));
    hide Parts, TokenParts, Initials, NoneEmpty;
    var parts := Parts(u, token);
    if |parts| >= 2 && |t| == |parts| && forall k | 0 <= k < |t| :: parts[k] != "" && t[k] == parts[k][0] {
      assert t == Initials(parts);
    }
  }

  predicate InWord(u: Unicode, c: char) {
    Alphanumeric(u, c) || c == '_'
  }

  /** `text[i..j]` is a token: characters of words, with none before or after. */
  predicate IsToken(u: Unicode, text: string, i: nat, j: nat) {
    && i < j <= |text|
    && (forall k | i <= k < j :: InWord(u, text[k]))
    && (i > 0 ==> !InWord(u, text[i - 1]))
    && (j < |text| ==> !InWord(u, text[j]))
  }

  /** Some token of `text[from..]` gives the term. */
  ghost predicate GivenFrom(u: Unicode, text: string, from: nat, t: string) {
    exists a: nat, b: nat :: from <= a && IsToken(u, text, a, b) && t in TokenTerms(u, text[a..b])
  }

  /** `text[start..i]` has been read into the current token. */
  lemma {:induction false} TermsFromTokens(u: Unicode, text: string, start: nat, i: nat, t: string)
    requires start <= i <= |text|
    requires (start > 0 ==> !InWord(u, text[start - 1])) && forall k | start <= k < i :: InWord(u, text[k])
    ensures t in TermsFrom(u, text, i, text[start..i]) <==> GivenFrom(u, text, start, t)
    decreases |text| - i
  {
    assert i < |text| ==> (InToken(u, text[i]) <==> InWord(u, text[i]));
    hide TokenTerms, GivenFrom, InWord, InToken;
    if i == |text| || !InWord(u, text[i]) {
      TokenEndsHere(u, text, start, i, t);
      if i < |text| {
        assert text[i + 1..i + 1] == "";
        TermsFromTokens(u, text, i + 1, i + 1, t);
      }
    } else {
      assert text[start..i] + [text[i]] == text[start..i + 1];
      TermsFromTokens(u, text, start, i + 1, t);
    }
  }

  lemma NoTermsOfNothing(u: Unicode)
    ensures TokenTerms(u, "") == {}
  {
  }

  lemma TokenHere(u: Unicode, text: string, start: nat, i: nat, a: nat, b: nat)
    requires start <= i <= |text| && (i < |text| ==> !InWord(u, text[i]))
    requires (start > 0 ==> !InWord(u, text[start - 1])) && forall k | start <= k < i :: InWord(u, text[k])
    requires start <= a <= i && IsToken(u, text, a, b)
    ensures a == start && b == i
  {
    hide InWord;
  }

  /** The tokens from `start` on are the one that ends at `i`, if there is one, and those after it. */
  lemma TokenEndsHere(u: Unicode, text: string, start: nat, i: nat, t: string)
    requires start <= i <= |text| && (i < |text| ==> !InWord(u, text[i]))
    requires (start > 0 ==> !InWord(u, text[start - 1])) && forall k | start <= k < i :: InWord(u, text[k])
    ensures GivenFrom(u, text, start, t) <==>
      t in TokenTerms(u, text[start..i]) || (i < |text| && GivenFrom(u, text, i + 1, t))
  {
    hide InWord, TokenTerms;
    if GivenFrom(u, text, start, t) {
      var a: nat, b: nat :| start <= a && IsToken(u, text, a, b) && t in TokenTerms(u, text[a..b]);
      if a <= i { TokenHere(u, text, start, i, a, b); }
    }
    if start == i {
      NoTermsOfNothing(u);
      assert text[start..i] == "";
    } else {
      assert IsToken(u, text, start, i);
    }
  }

  /** A text gives exactly the terms of its tokens. */
  lemma TextGives(u: Unicode, text: string, t: string)
    ensures t in TextTerms(u, text) <==> exists a: nat, b: nat :: IsToken(u, text, a, b) && t in TokenTerms(u, text[a..b])
  {
    hide TokenTerms, TermsFrom, IsToken;
    assert text[0..0] == "";
    TermsFromTokens(u, text, 0, 0, t);
  }

  /** With a least length, those of its tokens' terms that are long enough. */
  lemma LongTermsAre(u: Unicode, text: string, minLen: nat, t: string)
    ensures t in LongEnough(TextTerms(u, text), minLen) <==>
      |t| >= minLen && exists a: nat, b: nat :: IsToken(u, text, a, b) && t in TokenTerms(u, text[a..b])
  {
    TextGives(u, text, t);
    hide TextTerms, IsToken, TokenTerms;
  }
}
