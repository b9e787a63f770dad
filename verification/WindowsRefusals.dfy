/** Which Windows paths are refused, and which spell an account's directory, in terms of their characters. */
module WindowsRefusals {
  import opened Prelude
  import opened Text
  import opened AccountSid
  import opened WindowsDataPath

  predicate IsSlash(c: char) {
    c == '/' || c == '\\'
  }

  // ----- Pieces between separators

  /** The length of the text before the first separator. */
  function FirstPiece(s: string): (n: nat)
    ensures n <= |s| && (n < |s| ==> IsSlash(s[n])) && forall k | 0 <= k < n :: !IsSlash(s[k])
  {
    if s == "" || IsSlash(s[0]) then 0 else 1 + FirstPiece(s[1..])
  }

  lemma {:induction false} FirstPieceIs(s: string, n: nat)
    requires n <= |s| && (n < |s| ==> IsSlash(s[n])) && forall k | 0 <= k < n :: !IsSlash(s[k])
    ensures FirstPiece(s) == n
  {
    if n > 0 { FirstPieceIs(s[1..], n - 1); }
  }

  lemma FirstPieceIsFree(s: string)
    ensures var n := FirstPiece(s);
      Free(s[..n], IsSeparator) && (n < |s| ==> IsSeparator(s[n]))
  {
  }

  lemma SplitStart(s: string)
    ensures var n := FirstPiece(s);
      Split(s, IsSeparator) == if n < |s| then [s[..n]] + Split(s[n + 1..], IsSeparator) else [s[..n]]
  {
    var n := FirstPiece(s);
    FirstPieceIsFree(s);
    var first := s[..n];
    if n < |s| {
      var c, rest := s[n], s[n + 1..];
      CutAt(s, n);
      hide *;
      SplitFirst(first, c, rest, IsSeparator);
    } else {
      assert first == s;
      hide *;
      SplitFree(first, IsSeparator);
    }
  }

  lemma CutAt(s: string, n: nat)
    requires n < |s|
    ensures s[..n] + [s[n]] + s[n + 1..] == s
  {
  }

  /** Some piece that ends before index `j` does so with a period or a space, and is not a lone period. */
  predicate BadEnd(s: string, j: int) {
    && 0 < j <= |s| && (j < |s| ==> IsSlash(s[j]))
    && (s[j - 1] == ' ' || (s[j - 1] == '.' && j > 1 && !IsSlash(s[j - 2])))
  }

  ghost predicate HasBadEnd(s: string) {
    exists j :: BadEnd(s, j)
  }

  predicate HasDisguised(parts: seq<string>) {
    exists k | 0 <= k < |parts| :: DisguisedPart(parts[k])
  }

  lemma PieceEnds(part: string)
    requires forall k | 0 <= k < |part| :: !IsSlash(part[k])
    ensures DisguisedPart(part) <==> BadEnd(part, |part|)
  {
    if |part| == 1 { assert part == [part[0]]; }
  }

  lemma BadEndIsInside(s: string, j: int)
    requires BadEnd(s, j)
    ensures 0 < j <= |s|
  {
  }

  lemma BadEndFirst(s: string)
    ensures BadEnd(s, FirstPiece(s)) == BadEnd(s[..FirstPiece(s)], FirstPiece(s))
  {
    var n := FirstPiece(s);
    var first := s[..n];
    if n > 0 { assert first[n - 1] == s[n - 1]; }
    if n > 1 { assert first[n - 2] == s[n - 2]; }
  }

  lemma NoOtherBadEnd(s: string, j: int)
    requires 0 <= j <= FirstPiece(s) + 1 && j != FirstPiece(s)
    ensures !BadEnd(s, j)
  {
    if 0 < j < FirstPiece(s) { assert !IsSlash(s[j]); }
  }

  lemma BadEndAfter(s: string, n: nat, j: int)
    requires n < |s| && IsSlash(s[n]) && j > n + 1
    ensures BadEnd(s, j) == BadEnd(s[n + 1..], j - n - 1)
  {
    var rest := s[n + 1..];
    hide IsSlash;
    if j <= |s| {
      assert rest[j - n - 2] == s[j - 1];
      if j < |s| { assert rest[j - n - 1] == s[j]; }
      if j > n + 2 { assert rest[j - n - 3] == s[j - 2]; } else { assert s[j - 2] == s[n]; }
    }
  }

  lemma BadEndsAre(s: string)
    ensures var n := FirstPiece(s);
      HasBadEnd(s) == (BadEnd(s, n) || (n < |s| && HasBadEnd(s[n + 1..])))
  {
    var n := FirstPiece(s);
    hide BadEnd, FirstPiece;
    if j :| BadEnd(s, j) && j != n {
      BadEndIsInside(s, j);
      if j <= n + 1 { NoOtherBadEnd(s, j); } else { BadEndAfter(s, n, j); }
    }
    if n < |s| {
      var after := s[n + 1..];
      if i :| BadEnd(after, i) {
        BadEndIsInside(after, i);
        BadEndAfter(s, n, n + 1 + i);
        assert BadEnd(s, n + 1 + i);
      }
    }
  }

  lemma {:induction false} DisguisedPartsEnd(s: string)
    ensures HasDisguised(Split(s, IsSeparator)) == HasBadEnd(s)
    decreases |s|
  {
    var n := FirstPiece(s);
    SplitStart(s);
    PieceEnds(s[..n]);
    BadEndFirst(s);
    BadEndsAre(s);
    var parts := Split(s, IsSeparator);
    if n < |s| { DisguisedPartsEnd(s[n + 1..]); }
    hide DisguisedPart, BadEnd, Split, IsSlash, FirstPiece, HasBadEnd;
    assert parts[0] == s[..n];
    if n < |s| {
      var rest := Split(s[n + 1..], IsSeparator);
      assert forall k | 0 <= k < |rest| :: rest[k] == parts[k + 1];
    }
  }

  /** After separators alone, a piece that has a tilde at index `k`. */
  predicate TildeFirst(s: string, a: int, k: int) {
    && 0 <= a <= k < |s| && s[k] == '~'
    && (forall i | 0 <= i < a :: IsSlash(s[i])) && (forall i | a <= i < k :: !IsSlash(s[i]))
  }

  ghost predicate StartsWithTilde(s: string) {
    exists a, k :: TildeFirst(s, a, k)
  }

  lemma {:induction false} FirstNamedHasTilde(s: string)
    ensures var parts := NonEmptyParts(Split(s, IsSeparator));
      (parts != [] && '~' in parts[0]) <==> StartsWithTilde(s)
    decreases |s|
  {
    var n := FirstPiece(s);
    SplitStart(s);
    var parts := NonEmptyParts(Split(s, IsSeparator));
    if n == 0 && s != "" {
      FirstNamedHasTilde(s[1..]);
      if a, k :| TildeFirst(s, a, k) {
        assert a > 0;
        assert TildeFirst(s[1..], a - 1, k - 1);
      }
      if a, k :| TildeFirst(s[1..], a, k) { assert TildeFirst(s, a + 1, k + 1); }
    } else if n > 0 {
      assert parts[0] == s[..n];
      if '~' in s[..n] {
        var k :| 0 <= k < n && s[..n][k] == '~';
        assert TildeFirst(s, 0, k);
      }
      if a, k :| TildeFirst(s, a, k) {
        assert a == 0 && k < n;
        assert s[..n][k] == '~';
      }
    }
  }

  /** A drive D whose first directory has a tilde: text, separators, and a piece with the tilde. */
  predicate ShortAlias(native: string, n: int, a: int, k: int) {
    && |native| >= 2 && (native[0] == 'D' || native[0] == 'd') && native[1] == ':'
    && 2 <= n < a <= k < |native| && native[k] == '~'
    && (forall i | 0 <= i < n :: !IsSlash(native[i]))
    && (forall i | n <= i < a :: IsSlash(native[i])) && (forall i | a <= i < k :: !IsSlash(native[i]))
  }

  ghost predicate HasShortAlias(native: string) {
    exists n, a, k :: ShortAlias(native, n, a, k)
  }

  lemma DriveIs(native: string)
    requires |native| >= 2
    ensures SameIgnoringCase(native[..2], VOLUME) <==> (native[0] == 'D' || native[0] == 'd') && native[1] == ':'
  {
    var two := native[..2];
    assert Lower(two) == [LowerChar(two[0]), LowerChar(two[1])];
    assert Lower(VOLUME) == "d:";
  }

  /** The components of a text that starts with a piece, and the rest after its separator. */
  lemma NamedAfterFirst(native: string, n: nat)
    requires native != "" && n == FirstPiece(native) > 0
    ensures var parts := NonEmptyParts(Split(native, IsSeparator));
      |parts| > 1 && '~' in parts[1] <==> n < |native| && StartsWithTilde(native[n + 1..])
  {
    SplitStart(native);
    var parts := NonEmptyParts(Split(native, IsSeparator));
    assert native[..n] != "";
    if n < |native| {
      var rest := Split(native[n + 1..], IsSeparator);
      FirstNamedHasTilde(native[n + 1..]);
      assert ([native[..n]] + rest)[1..] == rest;
      assert parts == [native[..n]] + NonEmptyParts(rest);
    } else {
      assert [native[..n]][1..] == [];
    }
  }

  lemma AliasEndsPiece(native: string, m: int, a: int, k: int)
    requires ShortAlias(native, m, a, k)
    ensures m == FirstPiece(native) < |native|
  {
    FirstPieceIs(native, m);
  }

  lemma AliasIs(native: string, n: nat, m: int, a: int, k: int)
    requires |native| >= 2 && (native[0] == 'D' || native[0] == 'd') && native[1] == ':'
    requires n == FirstPiece(native)
    ensures ShortAlias(native, m, a, k) <==> m == n < |native| && TildeFirst(native[n + 1..], a - n - 1, k - n - 1)
  {
    assert n >= 2;
    if ShortAlias(native, m, a, k) { AliasEndsPiece(native, m, a, k); }
    if n < |native| {
      var rest := native[n + 1..];
      assert forall i | 0 <= i < |rest| :: rest[i] == native[n + 1 + i];
      hide FirstPiece, IsSlash;
      if ShortAlias(native, m, a, k) {
        assert rest[k - n - 1] == native[k];
        forall i | 0 <= i < a - n - 1 ensures IsSlash(rest[i]) { assert rest[i] == native[n + 1 + i]; }
        forall i | a - n - 1 <= i < k - n - 1 ensures !IsSlash(rest[i]) { assert rest[i] == native[n + 1 + i]; }
      }
      if m == n && TildeFirst(rest, a - n - 1, k - n - 1) {
        assert native[k] == rest[k - n - 1];
        forall i | n <= i < a ensures IsSlash(native[i]) {
          if i > n { assert native[i] == rest[i - n - 1]; }
        }
        forall i | a <= i < k ensures !IsSlash(native[i]) {
          assert native[i] == rest[i - n - 1];
        }
      }
    }
  }

  lemma AliasMeans(native: string)
    ensures ShortRootAlias(native) <==> HasShortAlias(native)
  {
    if |native| >= 2 {
      DriveIs(native);
      if (native[0] == 'D' || native[0] == 'd') && native[1] == ':' {
        var n := FirstPiece(native);
        assert n > 0;
        NamedAfterFirst(native, n);
        hide FirstPiece, ShortAlias, TildeFirst, SameIgnoringCase, NonEmptyParts, Split;
        if n < |native| {
          var rest := native[n + 1..];
          if a, k :| TildeFirst(rest, a, k) {
            AliasIs(native, n, n, a + n + 1, k + n + 1);
          }
        }
        if m, a, k :| ShortAlias(native, m, a, k) { AliasIs(native, n, m, a, k); }
      } else {
        hide SameIgnoringCase;
      }
    }
  }

  // ----- Refusals

  /** Two separators of one kind start a network, device or volume name, unless an extended path to a drive follows. */
  predicate NotADrive(path: string) {
    && |path| >= 2 && IsSlash(path[0]) && path[1] == path[0]
    && !(|path| >= 6 && path[..4] == "\\\\?\\" && ('a' <= path[4] <= 'z' || 'A' <= path[4] <= 'Z') && path[5] == ':')
  }

  lemma RemoteMeans(path: string)
    ensures Remote(path) <==> NotADrive(path)
  {
    assert "\\\\" <= path <==> |path| >= 2 && path[0] == '\\' && path[1] == '\\';
    assert "//" <= path <==> |path| >= 2 && path[0] == '/' && path[1] == '/';
    if "\\\\?\\" <= path {
      assert Native(path) == path[4..];
    }
  }

  /** What a path spells, without the prefix of extended paths. */
  predicate Spelling(path: string, native: string) {
    path == "\\\\?\\" + native || (path == native && !(|path| >= 4 && path[..4] == "\\\\?\\"))
  }

  /** A drive path with a piece that Windows would read as another, or with a short name for the reserved directory. */
  ghost predicate Aliased(native: string) {
    && |native| > 1 && native[0] < 128 as char && native[1] == ':'
    && (HasShortAlias(native) || HasBadEnd(native))
  }

  lemma DisguisedMeans(path: string, native: string)
    requires Spelling(path, native) && !NotADrive(path)
    ensures IsDisguised(path) == Aliased(native)
  {
    assert Native(path) == native;
    assert !("\\\\" <= native) by {
      assert |native| > 0 && path != native ==> path[4] == native[0];
      assert |native| > 1 ==> ("\\\\" <= native <==> native[0] == '\\' && native[1] == '\\');
    }
    AliasMeans(native);
    DisguisedPartsEnd(native);
    hide ShortRootAlias, DisguisedPart, HasBadEnd, HasShortAlias, NotADrive, Split;
  }

  /** A path is refused, and for which reason, exactly when its characters say so. */
  lemma RefusedPaths(path: string, native: string)
    requires Spelling(path, native)
    ensures SidFromPath(path) == Err(NotALocalDrive) <==> NotADrive(path)
    ensures SidFromPath(path) == Err(Disguised) <==> !NotADrive(path) && Aliased(native)
  {
    RemoteMeans(path);
    if !NotADrive(path) { DisguisedMeans(path, native); }
    hide Remote, IsDisguised, NamedComponents, NotADrive, Aliased, Spelling, ValidateSid, SameIgnoringCase, Upper;
  }

  // ----- Spellings of a directory

  /** Separators and `.` components name nothing, and every other piece is a component; the equations cover all texts. */
  lemma ComponentsRead(native: string, piece: string, slash: char)
    requires forall k | 0 <= k < |piece| :: !IsSlash(piece[k])
    requires IsSlash(slash)
    ensures Named(Split(piece, IsSeparator)) == if piece == "" || piece == "." then [] else [piece]
    ensures Named(Split(piece + [slash] + native, IsSeparator)) ==
      (if piece == "" || piece == "." then [] else [piece]) + Named(Split(native, IsSeparator))
  {
    SplitFree(piece, IsSeparator);
    SplitFirst(piece, slash, native, IsSeparator);
    var rest := Split(native, IsSeparator);
    assert ([piece] + rest)[1..] == rest;
    assert [piece][1..] == [];
  }

  /** Five components, the names of a reserved directory in any ASCII case around the account. */
  predicate ReservedLayout(parts: seq<string>) {
    && |parts| == 5
    && Lower(parts[0]) == "d:" && Lower(parts[1]) == "relay-knowledge" && Lower(parts[2]) == "users"
    && Lower(parts[4]) == "data"
  }

  lemma LowerLiterals()
    ensures Lower(VOLUME) == "d:" && Lower(APP_DIR_NAME) == "relay-knowledge"
    ensures Lower("users") == "users" && Lower("data") == "data"
  {
    assert Lower(VOLUME) == ['d', ':'];
    var app := Lower(APP_DIR_NAME);
    assert forall k | 0 <= k < 15 :: app[k] == LowerChar(APP_DIR_NAME[k]) == "relay-knowledge"[k];
    assert app == "relay-knowledge";
    assert Lower("users") == "users";
    assert Lower("data") == "data";
  }

  /** Every path that is not refused: no account, an invalid one, or the account its fourth component spells. */
  lemma AccountPaths(path: string, native: string)
    requires Spelling(path, native) && !NotADrive(path) && !Aliased(native)
    ensures var parts := Named(Split(native, IsSeparator));
      SidFromPath(path) == if !ReservedLayout(parts) then Ok(None)
        else if ValidateSid(Upper(parts[3])) then Ok(Some(Upper(parts[3]))) else Err(InvalidSid)
  {
    RemoteMeans(path);
    DisguisedMeans(path, native);
    assert Native(path) == native;
    LowerLiterals();
    hide Remote, IsDisguised, NotADrive, Aliased, Spelling, ValidateSid, Upper, Lower, Named, Split, Native;
  }

  /** The reserved directory of an account, written out. */
  lemma DirectoryIs(sid: string, separator: char)
    ensures DataDirectory(sid, separator) == if ValidateSid(sid)
      then Ok("D:/relay-knowledge" + [separator] + "users" + [separator] + sid + [separator] + "data")
      else Err(InvalidSid)
  {
    hide ValidateSid;
    var name := DirectoryName(sid, separator);
    var literal := "D:/relay-knowledge" + [separator] + "users" + [separator] + sid + [separator] + "data";
    assert VOLUME + "/" + (APP_DIR_NAME + [separator] + ("users" + [separator] + (sid + [separator] + "data")))
        == (VOLUME + "/" + APP_DIR_NAME) + [separator] + "users" + [separator] + sid + [separator] + "data";
    assert VOLUME + "/" + APP_DIR_NAME == "D:/relay-knowledge";
  }
}
