/** The reserved data directory of a Windows account, and how an account is recovered from a path. */
module WindowsDataPath {
  import opened Prelude
  import opened Text
  import opened AccountSid

  const VOLUME: string := "D:"
  const APP_DIR_NAME: string := "relay-knowledge"

  datatype PathError = InvalidSid | NotALocalDrive | Disguised

  predicate IsSeparator(c: char) {
    c == '/' || c == '\\'
  }

  /** The directory as `PathBuf::join` spells it; the separator is the platform's. */
  function DirectoryName(sid: string, separator: char): string {
    VOLUME + "/" + (APP_DIR_NAME + [separator] + ("users" + [separator] + (sid + [separator] + "data")))
  }

  function DataDirectory(sid: string, separator: char): Result<string, PathError> {
    if ValidateSid(sid) then Ok(DirectoryName(sid, separator)) else Err(InvalidSid)
  }

  // ----- Recovering the account

  /** The text without the extended-length prefix `\\?\`. */
  function Native(path: string): string {
    if "\\\\?\\" <= path then path[4..] else path
  }

  predicate ColonSecond(native: string) {
    |native| > 1 && IsAscii(native[0]) && native[1] == ':'
  }

  predicate SameIgnoringCase(a: string, b: string) {
    Lower(a) == Lower(b)
  }

  function NonEmptyParts(parts: seq<string>): seq<string> {
    if parts == [] then []
    else (if parts[0] == "" then [] else [parts[0]]) + NonEmptyParts(parts[1..])
  }

  predicate ShortRootAlias(native: string) {
    && |native| >= 2 && SameIgnoringCase(native[..2], VOLUME)
    && var parts := NonEmptyParts(Split(native, IsSeparator));
       |parts| > 1 && '~' in parts[1]
  }

  predicate DisguisedPart(part: string) {
    part == ".." || (part != "." && part != "" && part[|part| - 1] in " .")
  }

  /** Network, device and volume names. */
  predicate Remote(path: string) {
    var native := Native(path);
    && ("\\\\" <= path || "//" <= path)
    && !("\\\\?\\" <= path && ColonSecond(native) && IsLetter(native[0]))
  }

  predicate IsDisguised(path: string) {
    var native := Native(path);
    && (ColonSecond(native) || "\\\\" <= native)
    && (|| ShortRootAlias(native)
        || "\\\\.\\" <= native
        || exists k | 0 <= k < |Split(native, IsSeparator)| :: DisguisedPart(Split(native, IsSeparator)[k]))
  }

  function Named(parts: seq<string>): seq<string> {
    if parts == [] then []
    else (if parts[0] == "" || parts[0] == "." then [] else [parts[0]]) + Named(parts[1..])
  }

  /** The components that name something. */
  function NamedComponents(path: string): seq<string> {
    Named(Split(Native(path), IsSeparator))
  }

  function SidFromPath(path: string): Result<Option<string>, PathError> {
    if Remote(path) then Err(NotALocalDrive)
    else if IsDisguised(path) then Err(Disguised)
    else
      var all := NamedComponents(path);
      var components := if |all| > 6 then all[..6] else all;
      if |components| != 5 then Ok(None)
      else if !SameIgnoringCase(components[0], VOLUME) || !SameIgnoringCase(components[1], APP_DIR_NAME)
              || !SameIgnoringCase(components[2], "users") || !SameIgnoringCase(components[4], "data")
      then Ok(None)
      else
        var sid := Upper(components[3]);
        if ValidateSid(sid) then Ok(Some(sid)) else Err(InvalidSid)
  }

  // ----- What the recovered account means

  function LowerAll(parts: seq<string>): (r: seq<string>)
    ensures |r| == |parts| && forall k {:trigger r[k]} | 0 <= k < |parts| :: r[k] == Lower(parts[k])
  {
    seq(|parts|, k requires 0 <= k < |parts| => Lower(parts[k]))
  }

  /** The path up to separators, case, empty and `.` components and the extended-length prefix. */
  function Normalised(path: string): seq<string> {
    LowerAll(NamedComponents(path))
  }

  lemma UpperIsLower(a: string, s: string)
    requires Upper(s) == s
    ensures Upper(a) == s <==> Lower(a) == Lower(s)
  {
    if Upper(a) == s {
      forall k | 0 <= k < |a| ensures Lower(a)[k] == Lower(s)[k] {
        assert s[k] == UpperChar(a[k]);
      }
    }
    if Lower(a) == Lower(s) {
      assert |a| == |Lower(a)| == |s|;
      forall k | 0 <= k < |a| ensures Upper(a)[k] == s[k] {
        assert Lower(a)[k] == Lower(s)[k] && Upper(s)[k] == s[k];
      }
    }
  }

  lemma SidIsUpper(s: string)
    requires ValidateSid(s)
    ensures Upper(s) == s
  {
    SidCharacters(s);
  }

  predicate Layout(parts: seq<string>, sid: string) {
    && |parts| == 5
    && SameIgnoringCase(parts[0], VOLUME) && SameIgnoringCase(parts[1], APP_DIR_NAME)
    && SameIgnoringCase(parts[2], "users") && SameIgnoringCase(parts[3], sid)
    && SameIgnoringCase(parts[4], "data")
  }

  lemma LayoutIsNormalised(parts: seq<string>, sid: string)
    ensures Layout(parts, sid) <==> LowerAll(parts) == LowerAll([VOLUME, APP_DIR_NAME, "users", sid, "data"])
  {
    hide Lower;
    var names := [VOLUME, APP_DIR_NAME, "users", sid, "data"];
    if |parts| == 5 {
      var a, b := LowerAll(parts), LowerAll(names);
      assert forall k | 0 <= k < 5 :: a[k] == Lower(parts[k]) && b[k] == Lower(names[k]);
      assert Layout(parts, sid) <==> a[0] == b[0] && a[1] == b[1] && a[2] == b[2] && a[3] == b[3] && a[4] == b[4];
    }
  }

  lemma RecoveredMeansLayout(path: string, sid: string)
    ensures SidFromPath(path) == Ok(Some(sid)) <==>
      !Remote(path) && !IsDisguised(path) && ValidateSid(sid) && Layout(NamedComponents(path), sid)
  {
    hide Remote, IsDisguised, NamedComponents, ValidateSid, Lower, Upper;
    var parts := NamedComponents(path);
    if ValidateSid(sid) {
      SidIsUpper(sid);
      if |parts| == 5 { UpperIsLower(parts[3], sid); }
    }
  }

  // ----- The printed directory

  lemma NamesAreFree()
    ensures Free(VOLUME, IsSeparator) && Free(APP_DIR_NAME, IsSeparator)
    ensures Free("users", IsSeparator) && Free("data", IsSeparator)
  {
  }

  lemma SplitDirectory(sid: string, separator: char)
    requires ValidateSid(sid) && IsSeparator(separator)
    ensures Split(DirectoryName(sid, separator), IsSeparator) == [VOLUME, APP_DIR_NAME, "users", sid, "data"]
  {
    hide ValidateSid, Split;
    SidCharacters(sid);
    NamesAreFree();
    assert Free(sid, IsSeparator);
    var three := sid + [separator] + "data";
    var two := "users" + [separator] + three;
    var one := APP_DIR_NAME + [separator] + two;
    hide Free;
    SplitFree("data", IsSeparator);
    SplitFirst(sid, separator, "data", IsSeparator);
    SplitFirst("users", separator, three, IsSeparator);
    SplitFirst(APP_DIR_NAME, separator, two, IsSeparator);
    SplitFirst(VOLUME, '/', one, IsSeparator);
  }

  lemma {:induction false} NamedKeeps(parts: seq<string>)
    requires forall k | 0 <= k < |parts| :: parts[k] != "" && parts[k] != "."
    ensures Named(parts) == parts && NonEmptyParts(parts) == parts
  {
    if parts != [] {
      NamedKeeps(parts[1..]);
      assert [parts[0]] + parts[1..] == parts;
    }
  }

  lemma DrivePathsAreLocal(path: string)
    requires |path| > 1 && path[0] == 'D'
    ensures Native(path) == path && !Remote(path) && !("\\\\.\\" <= path)
  {
  }

  lemma DirectoryParts(sid: string)
    requires ValidateSid(sid)
    ensures var parts := [VOLUME, APP_DIR_NAME, "users", sid, "data"];
      Named(parts) == parts && NonEmptyParts(parts) == parts && forall k | 0 <= k < 5 :: !DisguisedPart(parts[k])
  {
    hide ValidateSid, Named, NonEmptyParts;
    var parts := [VOLUME, APP_DIR_NAME, "users", sid, "data"];
    assert !DisguisedPart(sid) && |sid| > 4 by { SidCharacters(sid); }
    assert !DisguisedPart(VOLUME) && !DisguisedPart("users") && !DisguisedPart("data");
    assert !DisguisedPart(APP_DIR_NAME) by { assert APP_DIR_NAME[|APP_DIR_NAME| - 1] == 'e'; }
    hide DisguisedPart;
    NamedKeeps(parts);
  }

  /** The printed directory is neither remote nor disguised, and has the layout of its account. */
  lemma DirectoryIsPlain(sid: string, separator: char)
    requires ValidateSid(sid) && IsSeparator(separator)
    ensures var path := DirectoryName(sid, separator);
      !Remote(path) && !IsDisguised(path) && Layout(NamedComponents(path), sid)
  {
    var path := DirectoryName(sid, separator);
    assert path[0] == 'D';
    SplitDirectory(sid, separator);
    DirectoryParts(sid);
    DrivePathsAreLocal(path);
    assert '~' !in APP_DIR_NAME;
    hide ValidateSid, Split, Lower, DirectoryName, Named, NonEmptyParts, DisguisedPart, Remote, Native;
    assert !IsDisguised(path);
    assert NamedComponents(path) == [VOLUME, APP_DIR_NAME, "users", sid, "data"];
  }

  /** Printing an account's directory and reading the account back from it is the identity, for either separator. */
  lemma DirectoryGivesTheSidBack(sid: string, separator: char)
    requires ValidateSid(sid) && IsSeparator(separator)
    ensures DataDirectory(sid, separator) == Ok(DirectoryName(sid, separator))
    ensures SidFromPath(DirectoryName(sid, separator)) == Ok(Some(sid))
  {
    hide Remote, IsDisguised, NamedComponents, Layout, DirectoryName;
    DirectoryIsPlain(sid, separator);
    RecoveredMeansLayout(DirectoryName(sid, separator), sid);
  }

  /**
   * A path maps to an account exactly when it is a local, undisguised spelling of that account's directory: the same
   * after normalising separators, ASCII case, empty and `.` components and the extended-length prefix.
   */
  lemma RecoveredPathsAreTheDirectory(path: string, sid: string, separator: char)
    requires IsSeparator(separator)
    ensures SidFromPath(path) == Ok(Some(sid)) <==>
      && ValidateSid(sid) && !Remote(path) && !IsDisguised(path)
      && Normalised(path) == Normalised(DirectoryName(sid, separator))
  {
    hide Remote, IsDisguised, NamedComponents, Layout, DirectoryName, ValidateSid, SidFromPath, LowerAll;
    RecoveredMeansLayout(path, sid);
    if ValidateSid(sid) {
      DirectoryIsPlain(sid, separator);
      LayoutIsNormalised(NamedComponents(path), sid);
      LayoutIsNormalised(NamedComponents(DirectoryName(sid, separator)), sid);
    }
  }

  /** Directories of different accounts stay different even up to normalisation. */
  lemma DirectoriesDoNotCollide(a: string, b: string, separator: char, other: char)
    requires ValidateSid(a) && ValidateSid(b) && IsSeparator(separator) && IsSeparator(other)
    requires Normalised(DirectoryName(a, separator)) == Normalised(DirectoryName(b, other))
    ensures a == b
  {
    hide Normalised, DirectoryName, ValidateSid, SidFromPath;
    DirectoryIsPlain(a, separator);
    DirectoryGivesTheSidBack(a, separator);
    RecoveredPathsAreTheDirectory(DirectoryName(a, separator), b, other);
  }
}
