/** Account identifiers of Windows in their printed form (section 2.4.2.1 of MS-DTYP). */
module AccountSid {
  import opened Prelude
  import opened Text
  import opened Decimal

  // ----- Splitting

  /** The pieces between the characters that `separator` selects; always one at least. */
  function Split(s: string, separator: char -> bool): (parts: seq<string>)
    ensures parts != []
  {
    if s == "" then [""]
    else
      var rest := Split(s[1..], separator);
      if separator(s[0]) then [""] + rest else [[s[0]] + rest[0]] + rest[1..]
  }

  predicate Free(s: string, separator: char -> bool) {
    forall k | 0 <= k < |s| :: !separator(s[k])
  }

  lemma {:induction false} SplitFree(s: string, separator: char -> bool)
    requires Free(s, separator)
    ensures Split(s, separator) == [s]
  {
    if s != "" {
      SplitFree(s[1..], separator);
      assert [s[0]] + s[1..] == s;
    }
  }

  lemma {:induction false} SplitFirst(first: string, c: char, rest: string, separator: char -> bool)
    requires Free(first, separator) && separator(c)
    ensures Split(first + [c] + rest, separator) == [first] + Split(rest, separator)
  {
    var s := first + [c] + rest;
    if first == "" {
      assert s[1..] == rest;
    } else {
      assert s[0] == first[0] && s[1..] == first[1..] + [c] + rest;
      SplitFirst(first[1..], c, rest, separator);
      assert [s[0]] + first[1..] == first;
      assert ([first[1..]] + Split(rest, separator))[1..] == Split(rest, separator);
    }
  }

  function Join(parts: seq<string>, c: char): string {
    if parts == [] then ""
    else if |parts| == 1 then parts[0]
    else parts[0] + [c] + Join(parts[1..], c)
  }

  lemma {:induction false} SplitOfJoin(parts: seq<string>, c: char, separator: char -> bool)
    requires parts != [] && separator(c) && forall k | 0 <= k < |parts| :: Free(parts[k], separator)
    ensures Split(Join(parts, c), separator) == parts
    decreases parts
  {
    if |parts| == 1 {
      SplitFree(parts[0], separator);
    } else {
      SplitFirst(parts[0], c, Join(parts[1..], c), separator);
      SplitOfJoin(parts[1..], c, separator);
      assert parts == [parts[0]] + parts[1..];
    }
  }

  lemma {:induction false} JoinOfSplit(s: string, c: char, separator: char -> bool)
    requires separator(c) && forall x | separator(x) :: x == c
    ensures Join(Split(s, separator), c) == s
  {
    if s != "" {
      var rest := Split(s[1..], separator);
      JoinOfSplit(s[1..], c, separator);
      if s[0] == c {
        assert ([""] + rest)[1..] == rest;
        assert s == "" + [c] + s[1..];
      } else {
        var parts := [[s[0]] + rest[0]] + rest[1..];
        assert parts[1..] == rest[1..];
        assert s == [s[0]] + s[1..];
        if |rest| > 1 {
          assert [s[0]] + (rest[0] + [c] + Join(rest[1..], c)) == ([s[0]] + rest[0]) + [c] + Join(rest[1..], c);
        }
      }
    }
  }

  // ----- Identifiers

  const U32_MAX: nat := 0xFFFF_FFFF
  const U48_MAX: nat := 0xFFFF_FFFF_FFFF
  const U64_MAX: nat := 0xFFFF_FFFF_FFFF_FFFF

  datatype Sid = Sid(authority: nat, subauthorities: seq<nat>)

  /** A 48-bit authority and 1 to 15 subauthorities of 32 bits. */
  predicate IsSid(sid: Sid) {
    && sid.authority <= U48_MAX
    && 1 <= |sid.subauthorities| <= 15
    && forall k | 0 <= k < |sid.subauthorities| :: sid.subauthorities[k] <= U32_MAX
  }

  function Components(sid: Sid): (parts: seq<string>)
    ensures |parts| == |sid.subauthorities| + 1
  {
    [Print(sid.authority)]
    + seq(|sid.subauthorities|, k requires 0 <= k < |sid.subauthorities| => Print(sid.subauthorities[k]))
  }

  function PrintSid(sid: Sid): string {
    "S-1-" + Join(Components(sid), '-')
  }

  function ParseU64(digits: string): Option<nat>
    requires AllDigits(digits)
  {
    if digits != "" && Value(digits) <= U64_MAX then Some(Value(digits)) else None
  }

  predicate IsDash(c: char) {
    c == '-'
  }

  predicate ValidComponent(value: string, index: nat) {
    && value != ""
    && AllDigits(value)
    && (|value| == 1 || value[0] != '0')
    && ParseU64(value).Some?
    && ParseU64(value).value <= if index == 0 then U48_MAX else U32_MAX
  }

  predicate ValidComponents(components: seq<string>) {
    2 <= |components| <= 16 && forall index | 0 <= index < |components| :: ValidComponent(components[index], index)
  }

  predicate ValidateSid(sid: string) {
    && "S-1-" <= sid
    && var parts := Split(sid[4..], IsDash);
       ValidComponents(if |parts| > 17 then parts[..17] else parts)
  }

  lemma ValidComponentsArePrinted(value: string, index: nat)
    ensures ValidComponent(value, index) <==>
      exists n: nat :: n <= (if index == 0 then U48_MAX else U32_MAX) && value == Print(n)
  {
    if ValidComponent(value, index) {
      PrintOfValue(value);
    }
    if n: nat :| n <= (if index == 0 then U48_MAX else U32_MAX) && value == Print(n) {
      ValueOfPrint(n);
      assert value == Print(n);
    }
  }

  lemma DigitsAreFree(n: nat)
    ensures Free(Print(n), IsDash)
  {
  }

  lemma ComponentsOfPrinted(sid: Sid)
    ensures Split(Join(Components(sid), '-'), IsDash) == Components(sid)
  {
    var parts := Components(sid);
    forall k | 0 <= k < |parts| ensures Free(parts[k], IsDash) {
      DigitsAreFree(if k == 0 then sid.authority else sid.subauthorities[k - 1]);
    }
    SplitOfJoin(parts, '-', IsDash);
  }

  lemma PrintedIsValid(sid: Sid)
    requires IsSid(sid)
    ensures ValidateSid(PrintSid(sid))
  {
    var parts, printed := Components(sid), PrintSid(sid);
    assert printed[4..] == Join(parts, '-');
    ComponentsOfPrinted(sid);
    forall index | 0 <= index < |parts| ensures ValidComponent(parts[index], index) {
      var n := if index == 0 then sid.authority else sid.subauthorities[index - 1];
      assert parts[index] == Print(n);
      ValidComponentsArePrinted(parts[index], index);
    }
  }

  lemma SidOfComponents(parts: seq<string>) returns (sid: Sid)
    requires ValidComponents(parts)
    ensures IsSid(sid) && Components(sid) == parts
  {
    hide Value, Print, ValidComponent;
    forall k | 0 <= k < |parts|
      ensures AllDigits(parts[k]) && Print(Value(parts[k])) == parts[k]
      ensures Value(parts[k]) <= if k == 0 then U48_MAX else U32_MAX
    {
      ValueOfComponent(parts[k], k);
    }
    sid := Sid(Value(parts[0]), seq(|parts| - 1, k requires 0 <= k < |parts| - 1 => Value(parts[k + 1])));
    hide AllDigits;
    forall k | 0 <= k < |parts| ensures Components(sid)[k] == parts[k] {
      if k > 0 { assert sid.subauthorities[k - 1] == Value(parts[k]); }
    }
  }

  lemma ValidIsPrinted(s: string) returns (sid: Sid)
    requires ValidateSid(s)
    ensures IsSid(sid) && PrintSid(sid) == s
  {
    hide Split, ValidComponent, IsSid, Components, Join;
    var parts := Split(s[4..], IsDash);
    assert |parts| <= 16;
    sid := SidOfComponents(parts);
    JoinOfSplit(s[4..], '-', IsDash);
    assert s == "S-1-" + s[4..];
  }

  lemma ValueOfComponent(value: string, index: nat)
    requires ValidComponent(value, index)
    ensures AllDigits(value) && Print(Value(value)) == value
    ensures Value(value) <= if index == 0 then U48_MAX else U32_MAX
  {
    PrintOfValue(value);
  }

  /** Validation accepts exactly the printed identifiers. */
  lemma ValidSidsArePrinted(s: string)
    ensures ValidateSid(s) <==> exists sid :: IsSid(sid) && PrintSid(sid) == s
  {
    if ValidateSid(s) {
      var sid := ValidIsPrinted(s);
    }
    if sid :| IsSid(sid) && PrintSid(sid) == s {
      PrintedIsValid(sid);
    }
  }

  /** A hyphen and the decimal notation of every number. */
  function Dashed(numbers: seq<nat>): string {
    if numbers == [] then "" else "-" + Print(numbers[0]) + Dashed(numbers[1..])
  }

  lemma {:induction false} JoinIsDashed(authority: nat, numbers: seq<nat>)
    ensures Join(Components(Sid(authority, numbers)), '-') == Print(authority) + Dashed(numbers)
    decreases numbers
  {
    var parts := Components(Sid(authority, numbers));
    if numbers != [] {
      JoinIsDashed(numbers[0], numbers[1..]);
      assert parts[1..] == Components(Sid(numbers[0], numbers[1..]));
    }
  }

  /** Written out: a 48-bit number and one to fifteen 32-bit numbers, in decimal notation and with a hyphen before each. */
  lemma SidIsWritten(authority: nat, numbers: seq<nat>)
    ensures ValidateSid("S-1-" + Print(authority) + Dashed(numbers)) <==>
      && authority < 0x1_0000_0000_0000
      && 1 <= |numbers| <= 15 && forall k | 0 <= k < |numbers| :: numbers[k] < 0x1_0000_0000
  {
    hide ValidateSid, Print, Components, Join, Dashed;
    var sid := Sid(authority, numbers);
    JoinIsDashed(authority, numbers);
    assert "S-1-" + Print(authority) + Dashed(numbers) == PrintSid(sid);
    if ValidateSid(PrintSid(sid)) {
      var other := ValidIsPrinted(PrintSid(sid));
      PrintSidIsInjective(sid, other);
    }
    if IsSid(sid) { PrintedIsValid(sid); }
  }

  lemma ValidIsWritten(s: string) returns (authority: nat, numbers: seq<nat>)
    requires ValidateSid(s)
    ensures s == "S-1-" + Print(authority) + Dashed(numbers)
  {
    hide ValidateSid, Print, Components, Join, Dashed;
    var sid := ValidIsPrinted(s);
    authority, numbers := sid.authority, sid.subauthorities;
    JoinIsDashed(authority, numbers);
    assert "S-1-" + (Print(authority) + Dashed(numbers)) == "S-1-" + Print(authority) + Dashed(numbers);
  }

  /** Two identifiers never print alike. */
  lemma PrintSidIsInjective(a: Sid, b: Sid)
    requires PrintSid(a) == PrintSid(b)
    ensures a == b
  {
    var x, y := Components(a), Components(b);
    assert PrintSid(a)[4..] == Join(x, '-') && PrintSid(b)[4..] == Join(y, '-');
    ComponentsOfPrinted(a);
    ComponentsOfPrinted(b);
    assert x == y;
    assert x[0] == Print(a.authority) && y[0] == Print(b.authority);
    PrintIsInjective(a.authority, b.authority);
    forall k | 0 <= k < |a.subauthorities| ensures a.subauthorities[k] == b.subauthorities[k] {
      assert x[k + 1] == Print(a.subauthorities[k]) && y[k + 1] == Print(b.subauthorities[k]);
      PrintIsInjective(a.subauthorities[k], b.subauthorities[k]);
    }
  }

  /** Printed identifiers have no lower-case letters and none of the characters a path could lose. */
  lemma SidCharacters(s: string)
    requires ValidateSid(s)
    ensures |s| > 4 && forall k | 0 <= k < |s| :: s[k] == 'S' || s[k] == '-' || IsDigit(s[k])
    ensures IsDigit(s[|s| - 1])
  {
    hide ValidateSid, Join, Print, AllDigits;
    var sid := ValidIsPrinted(s);
    var parts := Components(sid);
    JoinCharacters(parts);
    var tail := Join(parts, '-');
    forall k | 0 <= k < |s| ensures s[k] == 'S' || s[k] == '-' || IsDigit(s[k]) {
      if k >= 4 { assert s[k] == tail[k - 4]; }
    }
    assert s[|s| - 1] == tail[|tail| - 1];
  }

  lemma {:induction false} JoinCharacters(parts: seq<string>)
    requires parts != [] && forall k | 0 <= k < |parts| :: parts[k] != "" && AllDigits(parts[k])
    ensures var s := Join(parts, '-');
      s != "" && IsDigit(s[|s| - 1]) && forall k | 0 <= k < |s| :: s[k] == '-' || IsDigit(s[k])
    decreases parts
  {
    if |parts| > 1 { JoinCharacters(parts[1..]); }
  }
}
