/**
 FNV-1a over 64-bit words (section 2 of draft-eastlake-fnv) and the shard directory names built from it.
 */
module StableHash {
  const WORD := 0x1_0000_0000_0000_0000

  /** A 64-bit word. */
  type Word = n: nat | n < WORD

  const OFFSET_BASIS: Word := 0xcbf29ce484222325
  const PRIME: Word := 0x100000001b3

  /** The inverse of the prime modulo 2^64; it exists because the prime is odd. */
  const INVERSE: Word := 0xce965057aff6957b

  type Byte = n: nat | n < 256

  /** Exclusive or of the low `width` bits. */
  function XorBits(a: nat, b: nat, width: nat): nat {
    if width == 0 then 0 else 2 * XorBits(a / 2, b / 2, width - 1) + if a % 2 == b % 2 then 0 else 1
  }

  function Power2(n: nat): nat {
    if n == 0 then 1 else 2 * Power2(n - 1)
  }

  lemma {:induction false} XorBitsUndoes(a: nat, b: nat, width: nat)
    requires a < Power2(width)
    ensures XorBits(a, b, width) < Power2(width)
    ensures XorBits(XorBits(a, b, width), b, width) == a
  {
    if width > 0 {
      XorBitsUndoes(a / 2, b / 2, width - 1);
      var x, high := XorBits(a, b, width), XorBits(a / 2, b / 2, width - 1);
      assert x / 2 == high;
    }
  }

  lemma {:induction false} XorBitsSeparates(a: nat, b: nat, c: nat, width: nat)
    requires b < Power2(width) && c < Power2(width) && XorBits(a, b, width) == XorBits(a, c, width)
    ensures b == c
  {
    if width > 0 {
      var x, y := XorBits(a, b, width), XorBits(a, c, width);
      assert x / 2 == XorBits(a / 2, b / 2, width - 1) && y / 2 == XorBits(a / 2, c / 2, width - 1);
      XorBitsSeparates(a / 2, b / 2, c / 2, width - 1);
    }
  }

  lemma SixtyFourBits()
    ensures Power2(64) == WORD
  {
    assert Power2(8) == 0x100;
    assert Power2(16) == 256 * Power2(8);
    assert Power2(24) == 256 * Power2(16);
    assert Power2(32) == 256 * Power2(24);
    assert Power2(40) == 256 * Power2(32);
    assert Power2(48) == 256 * Power2(40);
    assert Power2(56) == 256 * Power2(48);
  }

  function Xor(state: Word, byte: Byte): Word {
    SixtyFourBits();
    XorBitsUndoes(state, byte, 64);
    XorBits(state, byte, 64)
  }

  /** Multiplication that wraps around at 64 bits. */
  function WrappingMul(a: Word, b: Word): Word {
    (a * b) % WORD
  }

  function Step(state: Word, byte: Byte): Word {
    WrappingMul(Xor(state, byte), PRIME)
  }

  function Unstep(state: Word, byte: Byte): Word {
    Xor(WrappingMul(state, INVERSE), byte)
  }

  function Fold(state: Word, bytes: seq<Byte>): Word
    decreases bytes
  {
    if bytes == [] then state else Fold(Step(state, bytes[0]), bytes[1..])
  }

  function Hash(bytes: seq<Byte>): Word {
    Fold(OFFSET_BASIS, bytes)
  }

  class StableHasher64 {
    var state: Word

    constructor ()
      ensures state == OFFSET_BASIS
    {
      state := OFFSET_BASIS;
    }

    method Update(bytes: seq<Byte>)
      modifies this
      ensures state == Fold(old(state), bytes)
    {
      var k := 0;
      while k < |bytes|
        invariant 0 <= k <= |bytes|
        invariant Fold(state, bytes[k..]) == Fold(old(state), bytes)
      {
        state := Xor(state, bytes[k]);
        state := WrappingMul(state, PRIME);
        assert bytes[k..][1..] == bytes[k + 1..];
        k := k + 1;
      }
    }

    function Finish(): Word
      reads this
    {
      state
    }
  }

  method StableHash64(bytes: seq<Byte>) returns (hash: Word)
    ensures hash == Hash(bytes)
  {
    var hasher := new StableHasher64();
    hasher.Update(bytes);
    hash := hasher.Finish();
  }

  // ----- One step permutes the states

  lemma InverseCancels(x: Word)
    ensures WrappingMul(WrappingMul(x, PRIME), INVERSE) == x
    ensures WrappingMul(WrappingMul(x, INVERSE), PRIME) == x
  {
    CancelsModulo(x, PRIME, INVERSE);
    CancelsModulo(x, INVERSE, PRIME);
  }

  lemma CancelsModulo(x: Word, p: Word, q: Word)
    requires (p == PRIME && q == INVERSE) || (p == INVERSE && q == PRIME)
    ensures WrappingMul(WrappingMul(x, p), q) == x
  {
    var carry := x * p / WORD;
    var residue := WrappingMul(x, p);
    assert x * p == carry * WORD + residue;
    // p * q is one more than a multiple of 2^64
    assert residue * q == x + (0xce9650590f * x - carry * q) * WORD;
    ModulusOf(residue * q, x, 0xce9650590f * x - carry * q);
  }

  lemma ModulusOf(n: int, x: Word, multiple: int)
    requires n == x + multiple * WORD
    ensures n % WORD == x
  {
  }

  lemma XorCancels(x: Word, byte: Byte)
    ensures Xor(Xor(x, byte), byte) == x
  {
    SixtyFourBits();
    XorBitsUndoes(x, byte, 64);
  }

  lemma StepIsABijection(state: Word, byte: Byte)
    ensures Unstep(Step(state, byte), byte) == state
    ensures Step(Unstep(state, byte), byte) == state
  {
    InverseCancels(Xor(state, byte));
    InverseCancels(state);
    XorCancels(state, byte);
    XorCancels(WrappingMul(state, INVERSE), byte);
  }

  lemma StepSeparatesBytes(state: Word, a: Byte, b: Byte)
    requires a != b
    ensures Step(state, a) != Step(state, b)
  {
    hide XorBits;
    InverseCancels(Xor(state, a));
    InverseCancels(Xor(state, b));
    SixtyFourBits();
    if Xor(state, a) == Xor(state, b) { XorBitsSeparates(state, a, b, 64); }
  }

  /** Hashing a fixed input permutes the states: distinct states stay distinct, and every state is reached. */
  lemma {:induction false} FoldIsInjective(s: Word, t: Word, bytes: seq<Byte>)
    requires Fold(s, bytes) == Fold(t, bytes)
    ensures s == t
    decreases bytes
  {
    if bytes != [] {
      FoldIsInjective(Step(s, bytes[0]), Step(t, bytes[0]), bytes[1..]);
      StepIsABijection(s, bytes[0]);
      StepIsABijection(t, bytes[0]);
    }
  }

  lemma {:induction false} FoldIsSurjective(target: Word, bytes: seq<Byte>) returns (state: Word)
    ensures Fold(state, bytes) == target
    decreases bytes
  {
    if bytes == [] {
      state := target;
    } else {
      var after := FoldIsSurjective(target, bytes[1..]);
      state := Unstep(after, bytes[0]);
      StepIsABijection(after, bytes[0]);
    }
  }

  // ----- Published values

  function Shift(n: nat, bits: nat): nat {
    if bits == 0 then n else 2 * Shift(n, bits - 1)
  }

  /** Exclusive or with a small number only touches the low bits. */
  lemma {:induction false} XorLowBits(high: nat, low: nat, b: nat, bits: nat, width: nat)
    requires low < Power2(bits) && b < Power2(bits) && bits <= width && Shift(high, bits) + low < Power2(width)
    ensures XorBits(Shift(high, bits) + low, b, width) == Shift(high, bits) + XorBits(low, b, bits)
  {
    if bits == 0 {
      XorZero(high, width);
    } else {
      XorLowBits(high, low / 2, b / 2, bits - 1, width - 1);
    }
  }

  lemma {:induction false} XorZero(a: nat, width: nat)
    requires a < Power2(width)
    ensures XorBits(a, 0, width) == a
  {
    if width > 0 { XorZero(a / 2, width - 1); }
  }

  /** The 64-bit FNV-1a values of the empty input and of the letter a. */
  lemma PublishedValues()
    ensures Hash([]) == 0xcbf29ce484222325
    ensures Hash([0x61]) == 0xaf63dc4c8601ec8c
  {
    SixtyFourBits();
    assert Power2(8) == 0x100;
    assert Shift(0xcbf29ce4842223, 8) + 0x25 == OFFSET_BASIS;
    XorLowBits(0xcbf29ce4842223, 0x25, 0x61, 8, 64);
    assert XorBits(0x25, 0x61, 8) == 0x44;
    assert Xor(OFFSET_BASIS, 0x61) == 0xcbf29ce484222344;
    assert Step(OFFSET_BASIS, 0x61) == 0xaf63dc4c8601ec8c;
    assert Fold(OFFSET_BASIS, [0x61]) == Fold(Step(OFFSET_BASIS, 0x61), []);
  }

  // ----- Chunks and single-byte edits

  /** Feeding an input in pieces gives the hash of the whole. */
  lemma {:induction false} Chunks(state: Word, a: seq<Byte>, b: seq<Byte>)
    ensures Fold(state, a + b) == Fold(Fold(state, a), b)
    decreases a
  {
    if a == [] {
      assert a + b == b;
    } else {
      assert (a + b)[1..] == a[1..] + b;
      Chunks(Step(state, a[0]), a[1..], b);
    }
  }

  /** `a` and `b` have one length and differ at `i` alone. */
  predicate DifferAt(a: seq<Byte>, b: seq<Byte>, i: nat) {
    |a| == |b| && i < |a| && a[i] != b[i] && a[..i] == b[..i] && a[i + 1..] == b[i + 1..]
  }

  /** Changing one byte always changes the hash. */
  lemma OneByteEditsNeverCollide(a: seq<Byte>, b: seq<Byte>, i: nat)
    requires DifferAt(a, b, i)
    ensures Hash(a) != Hash(b)
  {
    var before := Fold(OFFSET_BASIS, a[..i]);
    assert a == a[..i] + a[i..] && b == b[..i] + b[i..];
    Chunks(OFFSET_BASIS, a[..i], a[i..]);
    Chunks(OFFSET_BASIS, b[..i], b[i..]);
    assert a[i..][1..] == a[i + 1..] && b[i..][1..] == b[i + 1..];
    StepSeparatesBytes(before, a[i], b[i]);
    if Hash(a) == Hash(b) {
      FoldIsInjective(Step(before, a[i]), Step(before, b[i]), a[i + 1..]);
      assert false;
    }
  }

  // ----- Shard directory names

  /** The UTF-8 bytes of a string. */
  function Utf8(s: string): seq<Byte> {
    if s == [] then [] else Utf8Char(s[0]) + Utf8(s[1..])
  }

  function Utf8Char(c: char): seq<Byte> {
    var n := c as int;
    if n < 0x80 then [n]
    else if n < 0x800 then [(0xC0 + n / 0x40), (0x80 + n % 0x40)]
    else if n < 0x10000 then [(0xE0 + n / 0x1000), (0x80 + n / 0x40 % 0x40), (0x80 + n % 0x40)]
    else [(0xF0 + n / 0x40000), (0x80 + n / 0x1000 % 0x40), (0x80 + n / 0x40 % 0x40), (0x80 + n % 0x40)]
  }

  predicate IsSafe(c: char) {
    'a' <= c <= 'z' || 'A' <= c <= 'Z' || '0' <= c <= '9' || c == '-' || c == '_'
  }

  function Sanitized(s: string): (r: string)
    ensures |r| == |s|
    ensures forall k | 0 <= k < |s| :: r[k] == if IsSafe(s[k]) then s[k] else '_'
  {
    seq(|s|, k requires 0 <= k < |s| => if IsSafe(s[k]) then s[k] else '_')
  }

  const HEX := "0123456789abcdef"

  /** The low `width` hexadecimal digits of a number, most significant first. */
  function Hex(n: nat, width: nat): (r: string)
    ensures |r| == width
    ensures forall c | c in r :: IsSafe(c)
  {
    assert forall d | 0 <= d < 16 :: IsSafe(HEX[d]);
    if width == 0 then "" else Hex(n / 16, width - 1) + [HEX[n % 16]]
  }

  function Hex16(word: Word): string {
    Hex(word, 16)
  }

  function ShardName(id: string): string {
    var head := Sanitized(if |id| < 48 then id else id[..48]);
    (if head == "" then "repository" else head) + "-" + Hex16(Hash(Utf8(id)))
  }

  method RepositoryShardDirName(id: string) returns (name: string)
    ensures name == ShardName(id)
  {
    hide Hash, Utf8, Hex16, Hex;
    var kept := if |id| < 48 then id else id[..48];
    var sanitized := "";
    for k := 0 to |kept|
      invariant sanitized == Sanitized(kept)[..k]
    {
      if IsSafe(kept[k]) {
        sanitized := sanitized + [kept[k]];
      } else {
        sanitized := sanitized + "_";
      }
    }
    if sanitized == "" {
      sanitized := "repository";
    }
    var hash := StableHash64(Utf8(id));
    name := sanitized + "-" + Hex16(hash);
  }

  /** Digits wide enough for the number determine it. */
  lemma {:induction false} HexIsInjective(a: nat, b: nat, width: nat)
    requires Hex(a, width) == Hex(b, width) && a < Power16(width) && b < Power16(width)
    ensures a == b
  {
    if width > 0 {
      var x, y := Hex(a / 16, width - 1), Hex(b / 16, width - 1);
      assert Hex(a, width)[..width - 1] == x && Hex(b, width)[..width - 1] == y;
      assert Hex(a, width)[width - 1] == HEX[a % 16] && Hex(b, width)[width - 1] == HEX[b % 16];
      assert forall i, j | 0 <= i < 16 && 0 <= j < 16 && HEX[i] == HEX[j] :: i == j;
      HexIsInjective(a / 16, b / 16, width - 1);
    }
  }

  function Power16(n: nat): nat {
    if n == 0 then 1 else 16 * Power16(n - 1)
  }

  lemma Hex16IsInjective(a: Word, b: Word)
    requires Hex16(a) == Hex16(b)
    ensures a == b
  {
    assert Power16(4) == 0x1_0000;
    assert Power16(8) == 0x1_0000_0000;
    assert Power16(12) == 0x1_0000_0000_0000;
    assert Power16(16) == WORD;
    HexIsInjective(a, b, 16);
  }

  /** Equal directory names mean equal hashes, however the readable parts were shortened. */
  lemma SameShardSameHash(a: string, b: string)
    requires ShardName(a) == ShardName(b)
    ensures Hash(Utf8(a)) == Hash(Utf8(b))
  {
    var m, n := ShardName(a), ShardName(b);
    assert m[|m| - 16..] == Hex16(Hash(Utf8(a)));
    assert n[|n| - 16..] == Hex16(Hash(Utf8(b)));
    Hex16IsInjective(Hash(Utf8(a)), Hash(Utf8(b)));
  }

  /** Repository ids that differ in one byte live in different directories. */
  lemma OneByteEditsGetOtherShards(a: string, b: string, i: nat)
    requires DifferAt(Utf8(a), Utf8(b), i)
    ensures ShardName(a) != ShardName(b)
  {
    OneByteEditsNeverCollide(Utf8(a), Utf8(b), i);
    if ShardName(a) == ShardName(b) { SameShardSameHash(a, b); }
  }

  /** A shard name is one path component of 18 to 65 letters, digits, hyphens and underscores. */
  lemma ShardNamesAreSafe(id: string)
    ensures 18 <= |ShardName(id)| <= 65
    ensures forall c | c in ShardName(id) :: IsSafe(c)
  {
    hide Hash, Utf8, Hex;
    assert forall c | c in "repository" :: IsSafe(c);
  }

  predicate Keeps(c: char) {
    'a' <= c <= 'z' || 'A' <= c <= 'Z' || '0' <= c <= '9' || c == '-' || c == '_'
  }

  /**
   The readable head is the first 48 characters of the id, or all of a shorter one, with an underscore for each that is
   no letter, digit, hyphen or underscore; or `repository` for the empty id. A hyphen and sixteen digits of the hash follow.
   */
  lemma ShardNameReads(id: string)
    ensures var name := ShardName(id);
      var n := if id == "" then 10 else if |id| < 48 then |id| else 48;
      && |name| == n + 17
      && (id == "" ==> name[..10] == "repository")
      && (id != "" ==> forall k | 0 <= k < n :: name[k] == if Keeps(id[k]) then id[k] else '_')
      && name[n] == '-' && name[n + 1..] == Hex16(Hash(Utf8(id)))
  {
    hide Hash, Utf8, Hex;
    var kept := if |id| < 48 then id else id[..48];
    var head := if Sanitized(kept) == "" then "repository" else Sanitized(kept);
    var name := ShardName(id);
    assert name == head + "-" + Hex16(Hash(Utf8(id)));
    if id != "" {
      forall k | 0 <= k < |kept| ensures name[k] == if Keeps(id[k]) then id[k] else '_' {
        assert name[k] == head[k] && kept[k] == id[k];
      }
    }
  }

  predicate IsHexDigit(c: char) {
    '0' <= c <= '9' || 'a' <= c <= 'f'
  }

  function DigitValue(c: char): nat
    requires IsHexDigit(c)
  {
    if c <= '9' then c as int - '0' as int else c as int - 'a' as int + 10
  }

  /** The number that digits spell. */
  function HexValue(digits: string): nat
    requires forall k | 0 <= k < |digits| :: IsHexDigit(digits[k])
  {
    if digits == "" then 0 else HexValue(digits[..|digits| - 1]) * 16 + DigitValue(digits[|digits| - 1])
  }

  lemma DigitIs(d: nat)
    requires d < 16
    ensures IsHexDigit(HEX[d]) && DigitValue(HEX[d]) == d
  {
  }

  /** The suffix is the hash in the usual lower-case digits. */
  lemma {:induction false} HexSpells(n: nat, width: nat)
    requires n < Power16(width)
    ensures forall k | 0 <= k < width :: IsHexDigit(Hex(n, width)[k])
    ensures HexValue(Hex(n, width)) == n
    decreases width
  {
    if width > 0 {
      HexSpells(n / 16, width - 1);
      DigitIs(n % 16);
      hide DigitValue;
      var before := Hex(n / 16, width - 1);
      assert Hex(n, width) == before + [HEX[n % 16]];
      assert Hex(n, width)[..width - 1] == before;
    }
  }

  /** The character a UTF-8 sequence starts with, and its length. */
  function FirstOfUtf8(bytes: seq<Byte>): (int, nat)
    requires bytes != []
  {
    var b := bytes[0];
    if b < 0x80 then (b, 1)
    else if b < 0xE0 && |bytes| > 1 then ((b - 0xC0) * 0x40 + bytes[1] - 0x80, 2)
    else if b < 0xF0 && |bytes| > 2 then (((b - 0xE0) * 0x40 + bytes[1] - 0x80) * 0x40 + bytes[2] - 0x80, 3)
    else if |bytes| > 3 then
      ((((b - 0xF0) * 0x40 + bytes[1] - 0x80) * 0x40 + bytes[2] - 0x80) * 0x40 + bytes[3] - 0x80, 4)
    else (0, 0)
  }

  lemma Utf8CharDecodes(c: char, rest: seq<Byte>)
    ensures Utf8Char(c) + rest != [] && FirstOfUtf8(Utf8Char(c) + rest) == (c as int, |Utf8Char(c)|)
  {
    var n := c as int;
    assert n == n / 0x40 * 0x40 + n % 0x40;
    assert n / 0x1000 == n / 0x40 / 0x40 && n / 0x40000 == n / 0x1000 / 0x40;
    assert n / 0x40 == n / 0x1000 * 0x40 + n / 0x40 % 0x40;
    assert n / 0x1000 == n / 0x40000 * 0x40 + n / 0x1000 % 0x40;
  }

  /** Different ids have different bytes, so the hash sees every difference. */
  lemma {:induction false} Utf8IsInjective(a: string, b: string)
    requires Utf8(a) == Utf8(b)
    ensures a == b
  {
    if a != "" && b != "" {
      Utf8CharDecodes(a[0], Utf8(a[1..]));
      Utf8CharDecodes(b[0], Utf8(b[1..]));
      var n := |Utf8Char(a[0])|;
      assert Utf8(a)[n..] == Utf8(a[1..]) && Utf8(b)[n..] == Utf8(b[1..]);
      Utf8IsInjective(a[1..], b[1..]);
      assert a == [a[0]] + a[1..] && b == [b[0]] + b[1..];
    } else if a != "" {
      Utf8CharDecodes(a[0], Utf8(a[1..]));
    } else if b != "" {
      Utf8CharDecodes(b[0], Utf8(b[1..]));
    }
  }

  /** The bytes of one, two, three and four byte characters. */
  lemma Utf8Examples()
    ensures Utf8Char('A') == [0x41] && Utf8Char('\U{E9}') == [0xC3, 0xA9]
    ensures Utf8Char('\U{20AC}') == [0xE2, 0x82, 0xAC] && Utf8Char('\U{1F600}') == [0xF0, 0x9F, 0x98, 0x80]
  {
  }
}
