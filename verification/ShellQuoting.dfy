/** Shell commands and environment lines shown to the operator, against the shell's own quoting rules. */
module ShellQuoting {
  import opened Prelude
  import opened Text

  // ----- What the interface prints

  /** Characters left unquoted in a command argument. */
  predicate PlainArgument(c: char) {
    IsLetter(c) || IsDigit(c) || c in "_./:=@-"
  }

  /** Characters left unquoted in the value of an environment line: the same and the comma. */
  predicate PlainValue(c: char) {
    PlainArgument(c) || c == ','
  }

  /** Every single quote becomes: close the quotes, an escaped quote, open them again. */
  function ReplaceQuotes(value: string): string {
    if value == "" then ""
    else (if value[0] == '\'' then "'\\''" else [value[0]]) + ReplaceQuotes(value[1..])
  }

  function Quoted(value: string): string {
    "'" + ReplaceQuotes(value) + "'"
  }

  function ShellArg(value: string): string {
    if value != "" && forall c | c in value :: PlainArgument(c) then value else Quoted(value)
  }

  function ShellValue(value: string): string {
    if value != "" && forall c | c in value :: PlainValue(c) then value else Quoted(value)
  }

  function Join(parts: seq<string>): string {
    if parts == [] then ""
    else if |parts| == 1 then ShellArg(parts[0])
    else ShellArg(parts[0]) + " " + Join(parts[1..])
  }

  function ShellCommand(parts: seq<string>): string {
    Join(parts)
  }

  function EnvLine(name: string, value: string): string {
    name + "=" + ShellValue(value)
  }

  // ----- What the shell reads (sections 2.2.1, 2.2.2 and 2.3 of POSIX.1-2017 XCU)

  datatype Mode = Between | InWord | InQuotes

  /** Operators, expansions, patterns and comments: text with one of these unquoted is not a plain list of words. */
  predicate Special(c: char) {
    c in "|&;<>()$`\"*?[#~\n"
  }

  /** The words of `s`, or None if quotes stay open or something other than words is written. */
  function Lex(s: string, mode: Mode, word: string, words: seq<string>): Option<seq<string>>
    decreases |s|
  {
    if s == "" then
      match mode
      case Between => Some(words)
      case InWord => Some(words + [word])
      case InQuotes => None
    else if mode == InQuotes then
      if s[0] == '\'' then Lex(s[1..], InWord, word, words) else Lex(s[1..], InQuotes, word + [s[0]], words)
    else if s[0] == ' ' || s[0] == '\t' then
      Lex(s[1..], Between, "", if mode == InWord then words + [word] else words)
    else if s[0] == '\'' then Lex(s[1..], InQuotes, word, words)
    else if s[0] == '\\' then
      if |s| == 1 then None
      else if s[1] == '\n' then Lex(s[2..], mode, word, words)
      else Lex(s[2..], InWord, word + [s[1]], words)
    else if Special(s[0]) then None
    else Lex(s[1..], InWord, word + [s[0]], words)
  }

  function Words(s: string): Option<seq<string>> {
    Lex(s, Between, "", [])
  }

  // ----- Round trips

  lemma LexOnePlain(c: char, after: string, mode: Mode, word: string, words: seq<string>)
    requires mode != InQuotes && PlainValue(c)
    ensures Lex([c] + after, mode, word, words) == Lex(after, InWord, word + [c], words)
  {
    var s := [c] + after;
    assert s[0] == c && s[1..] == after;
  }

  lemma {:induction false} LexPlain(value: string, rest: string, mode: Mode, word: string, words: seq<string>)
    requires mode != InQuotes && value != "" && forall k | 0 <= k < |value| :: PlainValue(value[k])
    ensures Lex(value + rest, mode, word, words) == Lex(rest, InWord, word + value, words)
    decreases value
  {
    hide Lex, PlainValue;
    var after := value[1..] + rest;
    assert value + rest == [value[0]] + after;
    LexOnePlain(value[0], after, mode, word, words);
    if |value| > 1 {
      LexPlain(value[1..], rest, InWord, word + [value[0]], words);
      assert (word + [value[0]]) + value[1..] == word + value;
    } else {
      assert after == rest && value == [value[0]];
    }
  }

  /** One character inside the quotes, as it is printed. */
  lemma LexOneReplaced(c: char, after: string, word: string, words: seq<string>)
    ensures Lex((if c == '\'' then "'\\''" else [c]) + after, InQuotes, word, words) == Lex(after, InQuotes, word + [c], words)
  {
    if c == '\'' {
      LexEscapedQuote("'\\''" + after, after, word, words);
    } else {
      var s := [c] + after;
      assert s[0] == c && s[1..] == after;
    }
  }

  lemma LexClosingQuote(rest: string, word: string, words: seq<string>)
    ensures Lex("'" + rest, InQuotes, word, words) == Lex(rest, InWord, word, words)
  {
    assert ("'" + rest)[1..] == rest;
  }

  lemma {:induction false} LexReplaced(value: string, rest: string, word: string, words: seq<string>)
    ensures Lex(ReplaceQuotes(value) + "'" + rest, InQuotes, word, words) == Lex(rest, InWord, word + value, words)
    decreases value
  {
    hide Lex;
    if value == "" {
      assert ReplaceQuotes(value) + "'" + rest == "'" + rest && word + value == word;
      LexClosingQuote(rest, word, words);
    } else {
      var first := if value[0] == '\'' then "'\\''" else [value[0]];
      var after := ReplaceQuotes(value[1..]) + "'" + rest;
      assert ReplaceQuotes(value) == first + ReplaceQuotes(value[1..]);
      hide ReplaceQuotes;
      assert ReplaceQuotes(value) + "'" + rest == first + after;
      LexOneReplaced(value[0], after, word, words);
      LexReplaced(value[1..], rest, word + [value[0]], words);
      assert (word + [value[0]]) + value[1..] == word + value;
    }
  }

  /** Closing the quotes, an escaped quote and opening them again add one quote to the word. */
  lemma LexEscapedQuote(s: string, after: string, word: string, words: seq<string>)
    requires s == "'\\''" + after
    ensures Lex(s, InQuotes, word, words) == Lex(after, InQuotes, word + ['\''], words)
  {
    var backslash := s[1..];
    assert s[0] == '\'' && Lex(s, InQuotes, word, words) == Lex(backslash, InWord, word, words);
    var quote := backslash[2..];
    assert backslash[0] == '\\' && backslash[1] == '\'';
    assert Lex(backslash, InWord, word, words) == Lex(quote, InWord, word + ['\''], words);
    assert quote[0] == '\'' && quote[1..] == after;
    assert Lex(quote, InWord, word + ['\''], words) == Lex(after, InQuotes, word + ['\''], words);
  }

  lemma LexQuoted(value: string, rest: string, mode: Mode, word: string, words: seq<string>)
    requires mode != InQuotes
    ensures Lex(Quoted(value) + rest, mode, word, words) == Lex(rest, InWord, word + value, words)
  {
    var s := Quoted(value) + rest;
    assert s[1..] == ReplaceQuotes(value) + "'" + rest;
    LexReplaced(value, rest, word, words);
  }

  /** One printed argument is read as one word. */
  lemma LexArgument(value: string, rest: string, words: seq<string>)
    ensures Lex(ShellArg(value) + rest, Between, "", words) == Lex(rest, InWord, value, words)
  {
    hide Lex;
    assert "" + value == value;
    if value != "" && forall c | c in value :: PlainArgument(c) {
      LexPlain(value, rest, Between, "", words);
    } else {
      LexQuoted(value, rest, Between, "", words);
    }
  }

  lemma LexEnds(rest: string, word: string, words: seq<string>)
    ensures Lex("", InWord, word, words) == Some(words + [word])
    ensures Lex("", Between, "", words) == Some(words)
    ensures Lex(" " + rest, InWord, word, words) == Lex(rest, Between, "", words + [word])
  {
    assert (" " + rest)[1..] == rest;
  }

  lemma {:induction false} LexJoined(parts: seq<string>, words: seq<string>)
    ensures Lex(Join(parts), Between, "", words) == Some(words + parts)
    decreases parts
  {
    hide Lex, ShellArg;
    if parts == [] {
      assert words + parts == words;
      LexEnds("", "", words);
    } else if |parts| == 1 {
      assert parts == [parts[0]] && Join(parts) == ShellArg(parts[0]) + "";
      LexArgument(parts[0], "", words);
      LexEnds("", parts[0], words);
    } else {
      var more := Join(parts[1..]);
      assert Join(parts) == ShellArg(parts[0]) + (" " + more);
      LexArgument(parts[0], " " + more, words);
      LexEnds(more, parts[0], words);
      LexJoined(parts[1..], words + [parts[0]]);
      assert (words + [parts[0]]) + parts[1..] == words + parts;
    }
  }

  /** The shell reads back exactly the arguments that were joined, whatever they contain. */
  lemma CommandsReadBack(parts: seq<string>)
    ensures Words(ShellCommand(parts)) == Some(parts)
  {
    LexJoined(parts, []);
    assert [] + parts == parts;
  }

  /** So two argument lists never print alike. */
  lemma CommandsAreUnambiguous(a: seq<string>, b: seq<string>)
    requires ShellCommand(a) == ShellCommand(b)
    ensures a == b
  {
    CommandsReadBack(a);
    CommandsReadBack(b);
  }

  /** An environment line is one word, `name=value`, for every value. */
  lemma EnvLinesReadBack(name: string, value: string)
    requires forall c | c in name :: IsLetter(c) || IsDigit(c) || c == '_'
    ensures Words(EnvLine(name, value)) == Some([name + "=" + value])
  {
    hide Lex;
    var start := name + "=";
    LexPlain(start, ShellValue(value), Between, "", []);
    assert "" + start == start && EnvLine(name, value) == start + ShellValue(value);
    if value != "" && forall c | c in value :: PlainValue(c) {
      assert value + "" == ShellValue(value);
      LexPlain(value, "", InWord, start, []);
    } else {
      assert Quoted(value) + "" == ShellValue(value);
      LexQuoted(value, "", InWord, start, []);
    }
    LexEnds("", start + value, []);
    assert [] + [start + value] == [start + value];
  }

  // ----- What is printed

  /** Letters, digits and `_`, `.`, `/`, `:`, `=`, `@`, `-`. */
  predicate BareCharacter(c: char) {
    'A' <= c <= 'Z' || 'a' <= c <= 'z' || '0' <= c <= '9' || c in {'_', '.', '/', ':', '=', '@', '-'}
  }

  lemma BareCharacters(c: char)
    ensures PlainArgument(c) <==> BareCharacter(c)
    ensures PlainValue(c) <==> BareCharacter(c) || c == ','
  {
  }

  lemma {:induction false} ReplacedIsNoShorter(value: string)
    ensures |ReplaceQuotes(value)| >= |value|
  {
    if value != "" { ReplacedIsNoShorter(value[1..]); }
  }

  /** Exactly the non-empty values of unquoted characters are printed as they are; the others between single quotes. */
  lemma PrintedBare(value: string)
    ensures ShellArg(value) == value <==> value != "" && forall k | 0 <= k < |value| :: BareCharacter(value[k])
    ensures ShellValue(value) == value <==> value != "" && forall k | 0 <= k < |value| :: BareCharacter(value[k]) || value[k] == ','
    ensures ShellArg(value) != value ==> ShellArg(value) == Quoted(value)
    ensures ShellValue(value) != value ==> ShellValue(value) == Quoted(value)
    ensures |Quoted(value)| >= |value| + 2 && Quoted(value)[0] == '\'' == Quoted(value)[|Quoted(value)| - 1]
  {
    ReplacedIsNoShorter(value);
    forall c | c in value
      ensures PlainArgument(c) <==> BareCharacter(c)
      ensures PlainValue(c) <==> BareCharacter(c) || c == ','
    {
      BareCharacters(c);
    }
    hide PlainArgument, PlainValue, ReplaceQuotes, BareCharacter;
    assert forall k | 0 <= k < |value| :: value[k] in value;
  }

  /** Arguments are joined by single spaces. */
  lemma CommandJoins(first: string, more: seq<string>)
    ensures ShellCommand([]) == "" && ShellCommand([first]) == ShellArg(first)
    ensures more != [] ==> ShellCommand([first] + more) == ShellArg(first) + " " + ShellCommand(more)
    ensures forall name, value :: EnvLine(name, value) == name + "=" + ShellValue(value)
  {
    assert ([first] + more)[1..] == more;
  }
}
