/** The storage overrides pinned by a Windows service definition, read from a stream of XML events. */
module ServiceDefinition {
  import opened Prelude
  import opened Text

  /** An attribute as it decodes; None when it does not. */
  datatype Attribute = Attribute(key: string, text: Option<string>)

  datatype Event =
    | Start(name: string, attributes: seq<Attribute>)
    | Empty(name: string, attributes: seq<Attribute>)
    | End
    | Chars(text: string)
    | CData
    | GeneralRef
    | Decl
    | DocType
    | Comment      // and processing instructions
    | Malformed    // the reader's own errors

  datatype Error =
    | Unreadable | Repeated | NoValue | BadRoot | TooDeep | ContentOutsideRoot | MisplacedDeclaration | BadNesting
    | DtdUnsupported | NothingPinned | EmptyValue

  const DATA_DIR := "RELAY_KNOWLEDGE_DATA_DIR"
  const HOME := "RELAY_KNOWLEDGE_HOME"
  const MAX_DEPTH := 32

  /** An override as it is pushed: its upper-cased name and its value. */
  datatype Pair = Pair(name: string, value: string)

  datatype Overrides = Overrides(home: Option<string>, dataDir: Option<string>)

  // ----- The attributes of one element

  /** The name and value of an `env` element; the last attribute of a key wins, as it would after an update. */
  datatype Env = Env(name: Option<string>, value: Option<string>)

  function ReadAttribute(env: Env, a: Attribute): Env
    requires a.text.Some?
  {
    if a.key == "name" then env.(name := Some(Upper(a.text.value)))
    else if a.key == "value" then env.(value := a.text)
    else env
  }

  function ReadAttributes(attributes: seq<Attribute>): Result<Env, Error> {
    if attributes == [] then Ok(Env(None, None))
    else
      var before := ReadAttributes(attributes[..|attributes| - 1]);
      var last := attributes[|attributes| - 1];
      if before.Err? then before
      else if last.text.None? then Err(Unreadable)
      else Ok(ReadAttribute(before.value, last))
  }

  predicate IsOverride(env: Env) {
    env.name == Some(DATA_DIR) || env.name == Some(HOME)
  }

  predicate Has(values: seq<Pair>, name: string) {
    exists p | p in values :: p.name == name
  }

  /** The values after one `env` element directly under the root. */
  function PushOverride(values: seq<Pair>, attributes: seq<Attribute>): Result<seq<Pair>, Error> {
    var env := ReadAttributes(attributes);
    if env.Err? then Err(env.error)
    else if !IsOverride(env.value) then Ok(values)
    else if Has(values, env.value.name.value) then Err(Repeated)
    else if env.value.value.None? then Err(NoValue)
    else Ok(values + [Pair(env.value.name.value, env.value.value.value)])
  }

  // ----- The event loop

  datatype State = State(depth: nat, rootSeen: bool, values: seq<Pair>)

  predicate AsciiBlank(s: string) {
    forall c | c in s :: c == ' ' || c == '\t' || c == '\n' || c as int == 12 || c == '\r'
  }

  /** One turn of the loop. */
  function Step(s: State, e: Event): Result<State, Error> {
    if (e.Start? || e.Empty?) && e.name == "env" && s.depth == 1 then
      var values := PushOverride(s.values, e.attributes);
      if values.Err? then Err(values.error) else Ok(s.(values := values.value, depth := if e.Start? then 2 else 1))
    else match e
      case Start(name, _) =>
        if s.depth == 0 && (s.rootSeen || name != "service") then Err(BadRoot)
        else if s.depth + 1 > MAX_DEPTH then Err(TooDeep)
        else Ok(State(s.depth + 1, s.rootSeen || s.depth == 0, s.values))
      case Empty(_, _) => if s.depth == 0 then Err(ContentOutsideRoot) else Ok(s)
      case Chars(text) => if s.depth == 0 && !AsciiBlank(text) then Err(ContentOutsideRoot) else Ok(s)
      case CData => if s.depth == 0 then Err(ContentOutsideRoot) else Ok(s)
      case GeneralRef => if s.depth == 0 then Err(ContentOutsideRoot) else Ok(s)
      case Decl => if s.rootSeen then Err(MisplacedDeclaration) else Ok(s)
      case End => if s.depth == 0 then Err(BadNesting) else Ok(s.(depth := s.depth - 1))
      case DocType => Err(DtdUnsupported)
      case Comment => Ok(s)
      case Malformed => Err(Unreadable)
  }

  function Scan(s: State, events: seq<Event>): Result<State, Error>
    decreases events
  {
    if events == [] then Ok(s)
    else
      var next := Step(s, events[0]);
      if next.Err? then next else Scan(next.value, events[1..])
  }

  function ValueOf(values: seq<Pair>, name: string): Option<string> {
    if values == [] then None
    else if values[0].name == name then Some(values[0].value)
    else ValueOf(values[1..], name)
  }

  /** What the environment parser makes of the collected pairs: an empty path is an error. */
  function FromPairs(values: seq<Pair>): Result<Overrides, Error> {
    if exists p | p in values :: p.value == "" then Err(EmptyValue)
    else Ok(Overrides(ValueOf(values, HOME), ValueOf(values, DATA_DIR)))
  }

  const INITIAL := State(0, false, [])

  function Read(events: seq<Event>): Result<Overrides, Error> {
    var last := Scan(INITIAL, events);
    if last.Err? then Err(last.error)
    else if !last.value.rootSeen || last.value.depth != 0 || last.value.values == [] then Err(NothingPinned)
    else FromPairs(last.value.values)
  }

  method StorageOverrides(events: seq<Event>) returns (result: Result<Overrides, Error>)
    ensures result == Read(events)
  {
    var depth, rootSeen := 0, false;
    var values: seq<Pair> := [];
    var k := 0;
    while k < |events|
      invariant 0 <= k <= |events| && 0 <= depth
      invariant Scan(INITIAL, events) == Scan(State(depth, rootSeen, values), events[k..])
    {
      var event := events[k];
      assert events[k..][0] == event && events[k..][1..] == events[k + 1..];
      if (event.Start? || event.Empty?) && event.name == "env" && depth == 1 {
        var env := AttributesOf(event.attributes);
        if env.Err? { return Err(env.error); }
        if IsOverride(env.value) {
          if Has(values, env.value.name.value) { return Err(Repeated); }
          if env.value.value.None? { return Err(NoValue); }
          values := values + [Pair(env.value.name.value, env.value.value.value)];
        }
        if event.Start? {
          depth := depth + 1;
        }
      } else {
        match event {
          case Start(name, _) =>
            if depth == 0 {
              if rootSeen || name != "service" { return Err(BadRoot); }
              rootSeen := true;
            }
            depth := depth + 1;
            if depth > MAX_DEPTH { return Err(TooDeep); }
          case Empty(_, _) => if depth == 0 { return Err(ContentOutsideRoot); }
          case Chars(text) => if depth == 0 && !AsciiBlank(text) { return Err(ContentOutsideRoot); }
          case CData => if depth == 0 { return Err(ContentOutsideRoot); }
          case GeneralRef => if depth == 0 { return Err(ContentOutsideRoot); }
          case Decl => if rootSeen { return Err(MisplacedDeclaration); }
          case End =>
            if depth == 0 { return Err(BadNesting); }
            depth := depth - 1;
          case DocType => return Err(DtdUnsupported);
          case Comment =>
          case Malformed => return Err(Unreadable);
        }
      }
      k := k + 1;
    }
    if !rootSeen || depth != 0 || values == [] {
      return Err(NothingPinned);
    }
    result := FromPairs(values);
  }

  method AttributesOf(attributes: seq<Attribute>) returns (result: Result<Env, Error>)
    ensures result == ReadAttributes(attributes)
  {
    var env := Env(None, None);
    var k := 0;
    while k < |attributes|
      invariant 0 <= k <= |attributes|
      invariant ReadAttributes(attributes[..k]) == Ok(env)
    {
      var attribute := attributes[k];
      assert attributes[..k + 1][..k] == attributes[..k];
      if attribute.text.None? {
        UnreadableStays(attributes, k + 1);
        return Err(Unreadable);
      }
      if attribute.key == "name" {
        env := env.(name := Some(Upper(attribute.text.value)));
      } else if attribute.key == "value" {
        env := env.(value := attribute.text);
      }
      k := k + 1;
    }
    assert attributes[..k] == attributes;
    result := Ok(env);
  }

  lemma {:induction false} UnreadableStays(attributes: seq<Attribute>, k: nat)
    requires k <= |attributes| && ReadAttributes(attributes[..k]).Err?
    ensures ReadAttributes(attributes) == ReadAttributes(attributes[..k])
  {
    if k < |attributes| {
      assert attributes[..|attributes| - 1][..k] == attributes[..k];
      UnreadableStays(attributes[..|attributes| - 1], k);
    } else {
      assert attributes[..k] == attributes;
    }
  }
}
