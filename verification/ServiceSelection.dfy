/** The data directory that a service definition selects. */
module ServiceSelection {
  import opened Prelude
  import opened Text
  import opened ServiceDefinition
  import opened ServiceDocument
  import opened ServiceStream
  import AccountSid
  import WindowsDataPath

  datatype SelectionError = MissingBase | InvalidHome | InvalidPath | Windows(error: WindowsDataPath.PathError)

  /** The data directory of a restored service, and the account whose directory it is. */
  datatype Selection = Selection(dataDir: string, sid: Option<string>)

  /** Which paths are valid, and how a file name is appended to one. */
  datatype Paths = Paths(valid: string -> bool, join: (string, string) -> string)

  function HomeDataDir(paths: Paths, home: string): Result<string, SelectionError> {
    if paths.valid(home) then Ok(paths.join(home, "data")) else Err(InvalidHome)
  }

  function WithServiceStorage(paths: Paths, overrides: Overrides): Result<Selection, SelectionError> {
    var dataDir :=
      if overrides.dataDir.Some? then Ok(overrides.dataDir.value)
      else if overrides.home.Some? then HomeDataDir(paths, overrides.home.value)
      else Err(MissingBase);
    if dataDir.Err? then Err(dataDir.error)
    else if !paths.valid(dataDir.value) then Err(InvalidPath)
    else
      var sid := WindowsDataPath.SidFromPath(dataDir.value);
      if sid.Err? then Err(Windows(sid.error)) else Ok(Selection(dataDir.value, sid.value))
  }

  lemma {:induction false} PushedAreOverrides(s: State, events: seq<Event>)
    requires Scan(s, events).Ok? && forall p | p in s.values :: p.name == HOME || p.name == DATA_DIR
    ensures forall p | p in Scan(s, events).value.values :: p.name == HOME || p.name == DATA_DIR
    decreases events
  {
    if events != [] { PushedAreOverrides(Step(s, events[0]).value, events[1..]); }
  }

  /**
   An accepted definition never lacks a base. Its own data directory decides, whatever home is pinned beside it;
   without one the home's does, which must be valid itself.
   */
  lemma AcceptedSelectsADirectory(paths: Paths, events: seq<Event>)
    requires Read(events).Ok?
    ensures var overrides := Read(events).value;
      var selected := WithServiceStorage(paths, overrides);
      && selected != Err(MissingBase)
      && (overrides.dataDir.Some? ==>
            && selected != Err(InvalidHome)
            && (selected.Ok? ==> selected.value.dataDir == overrides.dataDir.value)
            && forall home :: WithServiceStorage(paths, overrides.(home := home)) == selected)
      && (overrides.dataDir.None? ==>
            && overrides.home.Some?
            && (selected == Err(InvalidHome) <==> !paths.valid(overrides.home.value))
            && (selected.Ok? ==> selected.value.dataDir == paths.join(overrides.home.value, "data")))
  {
    AcceptedPinsSomething(events);
    hide Read, WindowsDataPath.SidFromPath;
  }

  lemma AcceptedPinsSomething(events: seq<Event>)
    requires Read(events).Ok?
    ensures Read(events).value.dataDir.Some? || Read(events).value.home.Some?
  {
    var values := Scan(INITIAL, events).value.values;
    PushedAreOverrides(INITIAL, events);
    assert values[0] in values;
    ValueOfMeans(values, HOME);
    ValueOfMeans(values, DATA_DIR);
    assert Has(values, values[0].name);
  }

  /** A definition that pins the reserved directory of an account is restored with that account. */
  lemma PinnedAccountIsRecovered(paths: Paths, events: seq<Event>, sid: string, separator: char)
    requires Read(events).Ok? && AccountSid.ValidateSid(sid) && WindowsDataPath.IsSeparator(separator)
    requires Read(events).value.dataDir == Some(WindowsDataPath.DirectoryName(sid, separator))
    requires paths.valid(WindowsDataPath.DirectoryName(sid, separator))
    ensures WithServiceStorage(paths, Read(events).value)
         == Ok(Selection(WindowsDataPath.DirectoryName(sid, separator), Some(sid)))
  {
    hide Read, WindowsDataPath.SidFromPath, WindowsDataPath.DirectoryName;
    WindowsDataPath.DirectoryGivesTheSidBack(sid, separator);
  }

  // ----- Empty and blank values

  function Pinning(value: string): Node {
    Element("service", [], [Leaf(Empty("env", [Attribute("name", Some(DATA_DIR)), Attribute("value", Some(value))]))])
  }

  /** A pinned value must not be empty, but it may be blank. */
  lemma BlankPinsAreAccepted()
    ensures Read(FlattenAll([Pinning(" ")])) == Ok(Overrides(None, Some(" ")))
    ensures Read(FlattenAll([Pinning("")])) == Err(EmptyValue)
  {
    ReadPinning(" ");
    ReadPinning("");
  }

  lemma ReadPinning(value: string)
    ensures Proper([Pinning(value)])
    ensures Read(FlattenAll([Pinning(value)])) == if value == "" then Err(EmptyValue) else Ok(Overrides(None, Some(value)))
  {
    var node := Pinning(value);
    var leaf := node.children[0];
    var pair := Pair(DATA_DIR, value);
    PinnedPair(value);
    NothingIsProper();
    ProperCons(leaf, []);
    assert [leaf] + [] == node.children;
    ProperCons(node, []);
    assert [node] + [] == [node];
    hide PushOverride, Proper, FlattenAll;
    var start, end := [Start("service", [])], [End];
    assert FlattenAll([]) == [] by { FlattenNothing(); }
    assert FlattenAll([node]) == start + ([leaf.event] + end);
    var entered, pinned := State(1, true, []), State(1, true, [pair]);
    ScanConcat(INITIAL, start, [leaf.event] + end);
    ScanOne(INITIAL, start[0]);
    ScanConcat(entered, [leaf.event], end);
    ScanOne(entered, leaf.event);
    ScanOne(pinned, End);
    hide Scan, Step;
    assert Scan(INITIAL, FlattenAll([node])) == Ok(State(0, true, [pair]));
    FromOnePair(value);
  }

  lemma FlattenNothing()
    ensures FlattenAll([]) == []
  {
  }

  lemma PinnedPair(value: string)
    ensures PushOverride([], Pinning(value).children[0].event.attributes) == Ok([Pair(DATA_DIR, value)])
  {
    var none: seq<Pair> := [];
    var pair := Pair(DATA_DIR, value);
    PinningAttributes(value);
    hide ReadAttributes;
    assert none + [pair] == [pair];
  }

  lemma FromOnePair(value: string)
    ensures FromPairs([Pair(DATA_DIR, value)]) == if value == "" then Err(EmptyValue) else Ok(Overrides(None, Some(value)))
  {
    var pair := Pair(DATA_DIR, value);
    var one, none := [pair], [pair][1..];
    assert one[0] == pair && none == [] && |HOME| != |DATA_DIR|;
    assert ValueOf(none, HOME) == None;
    assert ValueOf(one, HOME) == None && ValueOf(one, DATA_DIR) == Some(value);
    assert (exists p | p in one :: p.value == "") <==> value == "" by { assert pair in one; }
  }

  lemma PinningAttributes(value: string)
    ensures ReadAttributes([Attribute("name", Some(DATA_DIR)), Attribute("value", Some(value))])
         == Ok(Env(Some(DATA_DIR), Some(value)))
  {
    var attributes := [Attribute("name", Some(DATA_DIR)), Attribute("value", Some(value))];
    assert forall k | 0 <= k < |DATA_DIR| :: UpperChar(DATA_DIR[k]) == DATA_DIR[k];
    assert Upper(DATA_DIR) == DATA_DIR;
    hide Upper;
    var one := [attributes[0]];
    assert attributes[..1] == one && one[..0] == [];
    assert ReadAttributes([]) == Ok(Env(None, None));
    assert ReadAttributes(one) == Ok(Env(Some(DATA_DIR), None));
  }
}
