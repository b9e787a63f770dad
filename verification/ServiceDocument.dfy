/** The stream reader accepts exactly the event streams of well-formed service documents, and reads off their pins. */
module ServiceDocument {
  import opened Prelude
  import opened ServiceDefinition

  /** A node of the document tree. A leaf is any event but an opening or closing tag; an empty element is one. */
  datatype Node = Element(name: string, attributes: seq<Attribute>, children: seq<Node>) | Leaf(event: Event)

  predicate IsTag(e: Event) {
    e.Start? || e.End?
  }

  predicate Proper(nodes: seq<Node>) {
    forall n | n in nodes :: if n.Leaf? then !IsTag(n.event) else Proper(n.children)
  }

  function Flatten(n: Node): seq<Event>
    decreases n
  {
    match n
    case Leaf(event) => [event]
    case Element(name, attributes, children) => [Start(name, attributes)] + FlattenAll(children) + [End]
  }

  function FlattenAll(nodes: seq<Node>): seq<Event>
    decreases nodes
  {
    if nodes == [] then [] else Flatten(nodes[0]) + FlattenAll(nodes[1..])
  }

  // ----- What a service document is

  /** Content below the root: no declaration, no DTD, and no more than `room` further levels. */
  predicate InnerOk(nodes: seq<Node>, room: nat) {
    forall n | n in nodes :: InnerNodeOk(n, room)
  }

  predicate InnerNodeOk(n: Node, room: nat) {
    if n.Leaf? then !n.event.DocType? && !n.event.Decl? && !n.event.Malformed?
    else room > 0 && InnerOk(n.children, room - 1)
  }

  /** Content beside the root: blank text, comments, and before the root an XML declaration. */
  predicate OutsideOk(n: Node, beforeRoot: bool) {
    && n.Leaf?
    && (n.event.Comment? || (n.event.Chars? && AsciiBlank(n.event.text)) || (beforeRoot && n.event.Decl?))
  }

  predicate IsEnv(n: Node) {
    if n.Leaf? then n.event.Empty? && n.event.name == "env" else n.name == "env"
  }

  function EnvAttributes(n: Node): seq<Attribute>
    requires IsEnv(n)
  {
    if n.Leaf? then n.event.attributes else n.attributes
  }

  predicate Readable(n: Node) {
    IsEnv(n) ==> ReadAttributes(EnvAttributes(n)).Ok?
  }

  /** The storage override that a child of the root pins. */
  predicate IsPin(n: Node) {
    IsEnv(n) && Readable(n) && IsOverride(ReadAttributes(EnvAttributes(n)).value)
  }

  function PinName(n: Node): string
    requires IsPin(n)
  {
    ReadAttributes(EnvAttributes(n)).value.name.value
  }

  function PinValue(n: Node): Option<string>
    requires IsPin(n)
  {
    ReadAttributes(EnvAttributes(n)).value.value
  }

  /** The children of the root that pin storage, in document order. */
  function Pins(children: seq<Node>): (pins: seq<Node>)
    ensures forall n :: n in pins <==> n in children && IsPin(n)
  {
    if children == [] then []
    else (if IsPin(children[0]) then [children[0]] else []) + Pins(children[1..])
  }

  /** No two of them pin the same variable, and each has a value. */
  ghost predicate PinsApart(pins: seq<Node>)
    requires forall n | n in pins :: IsPin(n)
  {
    && (forall n | n in pins :: PinValue(n).Some?)
    && forall a, b | 0 <= a < b < |pins| :: PinName(pins[a]) != PinName(pins[b])
  }

  /** The root's pins: every `env` child readable, at least one pin, no variable pinned twice, no empty value. */
  ghost predicate PinsOk(children: seq<Node>) {
    && (forall n | n in children :: Readable(n))
    && Pins(children) != []
    && PinsApart(Pins(children))
    && forall n | n in Pins(children) :: PinValue(n) != Some("")
  }

  /** `doc[root]` is the one root element, everything beside it is allowed there, and its pins are in order. */
  ghost predicate DocumentOk(doc: seq<Node>, root: int) {
    && 0 <= root < |doc|
    && doc[root].Element?
    && doc[root].name == "service"
    && (forall k | 0 <= k < |doc| && k != root :: OutsideOk(doc[k], k < root))
    && InnerOk(doc[root].children, MAX_DEPTH - 1)
    && PinsOk(doc[root].children)
  }

  /** The overrides are the values pinned, each under its own name and nothing else. */
  ghost predicate Pinned(children: seq<Node>, name: string, value: Option<string>) {
    if value.Some? then exists n | n in children :: IsPin(n) && PinName(n) == name && PinValue(n) == value
    else forall n | n in children && IsPin(n) :: PinName(n) != name
  }

  // ----- Scanning a flattened tree

  lemma {:induction false} ScanConcat(s: State, a: seq<Event>, b: seq<Event>)
    ensures var middle := Scan(s, a);
      Scan(s, a + b) == if middle.Err? then middle else Scan(middle.value, b)
    decreases a
  {
    if a == [] {
      assert a + b == b;
    } else {
      assert (a + b)[1..] == a[1..] + b;
      if Step(s, a[0]).Ok? { ScanConcat(Step(s, a[0]).value, a[1..], b); }
    }
  }

  lemma ScanOne(s: State, e: Event)
    ensures Scan(s, [e]) == Step(s, e)
  {
  }

  lemma {:induction false} InnerScan(s: State, nodes: seq<Node>)
    requires Proper(nodes) && s.rootSeen && 2 <= s.depth <= MAX_DEPTH
    ensures Scan(s, FlattenAll(nodes)).Ok? <==> InnerOk(nodes, MAX_DEPTH - s.depth)
    ensures Scan(s, FlattenAll(nodes)).Ok? ==> Scan(s, FlattenAll(nodes)) == Ok(s)
    decreases nodes
  {
    if nodes != [] {
      var first, rest := nodes[0], nodes[1..];
      ProperSplit(nodes);
      hide InnerNodeOk, Step, Flatten;
      ScanConcat(s, Flatten(first), FlattenAll(rest));
      InnerScan(s, rest);
      InnerScanNode(s, first);
      InnerOkSplit(nodes, MAX_DEPTH - s.depth);
    }
  }

  lemma ProperSplit(nodes: seq<Node>)
    requires nodes != [] && Proper(nodes)
    ensures Proper(nodes[..1]) && Proper(nodes[1..])
    ensures if nodes[0].Leaf? then !IsTag(nodes[0].event) else Proper(nodes[0].children)
  {
    assert nodes[0] in nodes;
    assert forall n | n in nodes[1..] :: n in nodes;
  }

  lemma InnerOkSplit(nodes: seq<Node>, room: nat)
    requires nodes != []
    ensures InnerOk(nodes, room) <==> InnerNodeOk(nodes[0], room) && InnerOk(nodes[1..], room)
  {
    hide InnerNodeOk;
    assert nodes == [nodes[0]] + nodes[1..];
  }

  lemma {:induction false} InnerScanNode(s: State, n: Node)
    requires if n.Leaf? then !IsTag(n.event) else Proper(n.children)
    requires s.rootSeen && 2 <= s.depth <= MAX_DEPTH
    ensures Scan(s, Flatten(n)).Ok? <==> InnerNodeOk(n, MAX_DEPTH - s.depth)
    ensures Scan(s, Flatten(n)).Ok? ==> Scan(s, Flatten(n)) == Ok(s)
    decreases n
  {
    if n.Leaf? {
      ScanOne(s, n.event);
    } else {
      ScanElement(s, n);
      if s.depth < MAX_DEPTH { InnerScan(s.(depth := s.depth + 1), n.children); }
    }
  }

  /** An element is its opening tag, its content one level deeper, and its closing tag. */
  lemma ScanElement(s: State, n: Node)
    requires n.Element?
    ensures var entered := Step(s, Start(n.name, n.attributes));
      Scan(s, Flatten(n)) ==
        if entered.Err? then entered
        else
          var inner := Scan(entered.value, FlattenAll(n.children));
          if inner.Err? then inner else Step(inner.value, End)
  {
    var open := Start(n.name, n.attributes);
    var entered := Step(s, open);
    ScanConcat(s, [open] + FlattenAll(n.children), [End]);
    ScanConcat(s, [open], FlattenAll(n.children));
    ScanOne(s, open);
    if entered.Ok? {
      var inner := Scan(entered.value, FlattenAll(n.children));
      if inner.Ok? { ScanOne(inner.value, End); }
    }
  }

  // ----- The root's children

  /** The values after the pins of some children of the root have been pushed. */
  function PushAll(values: seq<Pair>, nodes: seq<Node>): Result<seq<Pair>, Error>
    decreases nodes
  {
    if nodes == [] then Ok(values)
    else if !IsEnv(nodes[0]) then PushAll(values, nodes[1..])
    else
      var next := PushOverride(values, EnvAttributes(nodes[0]));
      if next.Err? then next else PushAll(next.value, nodes[1..])
  }

  lemma {:induction false} ChildrenScan(s: State, nodes: seq<Node>)
    requires Proper(nodes) && s.rootSeen && s.depth == 1
    ensures Scan(s, FlattenAll(nodes)).Ok? <==> InnerOk(nodes, MAX_DEPTH - 1) && PushAll(s.values, nodes).Ok?
    ensures Scan(s, FlattenAll(nodes)).Ok? ==> Scan(s, FlattenAll(nodes)) == Ok(s.(values := PushAll(s.values, nodes).value))
    decreases nodes
  {
    if nodes != [] {
      var first, rest := nodes[0], nodes[1..];
      ProperSplit(nodes);
      InnerOkSplit(nodes, MAX_DEPTH - 1);
      hide InnerNodeOk, Step, Flatten, PushOverride, IsEnv, InnerOk, EnvAttributes;
      ScanConcat(s, Flatten(first), FlattenAll(rest));
      ChildScan(s, first);
      var next := Scan(s, Flatten(first));
      if next.Ok? { ChildrenScan(next.value, rest); }
    }
  }

  lemma ChildScan(s: State, n: Node)
    requires if n.Leaf? then !IsTag(n.event) else Proper(n.children)
    requires s.rootSeen && s.depth == 1
    ensures var pushed := if IsEnv(n) then PushOverride(s.values, EnvAttributes(n)) else Ok(s.values);
      && (Scan(s, Flatten(n)).Ok? <==> InnerNodeOk(n, MAX_DEPTH - 1) && pushed.Ok?)
      && (Scan(s, Flatten(n)).Ok? ==> Scan(s, Flatten(n)) == Ok(s.(values := pushed.value)))
  {
    hide PushOverride;
    if n.Leaf? {
      ScanOne(s, n.event);
    } else {
      ScanElement(s, n);
      var entered := Step(s, Start(n.name, n.attributes));
      if entered.Ok? { InnerScan(entered.value, n.children); }
    }
  }

  function PairOf(n: Node): Pair
    requires IsPin(n) && PinValue(n).Some?
  {
    Pair(PinName(n), PinValue(n).value)
  }

  function PairsOf(pins: seq<Node>): (pairs: seq<Pair>)
    requires forall n | n in pins :: IsPin(n) && PinValue(n).Some?
    ensures |pairs| == |pins|
    ensures forall k {:trigger pairs[k]} | 0 <= k < |pins| :: pairs[k] == PairOf(pins[k])
  {
    seq(|pins|, k requires 0 <= k < |pins| => PairOf(pins[k]))
  }

  ghost predicate NoneAmong(pins: seq<Node>, values: seq<Pair>)
    requires forall n | n in pins :: IsPin(n)
  {
    forall n | n in pins :: !Has(values, PinName(n))
  }

  /** Pushing succeeds when every `env` is readable and the pins stay apart, and then appends them. */
  lemma {:induction false} PushAllMeans(values: seq<Pair>, nodes: seq<Node>)
    ensures PushAll(values, nodes).Ok? <==>
            (forall n | n in nodes :: Readable(n)) && PinsApart(Pins(nodes)) && NoneAmong(Pins(nodes), values)
    ensures PushAll(values, nodes).Ok? ==> PushAll(values, nodes).value == values + PairsOf(Pins(nodes))
    decreases nodes
  {
    if nodes != [] {
      var first, rest := nodes[0], nodes[1..];
      assert nodes == [first] + rest;
      if !IsPin(first) {
        assert Pins(nodes) == Pins(rest);
        PushAllMeans(values, rest);
      } else if PinValue(first).Some? {
        assert Pins(nodes) == [first] + Pins(rest);
        var more := values + [PairOf(first)];
        PushAllMeans(more, rest);
        ApartCons(first, Pins(rest), values);
      } else {
        assert first in Pins(nodes);
      }
    }
  }

  lemma ApartCons(first: Node, rest: seq<Node>, values: seq<Pair>)
    requires IsPin(first) && PinValue(first).Some? && forall n | n in rest :: IsPin(n)
    ensures PinsApart([first] + rest) && NoneAmong([first] + rest, values)
       <==> !Has(values, PinName(first)) && PinsApart(rest) && NoneAmong(rest, values + [PairOf(first)])
    ensures PinsApart(rest) ==>
              values + PairsOf([first] + rest) == (values + [PairOf(first)]) + PairsOf(rest)
  {
    hide IsPin, PinName, PinValue;
    var all, more := [first] + rest, values + [PairOf(first)];
    HasMore(values, PairOf(first));
    assert PairOf(first).name == PinName(first);
    if PinsApart(all) && NoneAmong(all, values) {
      ApartFromCons(first, rest);
    }
    if PinsApart(rest) && NoneAmong(rest, more) {
      forall n | n in rest ensures PinName(n) != PinName(first) { assert !Has(more, PinName(n)); }
      ApartToCons(first, rest);
    }
  }

  lemma HasMore(values: seq<Pair>, p: Pair)
    ensures forall name :: Has(values + [p], name) <==> Has(values, name) || name == p.name
  {
    assert p in values + [p];
  }

  lemma ApartFromCons(first: Node, rest: seq<Node>)
    requires forall n | n in [first] + rest :: IsPin(n)
    requires PinsApart([first] + rest)
    ensures PinsApart(rest)
    ensures forall n | n in rest :: PinName(n) != PinName(first)
  {
    hide IsPin, PinName, PinValue;
    var all := [first] + rest;
    assert forall k | 0 <= k < |rest| :: all[k + 1] == rest[k];
    forall n | n in rest ensures PinName(n) != PinName(first) {
      var k :| 0 <= k < |rest| && rest[k] == n;
      assert PinName(all[0]) != PinName(all[k + 1]);
    }
    forall a, b | 0 <= a < b < |rest| ensures PinName(rest[a]) != PinName(rest[b]) {
      assert PinName(all[a + 1]) != PinName(all[b + 1]);
    }
    forall n | n in rest ensures PinValue(n).Some? { assert n in all; }
  }

  lemma ApartToCons(first: Node, rest: seq<Node>)
    requires forall n | n in [first] + rest :: IsPin(n)
    requires PinValue(first).Some? && PinsApart(rest)
    requires forall n | n in rest :: PinName(n) != PinName(first)
    ensures PinsApart([first] + rest)
  {
    hide IsPin, PinName, PinValue;
    var all := [first] + rest;
    forall a, b | 0 <= a < b < |all| ensures PinName(all[a]) != PinName(all[b]) {
      assert all[b] == rest[b - 1] && rest[b - 1] in rest;
      if a > 0 { assert all[a] == rest[a - 1]; }
    }
  }

  // ----- What the environment parser makes of the pins

  lemma {:induction false} ValueOfMeans(values: seq<Pair>, name: string)
    ensures ValueOf(values, name).Some? ==> Pair(name, ValueOf(values, name).value) in values
    ensures ValueOf(values, name).None? ==> !Has(values, name)
  {
    if values != [] {
      if values[0].name == name {
        assert values[0] == Pair(name, values[0].value);
      } else {
        ValueOfMeans(values[1..], name);
        assert forall p | p in values :: p == values[0] || p in values[1..];
      }
    }
  }

  lemma PairsMean(pins: seq<Node>)
    requires forall n | n in pins :: IsPin(n) && PinValue(n).Some?
    ensures forall p | p in PairsOf(pins) :: exists n | n in pins :: p == PairOf(n)
    ensures forall n | n in pins :: PairOf(n) in PairsOf(pins)
  {
    hide IsPin, PinName, PinValue, PairOf;
    var pairs := PairsOf(pins);
    forall n | n in pins ensures PairOf(n) in pairs {
      var k :| 0 <= k < |pins| && pins[k] == n;
      assert pairs[k] == PairOf(n);
    }
    forall p | p in pairs ensures exists n | n in pins :: p == PairOf(n) {
      var k :| 0 <= k < |pairs| && pairs[k] == p;
      assert pins[k] in pins && p == PairOf(pins[k]);
    }
  }

  lemma PushedPairs(children: seq<Node>)
    ensures PushAll([], children).Ok? ==>
              && PinsApart(Pins(children))
              && PushAll([], children).value == PairsOf(Pins(children))
    ensures PinsOk(children) <==>
            && PushAll([], children).Ok?
            && Pins(children) != []
            && forall n | n in Pins(children) :: PinValue(n) != Some("")
  {
    PushAllMeans([], children);
    hide PushAll, IsPin, PinName, PinValue;
    if PinsApart(Pins(children)) { assert [] + PairsOf(Pins(children)) == PairsOf(Pins(children)); }
  }

  /** The pushed pairs pass the environment parser exactly when the pins are in order. */
  lemma PinsPass(children: seq<Node>)
    requires PushAll([], children).Ok?
    ensures var values := PushAll([], children).value;
      values != [] && FromPairs(values).Ok? <==> PinsOk(children)
  {
    PushedPairs(children);
    hide PushAll, IsPin, PinName, PinValue, Pins, PinsOk, ValueOf;
    var pins := Pins(children);
    var values := PairsOf(pins);
    PairsMean(pins);
    if n :| n in pins && PinValue(n) == Some("") { assert PairOf(n) in values && PairOf(n).value == ""; }
    if p :| p in values && p.value == "" {
      var n :| n in pins && p == PairOf(n);
      assert PinValue(n) == Some("");
    }
  }

  /** And it gives their values. */
  lemma PinsRead(children: seq<Node>)
    requires PushAll([], children).Ok? && FromPairs(PushAll([], children).value).Ok?
    ensures var result := FromPairs(PushAll([], children).value).value;
      Pinned(children, HOME, result.home) && Pinned(children, DATA_DIR, result.dataDir)
  {
    PushedPairs(children);
    hide PushAll, IsPin, PinName, PinValue, Pins, PinsOk, ValueOf, Pinned;
    var values := PairsOf(Pins(children));
    forall name | name == HOME || name == DATA_DIR ensures Pinned(children, name, ValueOf(values, name)) {
      ValueOfMeans(values, name);
      PinnedByPairs(children, name, ValueOf(values, name));
    }
  }

  lemma PinnedByPairs(children: seq<Node>, name: string, value: Option<string>)
    requires forall n | n in Pins(children) :: PinValue(n).Some?
    requires if value.Some? then Pair(name, value.value) in PairsOf(Pins(children)) else !Has(PairsOf(Pins(children)), name)
    ensures Pinned(children, name, value)
  {
    PairsMean(Pins(children));
    hide IsPin, PinName, PinValue;
    if value.Some? {
      var n :| n in Pins(children) && Pair(name, value.value) == PairOf(n);
    } else {
      forall n | n in children && IsPin(n) ensures PinName(n) != name {
        assert PairOf(n) in PairsOf(Pins(children));
      }
    }
  }

  // ----- Whole documents

  /** Nothing but allowed content, before the root or after it. */
  ghost predicate AllOutside(nodes: seq<Node>, beforeRoot: bool) {
    forall n | n in nodes :: OutsideOk(n, beforeRoot)
  }

  lemma {:induction false} OutsideScan(s: State, nodes: seq<Node>)
    requires Proper(nodes) && s.depth == 0 && s.rootSeen
    ensures Scan(s, FlattenAll(nodes)).Ok? <==> AllOutside(nodes, false)
    ensures Scan(s, FlattenAll(nodes)).Ok? ==> Scan(s, FlattenAll(nodes)) == Ok(s)
    decreases nodes
  {
    if nodes != [] {
      var first, rest := nodes[0], nodes[1..];
      ProperSplit(nodes);
      assert nodes == [first] + rest;
      ScanConcat(s, Flatten(first), FlattenAll(rest));
      OutsideScan(s, rest);
      if first.Leaf? { ScanOne(s, first.event); } else { ScanElement(s, first); }
      assert Scan(s, Flatten(first)).Ok? <==> OutsideOk(first, false);
      assert Scan(s, Flatten(first)).Ok? ==> Scan(s, Flatten(first)).value == s;
      assert AllOutside(nodes, false) <==> OutsideOk(first, false) && AllOutside(rest, false);
    }
  }

  lemma RootScan(n: Node)
    requires n.Element? && Proper(n.children)
    ensures Scan(INITIAL, Flatten(n)).Ok? <==>
            n.name == "service" && InnerOk(n.children, MAX_DEPTH - 1) && PushAll([], n.children).Ok?
    ensures Scan(INITIAL, Flatten(n)).Ok? ==>
              Scan(INITIAL, Flatten(n)) == Ok(State(0, true, PushAll([], n.children).value))
  {
    hide InnerOk, PushAll;
    ScanElement(INITIAL, n);
    if n.name == "service" {
      var inside := State(1, true, []);
      assert Step(INITIAL, Start(n.name, n.attributes)) == Ok(inside);
      ChildrenScan(inside, n.children);
      var inner := Scan(inside, FlattenAll(n.children));
      if inner.Ok? {
        assert inner.value.depth == 1;
        assert Step(inner.value, End) == Ok(State(0, true, PushAll([], n.children).value));
      }
    }
  }

  /** The one root there may be, with only allowed content beside it. */
  ghost predicate RootAt(doc: seq<Node>, root: nat)
    requires root < |doc|
  {
    && AllOutside(doc[..root], true)
    && doc[root].Element? && doc[root].name == "service"
    && InnerOk(doc[root].children, MAX_DEPTH - 1)
    && AllOutside(doc[root + 1..], false)
  }

  /** A scan from the start ends well without a root, or with exactly one. `root` is the first element. */
  lemma {:induction false} DocumentScan(doc: seq<Node>) returns (root: nat)
    requires Proper(doc)
    ensures root <= |doc| && (root < |doc| ==> doc[root].Element?) && forall k | 0 <= k < root :: doc[k].Leaf?
    ensures root == |doc| && Scan(INITIAL, FlattenAll(doc)).Ok? ==> Scan(INITIAL, FlattenAll(doc)) == Ok(INITIAL)
    ensures root < |doc| ==>
              (Scan(INITIAL, FlattenAll(doc)).Ok? <==> RootAt(doc, root) && PushAll([], doc[root].children).Ok?)
    ensures root < |doc| && Scan(INITIAL, FlattenAll(doc)).Ok? ==>
              Scan(INITIAL, FlattenAll(doc)) == Ok(State(0, true, PushAll([], doc[root].children).value))
    decreases doc
  {
    if doc == [] {
      root := 0;
    } else {
      var first, rest := doc[0], doc[1..];
      ProperSplit(doc);
      hide InnerOk, PushAll;
      ScanConcat(INITIAL, Flatten(first), FlattenAll(rest));
      if first.Element? {
        root := 0;
        RootScan(first);
        if Scan(INITIAL, Flatten(first)).Ok? { OutsideScan(Scan(INITIAL, Flatten(first)).value, rest); }
      } else {
        ScanOne(INITIAL, first.event);
        var later := DocumentScan(rest);
        root := later + 1;
        assert doc[..root] == [first] + rest[..later];
        assert root < |doc| ==> doc[root + 1..] == rest[later + 1..];
        assert OutsideOk(first, true) <==> Step(INITIAL, first.event).Ok?;
        assert Step(INITIAL, first.event).Ok? ==> Step(INITIAL, first.event).value == INITIAL;
      }
    }
  }

  lemma RootAtMeans(doc: seq<Node>, root: nat)
    requires root < |doc|
    ensures RootAt(doc, root) && PinsOk(doc[root].children) <==> DocumentOk(doc, root)
  {
    hide InnerOk, PinsOk, OutsideOk;
    assert forall k | 0 <= k < root :: doc[..root][k] == doc[k];
    assert forall k | root < k < |doc| :: doc[root + 1..][k - root - 1] == doc[k];
    if RootAt(doc, root) {
      forall k | 0 <= k < |doc| && k != root ensures OutsideOk(doc[k], k < root) {
        if k < root { assert doc[k] in doc[..root]; } else { assert doc[k] in doc[root + 1..]; }
      }
    }
  }

  /**
   On the events of any document tree the reader succeeds exactly when the tree is a service document, and then
   it returns exactly what the root's children pin.
   */
  lemma ReadsDocuments(doc: seq<Node>)
    requires Proper(doc)
    ensures Read(FlattenAll(doc)).Ok? <==> exists root :: DocumentOk(doc, root)
    ensures forall root | DocumentOk(doc, root) && Read(FlattenAll(doc)).Ok? ::
              var result := Read(FlattenAll(doc)).value;
              Pinned(doc[root].children, HOME, result.home) && Pinned(doc[root].children, DATA_DIR, result.dataDir)
  {
    var root := DocumentScan(doc);
    OnlyRoot(doc, root);
    hide PinsOk, RootAt, PushAll, FromPairs, Scan, DocumentOk;
    if root < |doc| {
      RootAtMeans(doc, root);
      PushedPairs(doc[root].children);
      if PushAll([], doc[root].children).Ok? {
        PinsPass(doc[root].children);
        if FromPairs(PushAll([], doc[root].children).value).Ok? { PinsRead(doc[root].children); }
      }
    }
  }

  lemma OnlyRoot(doc: seq<Node>, root: nat)
    requires root <= |doc| && (root < |doc| ==> doc[root].Element?) && forall k | 0 <= k < root :: doc[k].Leaf?
    ensures forall other | DocumentOk(doc, other) :: other == root
  {
    hide InnerOk, PinsOk;
  }
}
