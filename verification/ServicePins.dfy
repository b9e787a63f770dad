/** What a service definition pins, read off the document alone: names, values, nesting and what may stand beside the root. */
module ServicePins {
  import opened Prelude
  import opened Text
  import opened ServiceDefinition
  import opened ServiceDocument

  // ----- Names and values of `env` elements

  /** The same but for the case of ASCII letters; `variable` is in capitals. */
  predicate Spells(text: string, variable: string) {
    && |text| == |variable|
    && forall k | 0 <= k < |text| ::
         text[k] == variable[k] || ('A' <= variable[k] <= 'Z' && text[k] as int == variable[k] as int + 32)
  }

  predicate InCapitals(variable: string) {
    forall k | 0 <= k < |variable| :: !('a' <= variable[k] <= 'z')
  }

  lemma SpellsMeans(text: string, variable: string)
    requires InCapitals(variable)
    ensures Upper(text) == variable <==> Spells(text, variable)
  {
    assert |Upper(text)| == |text|;
    if Upper(text) == variable {
      forall k | 0 <= k < |text|
        ensures text[k] == variable[k] || ('A' <= variable[k] <= 'Z' && text[k] as int == variable[k] as int + 32)
      {
        assert Upper(text)[k] == variable[k];
      }
    }
    if Spells(text, variable) {
      forall k | 0 <= k < |text| ensures Upper(text)[k] == variable[k] {}
    }
  }

  /** Attribute `k` is the last one with this key. */
  predicate LastWith(attributes: seq<Attribute>, key: string, k: int) {
    0 <= k < |attributes| && attributes[k].key == key && forall i | k < i < |attributes| :: attributes[i].key != key
  }

  predicate AllDecode(attributes: seq<Attribute>) {
    forall k | 0 <= k < |attributes| :: attributes[k].text.Some?
  }

  lemma {:induction false} DecodingReads(attributes: seq<Attribute>)
    ensures ReadAttributes(attributes).Ok? <==> AllDecode(attributes)
    decreases attributes
  {
    if attributes != [] {
      var last := |attributes| - 1;
      DecodingReads(attributes[..last]);
      assert forall k | 0 <= k < last :: attributes[..last][k] == attributes[k];
    }
  }

  lemma ReadOneMore(attributes: seq<Attribute>)
    requires attributes != [] && AllDecode(attributes)
    ensures var last := |attributes| - 1;
      && AllDecode(attributes[..last])
      && ReadAttributes(attributes[..last]).Ok? && ReadAttributes(attributes).Ok?
      && ReadAttributes(attributes).value == ReadAttribute(ReadAttributes(attributes[..last]).value, attributes[last])
  {
    DecodingReads(attributes);
    DecodingReads(attributes[..|attributes| - 1]);
  }

  lemma {:induction false} NameRead(attributes: seq<Attribute>)
    requires AllDecode(attributes)
    ensures ReadAttributes(attributes).Ok?
    ensures forall k | LastWith(attributes, "name", k) :: ReadAttributes(attributes).value.name == Some(Upper(attributes[k].text.value))
    ensures (forall k | 0 <= k < |attributes| :: attributes[k].key != "name") ==> ReadAttributes(attributes).value.name == None
    decreases attributes
  {
    if attributes != [] {
      var last := |attributes| - 1;
      ReadOneMore(attributes);
      NameRead(attributes[..last]);
      LastOfMore(attributes, "name");
      assert |"name"| != |"value"|;
      hide ReadAttributes, Upper;
      var before := attributes[..last];
      forall k | LastWith(attributes, "name", k) ensures ReadAttributes(attributes).value.name == Some(Upper(attributes[k].text.value)) {
        if attributes[last].key != "name" { assert LastWith(before, "name", k) && before[k] == attributes[k]; }
      }
      if forall k | 0 <= k < |attributes| :: attributes[k].key != "name" {
        assert attributes[last].key != "name" && forall k | 0 <= k < last :: before[k] == attributes[k];
      }
    }
  }

  lemma {:induction false} ValueRead(attributes: seq<Attribute>)
    requires AllDecode(attributes)
    ensures ReadAttributes(attributes).Ok?
    ensures forall k | LastWith(attributes, "value", k) :: ReadAttributes(attributes).value.value == attributes[k].text
    ensures (forall k | 0 <= k < |attributes| :: attributes[k].key != "value") ==> ReadAttributes(attributes).value.value == None
    decreases attributes
  {
    if attributes != [] {
      var last := |attributes| - 1;
      ReadOneMore(attributes);
      ValueRead(attributes[..last]);
      LastOfMore(attributes, "value");
      assert |"name"| != |"value"|;
      hide ReadAttributes, Upper;
      var before := attributes[..last];
      forall k | LastWith(attributes, "value", k) ensures ReadAttributes(attributes).value.value == attributes[k].text {
        if attributes[last].key != "value" { assert LastWith(before, "value", k) && before[k] == attributes[k]; }
      }
      if forall k | 0 <= k < |attributes| :: attributes[k].key != "value" {
        assert attributes[last].key != "value" && forall k | 0 <= k < last :: before[k] == attributes[k];
      }
    }
  }

  lemma LastOfMore(attributes: seq<Attribute>, key: string)
    requires attributes != []
    ensures var last := |attributes| - 1;
      if attributes[last].key == key then forall k :: LastWith(attributes, key, k) <==> k == last
      else forall k :: LastWith(attributes, key, k) <==> LastWith(attributes[..last], key, k)
  {
  }

  /** The attributes of an `env` element, empty or not. */
  function Attributes(n: Node): Option<seq<Attribute>> {
    match n
    case Element(name, attributes, _) => if name == "env" then Some(attributes) else None
    case Leaf(Empty(name, attributes)) => if name == "env" then Some(attributes) else None
    case _ => None
  }

  predicate Decodes(n: Node) {
    Attributes(n).Some? ==> AllDecode(Attributes(n).value)
  }

  /** `n` is an `env` whose last name spells the variable. */
  ghost predicate Sets(n: Node, variable: string) {
    Attributes(n).Some? && exists k ::
      && LastWith(Attributes(n).value, "name", k)
      && Attributes(n).value[k].text.Some? && Spells(Attributes(n).value[k].text.value, variable)
  }

  /** Its last value is `value`. */
  ghost predicate Gives(n: Node, value: string) {
    Attributes(n).Some? && exists k ::
      LastWith(Attributes(n).value, "value", k) && Attributes(n).value[k].text == Some(value)
  }

  const HOME_VARIABLE: string := "RELAY_KNOWLEDGE_HOME"
  const DATA_DIR_VARIABLE: string := "RELAY_KNOWLEDGE_DATA_DIR"

  ghost predicate SetsEither(n: Node) {
    Sets(n, HOME_VARIABLE) || Sets(n, DATA_DIR_VARIABLE)
  }

  lemma VariablesAreInCapitals()
    ensures InCapitals(HOME_VARIABLE) && InCapitals(DATA_DIR_VARIABLE) && HOME_VARIABLE != DATA_DIR_VARIABLE
    ensures HOME == HOME_VARIABLE && DATA_DIR == DATA_DIR_VARIABLE
  {
    assert |HOME_VARIABLE| != |DATA_DIR_VARIABLE|;
  }

  /** There is a last attribute with a key, or none with it at all. */
  lemma {:induction false} LastExists(attributes: seq<Attribute>, key: string) returns (k: int)
    ensures if k < 0 then forall i | 0 <= i < |attributes| :: attributes[i].key != key else LastWith(attributes, key, k)
    decreases attributes
  {
    k := -1;
    if attributes != [] {
      var last := |attributes| - 1;
      LastOfMore(attributes, key);
      if attributes[last].key == key { k := last; } else { k := LastExists(attributes[..last], key); }
    }
  }

  lemma LastIsOne(attributes: seq<Attribute>, key: string, i: int, k: int)
    requires LastWith(attributes, key, i) && LastWith(attributes, key, k)
    ensures i == k
  {
  }

  lemma SetsMeans(n: Node, attributes: seq<Attribute>, variable: string)
    requires Attributes(n) == Some(attributes) && AllDecode(attributes) && InCapitals(variable)
    ensures Sets(n, variable) <==> ReadAttributes(attributes).Ok? && ReadAttributes(attributes).value.name == Some(variable)
  {
    NameRead(attributes);
    var last := LastExists(attributes, "name");
    if last >= 0 {
      SpellsMeans(attributes[last].text.value, variable);
      forall k | LastWith(attributes, "name", k) ensures k == last { LastIsOne(attributes, "name", k, last); }
    }
    hide LastWith, ReadAttributes, Spells, Upper;
  }

  lemma GivesMeans(n: Node, attributes: seq<Attribute>, value: string)
    requires Attributes(n) == Some(attributes) && AllDecode(attributes)
    ensures Gives(n, value) <==> ReadAttributes(attributes).Ok? && ReadAttributes(attributes).value.value == Some(value)
  {
    ValueRead(attributes);
    var last := LastExists(attributes, "value");
    if last >= 0 {
      forall k | LastWith(attributes, "value", k) ensures k == last { LastIsOne(attributes, "value", k, last); }
    }
    hide LastWith, ReadAttributes;
  }

  lemma PinMeans(n: Node)
    requires Decodes(n)
    ensures Readable(n) && (IsEnv(n) <==> Attributes(n).Some?)
    ensures IsPin(n) <==> SetsEither(n)
    ensures IsPin(n) ==> (PinName(n) == HOME <==> Sets(n, HOME_VARIABLE)) && (PinName(n) == DATA_DIR <==> Sets(n, DATA_DIR_VARIABLE))
    ensures IsPin(n) ==> forall v :: PinValue(n) == Some(v) <==> Gives(n, v)
  {
    VariablesAreInCapitals();
    if Attributes(n).Some? {
      var attributes := Attributes(n).value;
      DecodingReads(attributes);
      SetsMeans(n, attributes, HOME_VARIABLE);
      SetsMeans(n, attributes, DATA_DIR_VARIABLE);
      forall v ensures Gives(n, v) <==> ReadAttributes(attributes).Ok? && ReadAttributes(attributes).value.value == Some(v) {
        GivesMeans(n, attributes, v);
      }
    }
    hide Sets, Gives, ReadAttributes;
  }

  // ----- The pins of a root

  /** Every `env` decodes, some sets a variable, those that do give a value that is not empty, and no two set the same. */
  ghost predicate PlainPins(children: seq<Node>) {
    && (forall n | n in children :: Decodes(n))
    && (exists n | n in children :: SetsEither(n))
    && (forall n | n in children && SetsEither(n) :: exists v :: v != "" && Gives(n, v))
    && (forall i, j | 0 <= i < j < |children| :: !SetSame(children[i], children[j]))
  }

  ghost predicate SetSame(m: Node, n: Node) {
    (Sets(m, HOME_VARIABLE) && Sets(n, HOME_VARIABLE)) || (Sets(m, DATA_DIR_VARIABLE) && Sets(n, DATA_DIR_VARIABLE))
  }

  /** Pinning the same variable, as the reader sees it. */
  ghost predicate PinSame(m: Node, n: Node) {
    IsPin(m) && IsPin(n) && PinName(m) == PinName(n)
  }

  lemma {:induction false} PinsApartMeans(children: seq<Node>)
    ensures PinsApart(Pins(children)) <==>
      && (forall n | n in children && IsPin(n) :: PinValue(n).Some?)
      && NoTwoSame(children)
  {
    assert NoTwoSame([]);
    hide IsPin, PinName, PinValue, NoTwoSame;
    if children != [] {
      var first, rest := children[0], children[1..];
      PinsApartMeans(rest);
      assert children == [first] + rest;
      SamePairs(first, rest);
      if IsPin(first) {
        FirstPinApart(first, Pins(rest));
        assert Pins(children) == [first] + Pins(rest);
        assert forall n :: n in Pins(rest) <==> n in rest && IsPin(n);
        hide PinsApart;
        assert (forall n | n in Pins(rest) :: PinName(n) != PinName(first)) <==> forall n | n in rest :: !PinSame(first, n);
      } else {
        assert Pins(children) == Pins(rest);
      }
    }
  }

  ghost predicate NoTwoSame(nodes: seq<Node>) {
    forall i, j | 0 <= i < j < |nodes| :: !PinSame(nodes[i], nodes[j])
  }

  lemma SamePairs(first: Node, rest: seq<Node>)
    ensures NoTwoSame([first] + rest) <==> (forall n | n in rest :: !PinSame(first, n)) && NoTwoSame(rest)
  {
    hide PinSame;
    var all := [first] + rest;
    if NoTwoSame(all) {
      forall n | n in rest ensures !PinSame(first, n) {
        var k :| 0 <= k < |rest| && rest[k] == n;
        assert all[0] == first && all[k + 1] == n;
      }
      forall i, j | 0 <= i < j < |rest| ensures !PinSame(rest[i], rest[j]) {
        assert all[i + 1] == rest[i] && all[j + 1] == rest[j];
      }
    }
    if (forall n | n in rest :: !PinSame(first, n)) && NoTwoSame(rest) {
      forall i, j | 0 <= i < j < |all| ensures !PinSame(all[i], all[j]) { LaterPair(first, rest, i, j); }
    }
  }

  lemma LaterPair(first: Node, rest: seq<Node>, i: nat, j: nat)
    requires i < j <= |rest| && (forall n | n in rest :: !PinSame(first, n)) && NoTwoSame(rest)
    ensures !PinSame(([first] + rest)[i], ([first] + rest)[j])
  {
    assert ([first] + rest)[j] == rest[j - 1] && rest[j - 1] in rest;
    if i > 0 { assert ([first] + rest)[i] == rest[i - 1]; }
  }

  lemma FirstPinApart(first: Node, rest: seq<Node>)
    requires IsPin(first) && forall n | n in rest :: IsPin(n)
    ensures PinsApart([first] + rest) <==>
      PinValue(first).Some? && PinsApart(rest) && forall n | n in rest :: PinName(n) != PinName(first)
  {
    hide IsPin, PinName, PinValue;
    if PinsApart([first] + rest) {
      ApartFromCons(first, rest);
      assert first in [first] + rest;
    } else if PinValue(first).Some? && PinsApart(rest) && forall n | n in rest :: PinName(n) != PinName(first) {
      ApartToCons(first, rest);
    }
  }

  lemma PinsOkMeans(children: seq<Node>)
    ensures PinsOk(children) <==> PlainPins(children)
  {
    hide IsPin, PinName, PinValue, Sets, Gives, Attributes;
    if forall n | n in children :: Decodes(n) {
      forall n | n in children
        ensures Readable(n) && (IsPin(n) <==> SetsEither(n))
        ensures IsPin(n) ==> (PinName(n) == HOME <==> Sets(n, HOME_VARIABLE)) && (PinName(n) == DATA_DIR <==> Sets(n, DATA_DIR_VARIABLE))
        ensures IsPin(n) ==> forall v :: PinValue(n) == Some(v) <==> Gives(n, v)
      {
        PinMeans(n);
      }
      PinsApartMeans(children);
      VariablesAreInCapitals();
      forall i, j | 0 <= i < j < |children| ensures PinSame(children[i], children[j]) <==> SetSame(children[i], children[j]) {
        PinSameMeans(children[i], children[j]);
      }
      hide Decodes, Readable, PinSame, SetSame;
      PinsEmpty(children);
      PinValuesMean(children);
    } else {
      var n :| n in children && !Decodes(n);
      UndecodedIsUnreadable(n);
    }
  }

  lemma PinSameMeans(m: Node, n: Node)
    requires Decodes(m) && Decodes(n)
    ensures PinSame(m, n) <==> SetSame(m, n)
  {
    PinMeans(m);
    PinMeans(n);
    VariablesAreInCapitals();
    PinNamesAreTwo(m);
    PinNamesAreTwo(n);
    hide IsPin, PinName, PinValue, Sets, Gives, Attributes, Decodes;
  }

  lemma PinNamesAreTwo(n: Node)
    ensures IsPin(n) ==> PinName(n) == HOME || PinName(n) == DATA_DIR
  {
  }

  lemma PinsEmpty(children: seq<Node>)
    ensures Pins(children) != [] <==> exists n | n in children :: IsPin(n)
  {
    hide IsPin;
    if Pins(children) != [] { assert Pins(children)[0] in Pins(children); }
  }

  /** Having a value, none of them empty, is having one that is not. */
  lemma PinValuesMean(children: seq<Node>)
    requires forall n | n in children && IsPin(n) :: forall v :: PinValue(n) == Some(v) <==> Gives(n, v)
    ensures (forall n | n in children && IsPin(n) :: PinValue(n).Some? && PinValue(n) != Some("")) <==>
      forall n | n in children && IsPin(n) :: exists v :: v != "" && Gives(n, v)
  {
    hide IsPin, PinValue, Gives;
    forall n | n in children && IsPin(n)
      ensures PinValue(n).Some? && PinValue(n) != Some("") <==> exists v :: v != "" && Gives(n, v)
    {
      if PinValue(n).Some? { assert Gives(n, PinValue(n).value); }
    }
  }

  lemma UndecodedIsUnreadable(n: Node)
    requires !Decodes(n)
    ensures !Readable(n)
  {
    DecodingReads(Attributes(n).value);
  }

  // ----- Documents

  /** How many levels of elements a node has. */
  function Levels(n: Node): nat {
    match n
    case Leaf(_) => 0
    case Element(_, _, children) => 1 + LevelsOf(children)
  }

  function LevelsOf(nodes: seq<Node>): (levels: nat)
    ensures forall n | n in nodes :: Levels(n) <= levels
    ensures levels == 0 || exists n | n in nodes :: Levels(n) == levels
  {
    if nodes == [] then 0
    else
      var rest := LevelsOf(nodes[1..]);
      assert nodes[0] in nodes && forall n | n in nodes[1..] :: n in nodes;
      if Levels(nodes[0]) > rest then Levels(nodes[0]) else rest
  }

  /** No declaration, DTD or unreadable event below the node. */
  predicate Clean(n: Node) {
    match n
    case Leaf(e) => !e.Decl? && !e.DocType? && !e.Malformed?
    case Element(_, _, children) => forall c | c in children :: Clean(c)
  }

  lemma {:induction false} InnerMeans(n: Node, room: nat)
    ensures InnerNodeOk(n, room) <==> Clean(n) && Levels(n) <= room
    decreases n
  {
    if n.Element? {
      if room == 0 {
        assert Levels(n) > 0;
      } else {
        forall c | c in n.children ensures InnerNodeOk(c, room - 1) <==> Clean(c) && Levels(c) <= room - 1 {
          InnerMeans(c, room - 1);
        }
        assert LevelsOf(n.children) <= room - 1 <==> forall c | c in n.children :: Levels(c) <= room - 1;
      }
    }
  }

  /** Space, tab, line feed, form feed and carriage return. */
  predicate Whitespace(c: char) {
    c as int in {9, 10, 12, 13, 32}
  }

  predicate Beside(n: Node, beforeRoot: bool) {
    match n
    case Leaf(Comment) => true
    case Leaf(Chars(text)) => forall k | 0 <= k < |text| :: Whitespace(text[k])
    case Leaf(Decl) => beforeRoot
    case _ => false
  }

  lemma BesideMeans(n: Node, beforeRoot: bool)
    ensures OutsideOk(n, beforeRoot) <==> Beside(n, beforeRoot)
  {
    if n.Leaf? && n.event.Chars? {
      var text := n.event.text;
      assert forall k | 0 <= k < |text| :: text[k] in text;
    }
  }

  /** One root `service`, 32 levels at most, nothing but blank text, comments and a declaration beside it, and its pins. */
  ghost predicate IsServiceDocument(doc: seq<Node>, root: int) {
    && 0 <= root < |doc|
    && doc[root].Element? && doc[root].name == "service"
    && (forall k | 0 <= k < |doc| && k != root :: Beside(doc[k], k < root))
    && Levels(doc[root]) <= 32
    && Clean(doc[root])
    && PlainPins(doc[root].children)
  }

  lemma ServiceDocumentMeans(doc: seq<Node>, root: int)
    ensures DocumentOk(doc, root) <==> IsServiceDocument(doc, root)
  {
    hide PinsOk, PlainPins, OutsideOk, Beside;
    if 0 <= root < |doc| && doc[root].Element? {
      forall k | 0 <= k < |doc| && k != root ensures OutsideOk(doc[k], k < root) <==> Beside(doc[k], k < root) {
        BesideMeans(doc[k], k < root);
      }
      InnerMeans(doc[root], 32);
      PinsOkMeans(doc[root].children);
    }
  }

  ghost predicate SetsTo(children: seq<Node>, variable: string, value: string) {
    exists n | n in children :: Sets(n, variable) && Gives(n, value)
  }

  /** The reader succeeds on exactly the service documents, and returns what their roots' children set. */
  lemma ReadsServiceDocuments(doc: seq<Node>)
    requires Proper(doc)
    ensures Read(FlattenAll(doc)).Ok? <==> exists root :: IsServiceDocument(doc, root)
    ensures forall root | IsServiceDocument(doc, root) :: Read(FlattenAll(doc)).Ok? &&
              var result := Read(FlattenAll(doc)).value;
              && (forall v :: result.home == Some(v) <==> SetsTo(doc[root].children, "RELAY_KNOWLEDGE_HOME", v))
              && (forall v :: result.dataDir == Some(v) <==> SetsTo(doc[root].children, "RELAY_KNOWLEDGE_DATA_DIR", v))
  {
    ReadsDocuments(doc);
    forall root ensures DocumentOk(doc, root) <==> IsServiceDocument(doc, root) { ServiceDocumentMeans(doc, root); }
    hide DocumentOk, Read, FlattenAll;
    forall root | IsServiceDocument(doc, root)
      ensures Read(FlattenAll(doc)).Ok? && var result := Read(FlattenAll(doc)).value;
        && (forall v :: result.home == Some(v) <==> SetsTo(doc[root].children, HOME_VARIABLE, v))
        && (forall v :: result.dataDir == Some(v) <==> SetsTo(doc[root].children, DATA_DIR_VARIABLE, v))
    {
      assert DocumentOk(doc, root);
      var result := Read(FlattenAll(doc)).value;
      var children := doc[root].children;
      hide Pinned;
      assert PlainPins(children);
      hide IsServiceDocument, PlainPins, SetsTo;
      forall v
        ensures result.home == Some(v) <==> SetsTo(children, HOME_VARIABLE, v)
        ensures result.dataDir == Some(v) <==> SetsTo(children, DATA_DIR_VARIABLE, v)
      {
        PinnedMeans(children, HOME_VARIABLE, result.home, v);
        PinnedMeans(children, DATA_DIR_VARIABLE, result.dataDir, v);
      }
    }
  }

  lemma PinnedMeans(children: seq<Node>, variable: string, value: Option<string>, v: string)
    requires PlainPins(children) && (variable == HOME_VARIABLE || variable == DATA_DIR_VARIABLE)
    requires Pinned(children, variable, value)
    ensures value == Some(v) <==> SetsTo(children, variable, v)
  {
    VariablesAreInCapitals();
    hide IsPin, PinName, PinValue, Sets, Gives, Attributes, Decodes;
    forall n | n in children ensures PinsAre(n, variable) { PinMeans(n); }
    if value.Some? {
      var n :| n in children && IsPin(n) && PinName(n) == variable && PinValue(n) == value;
      assert PinsAre(n, variable);
      var i :| 0 <= i < |children| && children[i] == n;
      forall m, w | m in children && Sets(m, variable) && Gives(m, w) ensures Some(w) == value {
        assert PinsAre(m, variable);
        var j :| 0 <= j < |children| && children[j] == m;
        if i < j { assert !SetSame(children[i], children[j]); }
        if j < i { assert !SetSame(children[j], children[i]); }
      }
    } else {
      forall m | m in children ensures !Sets(m, variable) { assert PinsAre(m, variable); }
    }
  }

  /** `n` sets the variable exactly when the reader sees a pin of it, with the same value. */
  ghost predicate PinsAre(n: Node, variable: string) {
    && (Sets(n, variable) <==> IsPin(n) && PinName(n) == variable)
    && (IsPin(n) ==> forall v :: PinValue(n) == Some(v) <==> Gives(n, v))
  }

  // ----- Consequences

  function Service(attributes: seq<Attribute>, children: seq<Node>): seq<Node> {
    [Element("service", attributes, children)]
  }

  function Env(attributes: seq<Attribute>): Node {
    Leaf(Empty("env", attributes))
  }

  /** The attributes decode, and the last name and value are these. */
  predicate NameAndValue(attributes: seq<Attribute>, variable: string, value: string, k: int, i: int) {
    && AllDecode(attributes)
    && LastWith(attributes, "name", k) && Spells(attributes[k].text.value, variable)
    && LastWith(attributes, "value", i) && attributes[i].text == Some(value)
  }

  lemma NameAndValueSets(attributes: seq<Attribute>, variable: string, value: string, k: int, i: int)
    requires NameAndValue(attributes, variable, value, k, i)
    ensures var n := Env(attributes); Decodes(n) && Sets(n, variable) && Gives(n, value)
    ensures forall v :: Gives(Env(attributes), v) ==> v == value
    ensures forall other | |other| != |variable| :: !Sets(Env(attributes), other)
  {
    forall j | LastWith(attributes, "value", j) ensures j == i { LastIsOne(attributes, "value", j, i); }
    forall j | LastWith(attributes, "name", j) ensures j == k { LastIsOne(attributes, "name", j, k); }
  }

  lemma FlatService(attributes: seq<Attribute>, children: seq<Node>)
    requires forall n | n in children :: n.Leaf? && n.event.Empty?
    ensures Proper(Service(attributes, children))
    ensures IsServiceDocument(Service(attributes, children), 0) <==> PlainPins(children)
  {
    hide PlainPins;
    var doc := Service(attributes, children);
    var root := doc[0];
    assert root == Element("service", attributes, children);
    assert LevelsOf(children) == 0 && Levels(root) == 1;
    assert Clean(root);
    assert Proper(children);
    forall n | n in doc ensures n == root {}
  }

  /** A root with flat children reads as what they set. */
  lemma ReadsAs(attributes: seq<Attribute>, children: seq<Node>, home: Option<string>, dataDir: Option<string>)
    requires PlainPins(children) && forall n | n in children :: n.Leaf? && n.event.Empty?
    requires forall v :: SetsTo(children, HOME_VARIABLE, v) <==> home == Some(v)
    requires forall v :: SetsTo(children, DATA_DIR_VARIABLE, v) <==> dataDir == Some(v)
    ensures Read(FlattenAll(Service(attributes, children))) == Ok(Overrides(home, dataDir))
  {
    var doc := Service(attributes, children);
    FlatService(attributes, children);
    assert doc[0].children == children;
    ReadsServiceDocuments(doc);
    hide Read, FlattenAll, PlainPins, IsServiceDocument, SetsTo;
    var result := Read(FlattenAll(doc)).value;
    OptionIs(result.home, home);
    OptionIs(result.dataDir, dataDir);
  }

  /** A root with the one pin, in any spelling of its name, reads as that one override. */
  lemma OnePinIsRead(attributes: seq<Attribute>, env: seq<Attribute>, variable: string, value: string, k: int, i: int)
    requires variable == "RELAY_KNOWLEDGE_HOME" || variable == "RELAY_KNOWLEDGE_DATA_DIR"
    requires NameAndValue(env, variable, value, k, i) && value != ""
    ensures Read(FlattenAll(Service(attributes, [Env(env)]))) ==
      Ok(if variable == "RELAY_KNOWLEDGE_HOME" then Overrides(Some(value), None) else Overrides(None, Some(value)))
  {
    hide Sets, Gives, Decodes, NameAndValue, Read, FlattenAll;
    var n := Env(env);
    var children := [n];
    NameAndValueSets(env, variable, value, k, i);
    assert |HOME_VARIABLE| != |DATA_DIR_VARIABLE|;
    assert n in children && SetsEither(n);
    assert PlainPins(children);
    assert SetsTo(children, variable, value);
    ReadsAs(attributes, children, if variable == HOME_VARIABLE then Some(value) else None,
            if variable == DATA_DIR_VARIABLE then Some(value) else None);
  }

  lemma OptionIs(a: Option<string>, b: Option<string>)
    requires forall v :: a == Some(v) <==> b == Some(v)
    ensures a == b
  {
    if a.Some? { assert b == Some(a.value); }
    if b.Some? { assert a == Some(b.value); }
  }

  /** With both variables pinned, it reads both. */
  lemma BothPinsAreRead(attributes: seq<Attribute>, home: seq<Attribute>, h: string, hk: int, hi: int, data: seq<Attribute>, d: string, dk: int, di: int)
    requires NameAndValue(home, "RELAY_KNOWLEDGE_HOME", h, hk, hi) && h != ""
    requires NameAndValue(data, "RELAY_KNOWLEDGE_DATA_DIR", d, dk, di) && d != ""
    ensures Read(FlattenAll(Service(attributes, [Env(home), Env(data)]))) == Ok(Overrides(Some(h), Some(d)))
  {
    hide Sets, Gives, Decodes, NameAndValue, Read, FlattenAll;
    var m, n := Env(home), Env(data);
    var children := [m, n];
    NameAndValueSets(home, HOME_VARIABLE, h, hk, hi);
    NameAndValueSets(data, DATA_DIR_VARIABLE, d, dk, di);
    assert |HOME_VARIABLE| != |DATA_DIR_VARIABLE|;
    assert m in children && n in children && SetsEither(m) && SetsEither(n);
    assert !Sets(m, DATA_DIR_VARIABLE) && !Sets(n, HOME_VARIABLE);
    assert PlainPins(children);
    assert SetsTo(children, HOME_VARIABLE, h) && SetsTo(children, DATA_DIR_VARIABLE, d);
    ReadsAs(attributes, children, Some(h), Some(d));
  }

  lemma ForeignKeepsPins(before: seq<Node>, n: Node, after: seq<Node>)
    requires Decodes(n) && !SetsEither(n)
    ensures PlainPins(before + [n] + after) <==> PlainPins(before + after)
    ensures forall variable, v | variable == HOME_VARIABLE || variable == DATA_DIR_VARIABLE ::
              SetsTo(before + [n] + after, variable, v) <==> SetsTo(before + after, variable, v)
  {
    var more, fewer := before + [n] + after, before + after;
    forall m | m in more ensures m in fewer || m == n {}
    forall m | m in fewer ensures m in more {}
    assert n in more;
    hide Sets, Gives, Decodes;
    if forall i, j | 0 <= i < j < |more| :: !SetSame(more[i], more[j]) {
      forall i, j | 0 <= i < j < |fewer| ensures !SetSame(fewer[i], fewer[j]) {
        var x, y := if i < |before| then i else i + 1, if j < |before| then j else j + 1;
        assert fewer[i] == more[x] && fewer[j] == more[y];
      }
    }
    if forall i, j | 0 <= i < j < |fewer| :: !SetSame(fewer[i], fewer[j]) {
      forall i, j | 0 <= i < j < |more| ensures !SetSame(more[i], more[j]) {
        if i != |before| && j != |before| {
          var x, y := if i < |before| then i else i - 1, if j < |before| then j else j - 1;
          assert more[i] == fewer[x] && more[j] == fewer[y];
        }
      }
    }
  }

  /** An `env` of any other name, or of none, changes nothing wherever it stands among the root's children. */
  lemma ForeignEnvChangesNothing(attributes: seq<Attribute>, before: seq<Node>, env: seq<Attribute>, after: seq<Node>)
    requires Decodes(Env(env)) && !SetsEither(Env(env)) && Proper(Service(attributes, before + after))
    ensures var more, fewer := Service(attributes, before + [Env(env)] + after), Service(attributes, before + after);
      && Proper(more)
      && Read(FlattenAll(more)).Ok? == Read(FlattenAll(fewer)).Ok?
      && (Read(FlattenAll(more)).Ok? ==> Read(FlattenAll(more)) == Read(FlattenAll(fewer)))
  {
    var n := Env(env);
    var some, all := before + after, before + [n] + after;
    var fewer, more := Service(attributes, some), Service(attributes, all);
    ForeignKeepsPins(before, n, after);
    hide Sets, Gives, Decodes, PlainPins, SetsTo, SetsEither;
    ForeignKeepsTree(attributes, before, n, after);
    ReadsServiceDocuments(more);
    ReadsServiceDocuments(fewer);
    OnlyRootIsFirst(attributes, all);
    OnlyRootIsFirst(attributes, some);
    hide Read, FlattenAll, IsServiceDocument;
    if Read(FlattenAll(more)).Ok? {
      var a, b := Read(FlattenAll(more)).value, Read(FlattenAll(fewer)).value;
      assert more[0].children == all && fewer[0].children == some;
      OptionIs(a.home, b.home);
      OptionIs(a.dataDir, b.dataDir);
    }
  }

  lemma OnlyRootIsFirst(attributes: seq<Attribute>, children: seq<Node>)
    ensures forall root | IsServiceDocument(Service(attributes, children), root) :: root == 0
  {
  }

  lemma ForeignKeepsTree(attributes: seq<Attribute>, before: seq<Node>, n: Node, after: seq<Node>)
    requires n.Leaf? && n.event.Empty? && Proper(Service(attributes, before + after))
    requires PlainPins(before + [n] + after) <==> PlainPins(before + after)
    ensures var more, fewer := Service(attributes, before + [n] + after), Service(attributes, before + after);
      Proper(more) && (IsServiceDocument(more, 0) <==> IsServiceDocument(fewer, 0))
  {
    hide PlainPins;
    var some, all := before + after, before + [n] + after;
    var fewer, more := Service(attributes, some), Service(attributes, all);
    SameNodes(before, n, after);
    assert Proper(some) by { assert fewer[0] in fewer; }
    assert Proper(all);
    assert Proper(more) by { forall m | m in more ensures m == more[0] {} }
    assert Levels(more[0]) == Levels(fewer[0]) && Clean(more[0]) == Clean(fewer[0]);
  }

  lemma SameNodes(before: seq<Node>, n: Node, after: seq<Node>)
    requires n.Leaf? && n.event.Empty?
    ensures forall m :: m in before + [n] + after <==> m in before + after || m == n
    ensures LevelsOf(before + [n] + after) == LevelsOf(before + after)
  {
    var more, fewer := before + [n] + after, before + after;
    assert n in more;
    forall m | m in fewer ensures m in more && Levels(m) <= LevelsOf(more) {}
  }
}
