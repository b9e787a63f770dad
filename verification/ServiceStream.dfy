/** Every event stream the reader accepts is balanced: it comes from a service document. */
module ServiceStream {
  import opened ServiceDefinition
  import opened ServiceDocument

  function Delta(e: Event): int {
    if e.Start? then 1 else if e.End? then -1 else 0
  }

  /** Tags opened and not yet closed. */
  function Level(events: seq<Event>): int {
    if events == [] then 0 else Level(events[..|events| - 1]) + Delta(events[|events| - 1])
  }

  lemma {:induction false} LevelSplit(a: seq<Event>, b: seq<Event>)
    ensures Level(a + b) == Level(a) + Level(b)
    decreases b
  {
    if b == [] {
      assert a + b == a;
    } else {
      assert (a + b)[..|a + b| - 1] == a + b[..|b| - 1];
      LevelSplit(a, b[..|b| - 1]);
    }
  }

  lemma LevelBetween(events: seq<Event>, from: nat, to: nat)
    requires from <= to <= |events|
    ensures Level(events[..to]) == Level(events[..from]) + Level(events[from..to])
  {
    assert events[..to] == events[..from] + events[from..to];
    LevelSplit(events[..from], events[from..to]);
  }

  /** Every closing tag closes something, and nothing stays open. */
  ghost predicate Balanced(events: seq<Event>) {
    Level(events) == 0 && forall k | 0 <= k <= |events| :: Level(events[..k]) >= 0
  }

  lemma {:induction false} DepthIsLevel(s: State, events: seq<Event>)
    requires Scan(s, events).Ok?
    ensures Scan(s, events).value.depth == s.depth + Level(events)
    decreases events
  {
    if events != [] {
      hide PushOverride;
      var next := Step(s, events[0]).value;
      DepthIsLevel(next, events[1..]);
      assert events == [events[0]] + events[1..];
      LevelSplit([events[0]], events[1..]);
      assert Level([events[0]]) == Delta(events[0]);
    }
  }

  lemma AcceptedIsBalanced(events: seq<Event>)
    requires Read(events).Ok?
    ensures Balanced(events)
  {
    DepthIsLevel(INITIAL, events);
    forall k | 0 <= k <= |events| ensures Level(events[..k]) >= 0 {
      assert events == events[..k] + events[k..];
      ScanConcat(INITIAL, events[..k], events[k..]);
      DepthIsLevel(INITIAL, events[..k]);
    }
  }

  /** The closing tag of an opening one. */
  lemma Closing(events: seq<Event>) returns (end: nat)
    requires Balanced(events) && events != [] && events[0].Start?
    ensures 1 < end <= |events| && events[end - 1].End? && Level(events[..end]) == 0
    ensures forall k | 1 <= k < end :: Level(events[..k]) >= 1
  {
    end := 1;
    assert events[..1] == [] + [events[0]] && Level(events[..1]) == 1;
    while Level(events[..end]) != 0
      invariant 1 <= end <= |events|
      invariant forall k | 1 <= k < end :: Level(events[..k]) >= 1
      decreases |events| - end
    {
      assert Level(events[..end]) >= 0;
      assert events[..|events|] == events;
      end := end + 1;
    }
    assert events[..end][..end - 1] == events[..end - 1];
  }

  lemma SplitAt(events: seq<Event>, end: nat)
    requires 1 < end <= |events|
    ensures events == ([events[0]] + events[1..end - 1] + [events[end - 1]]) + events[end..]
  {
  }

  lemma {:induction false} ProperCons(n: Node, nodes: seq<Node>)
    requires Proper(nodes) && if n.Leaf? then !IsTag(n.event) else Proper(n.children)
    ensures Proper([n] + nodes) && FlattenAll([n] + nodes) == Flatten(n) + FlattenAll(nodes)
  {
    assert ([n] + nodes)[1..] == nodes;
  }

  /** A balanced stream is the flattening of a forest. */
  lemma {:induction false} Parse(events: seq<Event>) returns (nodes: seq<Node>)
    requires Balanced(events)
    ensures Proper(nodes) && FlattenAll(nodes) == events
    decreases |events|
  {
    hide Proper;
    if events == [] {
      assert Proper([]) by { NothingIsProper(); }
      nodes := [];
    } else if events[0].Start? {
      var end := Closing(events);
      var inner, rest := events[1..end - 1], events[end..];
      InnerBalanced(events, end);
      var children := Parse(inner);
      var siblings := Parse(rest);
      var node := Element(events[0].name, events[0].attributes, children);
      nodes := [node] + siblings;
      ProperCons(node, siblings);
      SplitAt(events, end);
      assert Flatten(node) == [events[0]] + inner + [End];
    } else {
      LevelBetween(events, 0, 1);
      assert events[..1] == [] + [events[0]] && Level(events[..1]) == Delta(events[0]);
      TailBalanced(events, 1);
      var siblings := Parse(events[1..]);
      nodes := [Leaf(events[0])] + siblings;
      ProperCons(Leaf(events[0]), siblings);
      assert events == [events[0]] + events[1..];
    }
  }

  lemma NothingIsProper()
    ensures Proper([])
  {
  }

  lemma TailBalanced(events: seq<Event>, from: nat)
    requires Balanced(events) && from <= |events| && Level(events[..from]) == 0
    ensures Balanced(events[from..])
  {
    var rest := events[from..];
    forall k | 0 <= k <= |rest| ensures Level(rest[..k]) == Level(events[..from + k]) {
      assert rest[..k] == events[from..from + k];
      LevelBetween(events, from, from + k);
    }
    assert rest[..|rest|] == rest && events[..|events|] == events;
  }

  lemma InnerBalanced(events: seq<Event>, end: nat)
    requires Balanced(events) && 1 < end <= |events| && events[0].Start? && events[end - 1].End?
    requires Level(events[..end]) == 0 && forall k | 1 <= k < end :: Level(events[..k]) >= 1
    ensures Balanced(events[1..end - 1]) && Balanced(events[end..])
  {
    var inner := events[1..end - 1];
    assert events[..1] == [] + [events[0]] && Level(events[..1]) == 1;
    forall k | 0 <= k <= |inner| ensures Level(inner[..k]) == Level(events[..k + 1]) - 1 >= 0 {
      assert inner[..k] == events[1..k + 1];
      LevelBetween(events, 1, k + 1);
    }
    assert inner[..|inner|] == inner;
    assert events[..end][..end - 1] == events[..end - 1];
    TailBalanced(events, end);
  }

  /** The reader accepts a stream exactly when it is the flattening of a service document. */
  lemma AcceptsServiceDocumentsOnly(events: seq<Event>)
    ensures Read(events).Ok? <==>
            exists doc, root :: Proper(doc) && FlattenAll(doc) == events && DocumentOk(doc, root)
  {
    hide Read, DocumentOk, Balanced, Proper;
    if Read(events).Ok? {
      AcceptedIsBalanced(events);
      var doc := Parse(events);
      ReadsDocuments(doc);
      var root :| DocumentOk(doc, root);
    }
    if doc, root :| Proper(doc) && FlattenAll(doc) == events && DocumentOk(doc, root) {
      ReadsDocuments(doc);
    }
  }
}
