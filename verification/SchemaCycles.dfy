/** Why cycles of references are excluded: a reference graph guarantees verdicts exactly when it has none. */
module SchemaCycles {
  import opened Prelude
  import opened SchemaModel
  import opened SchemaValidator
  import opened SchemaMeaning
  import opened SchemaGraph

  ghost predicate DecidesEverything(defs: Definitions) {
    forall s, j :: Decides(defs, s, j, Accepted) || Decides(defs, s, j, Rejected)
  }

  /** The same definitions by name, each with the same direct references, but otherwise any schemas. */
  ghost predicate SameReferences(defs: Definitions, others: Definitions) {
    && Names(defs) == Names(others)
    && forall name | name in Names(defs) :: DirectRefs(defs, defs.value[name]) == DirectRefs(others, others.value[name])
  }

  lemma SameReferencesSameCycles(defs: Definitions, others: Definitions)
    requires SameReferences(defs, others) && Acyclic(defs)
    ensures Acyclic(others)
  {
    hide DirectRefs, Names;
    forall path | Walk(others, path) && |path| > 1 ensures path[0] != path[|path| - 1] {
      forall k | 0 < k < |path| ensures Refers(defs, path[k - 1], path[k]) {
        assert Refers(others, path[k - 1], path[k]);
      }
      assert Walk(defs, path);
    }
  }

  // ----- Definitions that do nothing but refer

  const NO_CHECKS := Checks(None, None, None, 0, None, None, None, None, None, [], 0, None, false)

  /** The schema `{"allOf": [...]}`. */
  function AllOfNode(schemas: seq<Schema>): Schema {
    Node(NO_CHECKS, schemas, None, None, None, Absent, Absent, None, None, NotAnObject, true, None)
  }

  ghost predicate OnlyRefers(defs: Definitions, s: Schema) {
    s.Node? && s == AllOfNode(s.allOf) && forall c | c in s.allOf :: c.Ref? && Resolve(defs, c.reference).Some?
  }

  ghost predicate AllOnlyRefer(defs: Definitions) {
    defs.Some? && forall name | name in defs.value :: OnlyRefers(defs, defs.value[name])
  }

  lemma AllOfNodeRuns(call: Callee, schemas: seq<Schema>, j: Json)
    ensures RunNode(call, AllOfNode(schemas), j) == FirstFailure(Answers(call, AskAll(schemas, j)))
  {
    var n := AllOfNode(schemas);
    var calls := Calls(call, n, j);
    assert calls(AllOf) == Answers(call, AskAll(schemas, j));
    assert calls(If) == [] && calls(Not) == [] && calls(PropertyNames) == [] && calls(Members) == [] && calls(Items) == [];
    assert ScalarChecks(NO_CHECKS, j) && ContainerChecks(NO_CHECKS, j);
  }

  lemma {:induction false} FirstFailureAmong(outcomes: seq<Outcome>)
    requires Rejected !in outcomes
    ensures FirstFailure(outcomes) == if Exhausted in outcomes then Exhausted else Accepted
  {
    if outcomes != [] && outcomes[0] == Accepted {
      FirstFailureAmong(outcomes[1..]);
      assert outcomes == [outcomes[0]] + outcomes[1..];
    } else if outcomes != [] {
      assert outcomes[0] in outcomes;
    }
  }

  lemma {:induction false} NeverRejects(stack: nat, defs: Definitions, s: Schema, j: Json)
    requires AllOnlyRefer(defs) && (OnlyRefers(defs, s) || (s.Ref? && Resolve(defs, s.reference).Some?))
    ensures Validate(stack, defs, s, j) != Rejected
    decreases stack
  {
    hide RunNode;
    if stack > 0 {
      if s.Ref? {
        NeverRejects(stack - 1, defs, Resolve(defs, s.reference).value, j);
      } else {
        var outcomes := Answers(Validator(stack - 1, defs), AskAll(s.allOf, j));
        AllOfNodeRuns(Validator(stack - 1, defs), s.allOf, j);
        forall k | 0 <= k < |outcomes| ensures outcomes[k] != Rejected {
          assert s.allOf[k] in s.allOf;
          NeverRejects(stack - 1, defs, s.allOf[k], j);
        }
        FirstFailureAmong(outcomes);
      }
    }
  }

  /** Looking a definition up costs one call, running it another. */
  lemma DefinitionRuns(stack: nat, defs: Definitions, name: string, j: Json)
    requires defs.Some? && name in defs.value && OnlyRefers(defs, defs.value[name])
    ensures Validate(stack, defs, Ref(PREFIX + name), j) ==
      if stack < 2 then Exhausted
      else FirstFailure(Answers(Validator(stack - 2, defs), AskAll(defs.value[name].allOf, j)))
  {
    hide RunNode;
    ResolveName(defs, name);
    if stack > 1 { AllOfNodeRuns(Validator(stack - 2, defs), defs.value[name].allOf, j); }
  }

  /** Definitions that keep referring to each other exhaust every call depth. */
  lemma {:induction false} PoolExhausts(stack: nat, defs: Definitions, pool: set<string>, a: string, j: Json)
    requires AllOnlyRefer(defs) && a in pool
    requires forall a {:trigger RefersInto(defs, pool, a)} | a in pool :: RefersInto(defs, pool, a)
    ensures Validate(stack, defs, Ref(PREFIX + a), j) == Exhausted
    decreases stack
  {
    hide Validate, OnlyRefers, DirectRefs, FirstFailure, Answer;
    assert RefersInto(defs, pool, a);
    var b :| b in pool && Refers(defs, a, b);
    DefinitionRuns(stack, defs, a, j);
    if stack > 1 {
      var s := defs.value[a];
      var k := ReferenceOf(defs, s, b);
      PoolExhausts(stack - 2, defs, pool, b, j);
      ExhaustedAmong(stack - 2, defs, s, k, j);
    }
  }

  lemma ExhaustedAmong(stack: nat, defs: Definitions, s: Schema, k: nat, j: Json)
    requires AllOnlyRefer(defs) && OnlyRefers(defs, s) && k < |s.allOf|
    requires Validate(stack, defs, s.allOf[k], j) == Exhausted
    ensures FirstFailure(Answers(Validator(stack, defs), AskAll(s.allOf, j))) == Exhausted
  {
    hide Validate;
    var outcomes := Answers(Validator(stack, defs), AskAll(s.allOf, j));
    forall i | 0 <= i < |outcomes| ensures outcomes[i] != Rejected {
      assert s.allOf[i] in s.allOf;
      NeverRejects(stack, defs, s.allOf[i], j);
    }
    assert outcomes[k] == Exhausted;
    FirstFailureAmong(outcomes);
  }

  lemma ResolveName(defs: Definitions, name: string)
    requires defs.Some? && name in defs.value
    ensures Resolve(defs, PREFIX + name) == Some(defs.value[name])
  {
    assert (PREFIX + name)[|PREFIX|..] == name;
  }

  lemma ReferenceOf(defs: Definitions, s: Schema, b: string) returns (k: nat)
    requires OnlyRefers(defs, s) && b in DirectRefs(defs, s)
    ensures k < |s.allOf| && s.allOf[k] == Ref(PREFIX + b)
  {
    assert InPlace(s) == s.allOf;
    var c :| c in InPlace(s) && b in DirectRefs(defs, c);
    assert c.reference == PREFIX + c.reference[|PREFIX|..];
    k :| 0 <= k < |s.allOf| && s.allOf[k] == c;
  }

  // ----- The worst schemas over a reference graph

  ghost function RefsTo(names: set<string>): (refs: seq<Schema>)
    ensures forall c | c in refs :: c.Ref? && PREFIX <= c.reference && c.reference[|PREFIX|..] in names
    ensures forall name | name in names :: Ref(PREFIX + name) in refs
  {
    if names == {} then []
    else
      var name :| name in names;
      assert (PREFIX + name)[|PREFIX|..] == name;
      [Ref(PREFIX + name)] + RefsTo(names - {name})
  }

  /** Every definition replaced by the conjunction of its direct references. */
  ghost function Skeleton(defs: Definitions): Definitions
    requires defs.Some?
  {
    Some(map name | name in defs.value :: AllOfNode(RefsTo(DirectRefs(defs, defs.value[name]))))
  }

  lemma RefsToResolve(defs: Definitions, names: set<string>)
    requires defs.Some? && names <= defs.value.Keys
    ensures forall c | c in RefsTo(names) :: c.Ref? && Resolve(defs, c.reference).Some? && c.reference[|PREFIX|..] in names
  {
  }

  lemma RefsToNames(defs: Definitions, names: set<string>)
    requires defs.Some? && names <= defs.value.Keys
    ensures OnlyRefers(defs, AllOfNode(RefsTo(names)))
    ensures DirectRefs(defs, AllOfNode(RefsTo(names))) == names
  {
    RefsToResolve(defs, names);
    var refs := RefsTo(names);
    DirectRefsOfAllOf(defs, refs);
    hide RefsTo, Resolve, DirectRefs, OnlyRefers;
    forall c, r | c in refs && r in DirectRefs(defs, c) ensures r in names {
      DirectRefsOfRef(defs, c);
    }
    forall r | r in names ensures exists c :: c in refs && r in DirectRefs(defs, c) {
      var c := Ref(PREFIX + r);
      assert (PREFIX + r)[|PREFIX|..] == r && c in refs;
      DirectRefsOfRef(defs, c);
    }
    OnlyRefersIs(defs, refs);
  }

  lemma OnlyRefersIs(defs: Definitions, refs: seq<Schema>)
    requires forall c | c in refs :: c.Ref? && Resolve(defs, c.reference).Some?
    ensures OnlyRefers(defs, AllOfNode(refs))
  {
  }

  lemma DirectRefsOfRef(defs: Definitions, c: Schema)
    requires c.Ref? && Resolve(defs, c.reference).Some?
    ensures DirectRefs(defs, c) == {c.reference[|PREFIX|..]}
  {
  }

  lemma DirectRefsOfAllOf(defs: Definitions, schemas: seq<Schema>)
    ensures forall name :: name in DirectRefs(defs, AllOfNode(schemas)) <==> exists c :: c in schemas && name in DirectRefs(defs, c)
  {
    InPlaceOfAllOf(schemas);
    hide InPlace;
  }

  lemma InPlaceOfAllOf(schemas: seq<Schema>)
    ensures InPlace(AllOfNode(schemas)) == schemas
  {
  }

  lemma SkeletonRefers(defs: Definitions, name: string)
    requires defs.Some? && name in defs.value
    ensures OnlyRefers(Skeleton(defs), Skeleton(defs).value[name])
    ensures DirectRefs(Skeleton(defs), Skeleton(defs).value[name]) == DirectRefs(defs, defs.value[name])
  {
    DirectRefsResolve(defs, defs.value[name]);
    hide DirectRefs, OnlyRefers;
    RefsToNames(Skeleton(defs), DirectRefs(defs, defs.value[name]));
  }

  lemma SkeletonKeepsReferences(defs: Definitions)
    requires defs.Some?
    ensures AllOnlyRefer(Skeleton(defs)) && SameReferences(defs, Skeleton(defs))
  {
    hide OnlyRefers, DirectRefs;
    forall name | name in defs.value
      ensures OnlyRefers(Skeleton(defs), Skeleton(defs).value[name])
      ensures DirectRefs(Skeleton(defs), Skeleton(defs).value[name]) == DirectRefs(defs, defs.value[name])
    {
      SkeletonRefers(defs, name);
    }
  }

  /** A closed walk is a pool whose members keep referring to each other. */
  lemma CycleIsAPool(defs: Definitions, path: seq<string>) returns (pool: set<string>)
    requires Walk(defs, path) && |path| > 1 && path[0] == path[|path| - 1]
    ensures path[0] in pool
    ensures forall a {:trigger RefersInto(defs, pool, a)} | a in pool :: RefersInto(defs, pool, a)
  {
    hide Refers;
    pool := set a | a in path;
    forall a | a in pool ensures RefersInto(defs, pool, a) {
      var k :| 0 <= k < |path| && path[k] == a;
      var next := if k == |path| - 1 then 1 else k + 1;
      assert Refers(defs, path[next - 1], path[next]);
      assert path[next] in pool;
    }
  }

  /** Over the graph of a cycle there are definitions that give no verdict on any instance. */
  lemma CyclesCanRunForever(defs: Definitions, path: seq<string>, stack: nat, j: Json)
    requires Walk(defs, path) && |path| > 1 && path[0] == path[|path| - 1]
    ensures defs.Some? && SameReferences(defs, Skeleton(defs))
    ensures Validate(stack, Skeleton(defs), Ref(PREFIX + path[0]), j) == Exhausted
  {
    assert Refers(defs, path[0], path[1]);
    SkeletonKeepsReferences(defs);
    hide DirectRefs, Skeleton;
    forall k | 0 < k < |path| ensures Refers(Skeleton(defs), path[k - 1], path[k]) {
      assert Refers(defs, path[k - 1], path[k]);
    }
    var pool := CycleIsAPool(Skeleton(defs), path);
    PoolExhausts(stack, Skeleton(defs), pool, path[0], j);
  }

  /**
   The cycle condition is exact for what it looks at: a graph of direct references is free of cycles if and only if
   every set of definitions with that graph decides every instance of every schema.
   */
  lemma AcyclicGraphsAndOnlyThoseDecide(defs: Definitions)
    ensures Acyclic(defs) <==> forall others | SameReferences(defs, others) :: DecidesEverything(others)
  {
    hide SameReferences, Decides, Validate, Skeleton;
    if Acyclic(defs) {
      forall others | SameReferences(defs, others) ensures DecidesEverything(others) {
        SameReferencesSameCycles(defs, others);
        var accepts := AcyclicSchemasAreDecided(others);
      }
    } else {
      var path :| Walk(defs, path) && |path| > 1 && path[0] == path[|path| - 1];
      CyclesCanRunForever(defs, path, 0, Null);
      NeverDecides(defs, path, Accepted);
      NeverDecides(defs, path, Rejected);
      assert !DecidesEverything(Skeleton(defs));
    }
  }

  lemma NeverDecides(defs: Definitions, path: seq<string>, verdict: Outcome)
    requires Walk(defs, path) && |path| > 1 && path[0] == path[|path| - 1]
    ensures defs.Some? && !Decides(Skeleton(defs), Ref(PREFIX + path[0]), Null, verdict)
  {
    hide Validate, Skeleton;
    assert Refers(defs, path[0], path[1]);
    forall stack: nat ensures Validate(stack, Skeleton(defs), Ref(PREFIX + path[0]), Null) == Exhausted {
      CyclesCanRunForever(defs, path, stack, Null);
    }
  }

  // ----- What a cycle does in one set of definitions

  /** A definition that is nothing but a reference to itself never gives a verdict, whatever else is defined. */
  lemma {:induction false} SelfReferenceNeverReturns(stack: nat, defs: Definitions, reference: string, j: Json)
    requires Resolve(defs, reference) == Some(Ref(reference))
    ensures Validate(stack, defs, Ref(reference), j) == Exhausted
  {
    if stack > 0 { SelfReferenceNeverReturns(stack - 1, defs, reference, j); }
  }

  /** The schema `{"not": {}}`. */
  const NOTHING := Node(NO_CHECKS, [], None, None, None, Absent, Absent, Some(AllOfNode([])), None, NotAnObject, true, None)

  lemma NothingPasses(stack: nat, defs: Definitions, j: Json)
    requires stack > 1
    ensures Validate(stack, defs, NOTHING, j) == Rejected
  {
    hide Validate, RunNode;
    ValidateRuns(stack - 1, defs, AllOfNode([]), j);
    AllOfNodeRuns(Validator(stack - 2, defs), [], j);
    NothingRuns(Validator(stack - 1, defs), j);
    ValidateRuns(stack, defs, NOTHING, j);
  }

  lemma NothingRuns(call: Callee, j: Json)
    requires call(AllOfNode([]), j) == Accepted
    ensures RunNode(call, NOTHING, j) == Rejected
  {
    var calls := Calls(call, NOTHING, j);
    assert calls(AllOf) == [] && calls(If) == [];
    assert calls(Not) == Answers(call, [Ask(AllOfNode([]), j)]);
  }

  lemma ValidateRuns(stack: nat, defs: Definitions, n: Schema, j: Json)
    requires stack > 0 && n.Node?
    ensures Validate(stack, defs, n, j) == RunNode(Validator(stack - 1, defs), n, j)
  {
  }

  /** `a` is defined as `{"allOf": [{"not": {}}, {"$ref": "#/$defs/a"}]}`. */
  function GuardedCycle(): Definitions {
    Some(map["a" := AllOfNode([NOTHING, Ref(PREFIX + "a")])])
  }

  lemma GuardedCycleIsCyclic()
    ensures !Acyclic(GuardedCycle())
  {
    var defs := GuardedCycle();
    var a, c := defs.value["a"], Ref(PREFIX + "a");
    ResolveName(defs, "a");
    assert c.reference[|PREFIX|..] == "a" && DirectRefs(defs, c) == {"a"};
    InPlaceOfAllOf(a.allOf);
    assert a.allOf[1] == c && c in InPlace(a) && "a" in DirectRefs(defs, a);
    assert Refers(defs, "a", "a");
    assert Walk(defs, ["a", "a"]);
  }

  /** But a cycle need not be entered: here `allOf` fails before it gets there, so every instance is rejected. */
  lemma CyclicDefinitionsMayDecide(j: Json)
    ensures !Acyclic(GuardedCycle()) && Decides(GuardedCycle(), Ref(PREFIX + "a"), j, Rejected)
  {
    GuardedCycleIsCyclic();
    hide Acyclic, RunNode;
    var defs := GuardedCycle();
    ResolveName(defs, "a");
    var schemas := defs.value["a"].allOf;
    NothingPasses(2, defs, j);
    AllOfNodeRuns(Validator(2, defs), schemas, j);
    var outcomes := Answers(Validator(2, defs), AskAll(schemas, j));
    assert outcomes[0] == Rejected && FirstFailure(outcomes) == Rejected;
    ValidateRuns(3, defs, AllOfNode(schemas), j);
    assert Validate(4, defs, Ref(PREFIX + "a"), j) == Rejected;
  }
}
