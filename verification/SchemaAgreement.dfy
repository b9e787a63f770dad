/** The validator decides exactly the meaning of a schema, within a stack that is linear in the instance's depth. */
module SchemaAgreement {
  import opened Prelude
  import opened SchemaModel
  import opened SchemaValidator
  import opened SchemaMeaning

  // ----- How much stack is enough

  /** No path of nested subschemas in `s` is longer than `height`. */
  ghost predicate Fits(s: Schema, height: nat)
    decreases height
  {
    height > 0 && (s.Node? ==> forall c | c in Children(s) :: Fits(c, height - 1))
  }

  lemma {:induction false} FitsMore(s: Schema, small: nat, large: nat)
    requires Fits(s, small) && small <= large
    ensures Fits(s, large)
    decreases small
  {
    hide Children;
    if s.Node? {
      forall c | c in Children(s) ensures Fits(c, large - 1) { FitsMore(c, small - 1, large - 1); }
    }
  }

  lemma {:induction false} Height(s: Schema) returns (height: nat)
    ensures Fits(s, height)
    decreases s, 1
  {
    hide Children;
    height := 1;
    if s.Node? {
      var most := SetHeight(s, Children(s));
      height := 1 + most;
    }
  }

  lemma {:induction false} SetHeight(s: Schema, schemas: set<Schema>) returns (height: nat)
    requires forall c | c in schemas :: c < s
    ensures forall c | c in schemas :: Fits(c, height)
    decreases s, 0, |schemas|
  {
    hide Fits;
    height := 0;
    if schemas != {} {
      var one :| one in schemas;
      var first := Height(one);
      var rest := SetHeight(s, schemas - {one});
      height := Max(first, rest);
      forall c | c in schemas ensures Fits(c, height) {
        if c == one { FitsMore(c, first, height); } else { FitsMore(c, rest, height); }
      }
    }
  }

  /** Repeated addition; equal to the product, but kept away from the solver's nonlinear arithmetic. */
  function Times(count: nat, each: nat): nat {
    if count == 0 then 0 else each + Times(count - 1, each)
  }

  lemma {:induction false} TimesSteps(fewer: nat, more: nat, each: nat)
    requires fewer < more
    ensures Times(fewer, each) + each <= Times(more, each)
    decreases more
  {
    if fewer < more - 1 { TimesSteps(fewer, more - 1, each); }
  }

  lemma {:induction false} TimesIsProduct(count: nat, each: nat)
    ensures Times(count, each) == count * each
  {
    if count > 0 { TimesIsProduct(count - 1, each); }
  }

  /** Stack enough for an instance of this depth: each level may chase `top` references between schemas of `tall` nodes. */
  function Needed(top: nat, tall: nat, depth: nat, bound: nat, height: nat): nat {
    Times(depth, Times(top + 1, tall)) + Times(bound, tall) + height
  }

  lemma NeededDescends(top: nat, tall: nat, depth: nat, shallower: nat, bound: nat, height: nat)
    requires shallower < depth && height < tall
    ensures Needed(top, tall, shallower, top, height) < Needed(top, tall, depth, bound, 1)
  {
    TimesSteps(shallower, depth, Times(top + 1, tall));
  }

  lemma NeededFollows(top: nat, tall: nat, depth: nat, rank: nat, bound: nat)
    requires rank < bound
    ensures Needed(top, tall, depth, rank, tall) < Needed(top, tall, depth, bound, 1)
  {
    TimesSteps(rank, bound, tall);
  }

  // ----- Statements whose calls all returned a verdict

  /** The outcomes are the verdicts of these truth values. */
  ghost predicate Decided(outcomes: seq<Outcome>, truths: seq<bool>) {
    |outcomes| == |truths| && forall k | 0 <= k < |outcomes| :: outcomes[k] == Verdict(truths[k])
  }

  ghost predicate OnlyTrue(truths: seq<bool>, k: int) {
    0 <= k < |truths| && truths[k] && forall i | 0 <= i < |truths| && i != k :: !truths[i]
  }

  lemma {:induction false} FirstFailureMeans(outcomes: seq<Outcome>, truths: seq<bool>)
    requires Decided(outcomes, truths)
    ensures FirstFailure(outcomes) == Verdict(forall k | 0 <= k < |truths| :: truths[k])
  {
    if outcomes != [] && truths[0] {
      FirstFailureMeans(outcomes[1..], truths[1..]);
      assert forall k | 1 <= k < |truths| :: truths[k] == truths[1..][k - 1];
    }
  }

  lemma {:induction false} CountPositive(outcomes: seq<Outcome>, truths: seq<bool>)
    requires Decided(outcomes, truths)
    ensures CountAccepted(outcomes) > 0 <==> exists k | 0 <= k < |truths| :: truths[k]
  {
    if outcomes != [] && !truths[0] {
      CountPositive(outcomes[1..], truths[1..]);
      assert forall k | 1 <= k < |truths| :: truths[k] == truths[1..][k - 1];
      if k :| 0 <= k < |truths[1..]| && truths[1..][k] { assert truths[k + 1]; }
    }
  }

  lemma {:induction false} CountOne(outcomes: seq<Outcome>, truths: seq<bool>)
    requires Decided(outcomes, truths)
    ensures CountAccepted(outcomes) == 1 <==> exists k :: OnlyTrue(truths, k)
  {
    if outcomes != [] {
      var rest := truths[1..];
      assert forall i | 0 <= i < |rest| :: rest[i] == truths[i + 1];
      if truths[0] {
        CountPositive(outcomes[1..], rest);
        assert CountAccepted(outcomes[1..]) == 0 ==> OnlyTrue(truths, 0);
        if k :| OnlyTrue(truths, k) { assert k == 0; }
      } else {
        CountOne(outcomes[1..], rest);
        if k :| OnlyTrue(rest, k) { assert OnlyTrue(truths, k + 1); }
        if k :| OnlyTrue(truths, k) { assert OnlyTrue(rest, k - 1); }
      }
    }
  }

  lemma AlternativesMean(outcomes: seq<Outcome>, truths: seq<bool>)
    requires Decided(outcomes, truths)
    ensures Alternatives(outcomes, true) == Verdict(exists k :: OnlyTrue(truths, k))
    ensures Alternatives(outcomes, false) == Verdict(exists k | 0 <= k < |truths| :: truths[k])
  {
    CountOne(outcomes, truths);
    CountPositive(outcomes, truths);
    assert forall k | 0 <= k < |outcomes| :: outcomes[k] != Exhausted;
  }

  // ----- One node

  /** What a reading says about one call. */
  ghost predicate Says(accepts: Reading, q: Query) {
    match q
    case Known(outcome) => outcome == Accepted
    case Ask(schema, j) => accepts(schema, j)
  }

  ghost function Truths(accepts: Reading, queries: seq<Query>): (truths: seq<bool>)
    ensures |truths| == |queries|
    ensures forall k {:trigger truths[k]} | 0 <= k < |queries| :: truths[k] == Says(accepts, queries[k])
  {
    seq(|queries|, k requires 0 <= k < |queries| => Says(accepts, queries[k]))
  }

  /** Every call of the node returned what the reading says. */
  ghost predicate CallsDecided(calls: Returns, s: Schema, j: Json, accepts: Reading)
    requires s.Node?
  {
    forall key :: Decided(calls(key), Truths(accepts, Asked(s, j, key)))
  }

  lemma KeywordMeans(calls: Returns, s: Schema, j: Json, accepts: Reading, key: Keyword)
    requires s.Node? && CallsDecided(calls, s, j, accepts)
    ensures Decided(calls(key), Truths(accepts, Asked(s, j, key)))
    ensures FirstFailure(calls(key)) == Verdict(forall k | 0 <= k < |Asked(s, j, key)| :: Says(accepts, Asked(s, j, key)[k]))
  {
    hide FirstFailure, Asked;
    var truths := Truths(accepts, Asked(s, j, key));
    FirstFailureMeans(calls(key), truths);
    assert forall k | 0 <= k < |truths| :: truths[k] == Says(accepts, Asked(s, j, key)[k]);
  }

  lemma BranchMeans(calls: Returns, s: Schema, j: Json, accepts: Reading)
    requires s.Node? && CallsDecided(calls, s, j, accepts)
    ensures BranchStage(calls) == Verdict(BranchClause(s, j, accepts))
  {
    KeywordMeans(calls, s, j, accepts, If);
    KeywordMeans(calls, s, j, accepts, Then);
    KeywordMeans(calls, s, j, accepts, Else);
  }

  lemma ListMeans(outcomes: seq<Outcome>, list: seq<Schema>, j: Json, accepts: Reading)
    requires Decided(outcomes, Truths(accepts, AskAll(list, j)))
    ensures Alternatives(outcomes, true) == Verdict(ExactlyOne(list, j, accepts))
    ensures Alternatives(outcomes, false) == Verdict(exists k | 0 <= k < |list| :: accepts(list[k], j))
  {
    var truths := Truths(accepts, AskAll(list, j));
    AlternativesMean(outcomes, truths);
    assert forall k | 0 <= k < |list| :: truths[k] == accepts(list[k], j);
    if k :| OnlyTrue(truths, k) { assert accepts(list[k], j); }
    if ExactlyOne(list, j, accepts) {
      var k :| && 0 <= k < |list| && accepts(list[k], j)
               && forall i | 0 <= i < |list| && i != k :: !accepts(list[i], j);
      assert OnlyTrue(truths, k);
    }
  }

  lemma AllOfMeans(calls: Returns, s: Schema, j: Json, accepts: Reading)
    requires s.Node? && CallsDecided(calls, s, j, accepts)
    ensures FirstFailure(calls(AllOf)) == Verdict(forall k | 0 <= k < |s.allOf| :: accepts(s.allOf[k], j))
  {
    KeywordMeans(calls, s, j, accepts, AllOf);
    assert forall k | 0 <= k < |s.allOf| :: Says(accepts, Asked(s, j, AllOf)[k]) == accepts(s.allOf[k], j);
  }

  lemma HereMeans(calls: Returns, s: Schema, j: Json, accepts: Reading)
    requires s.Node? && CallsDecided(calls, s, j, accepts)
    ensures HereStage(s, calls) == Verdict(HereClause(s, j, accepts))
  {
    hide FirstFailure, Alternatives, BranchStage, BranchClause, ExactlyOne;
    AllOfMeans(calls, s, j, accepts);
    BranchMeans(calls, s, j, accepts);
    KeywordMeans(calls, s, j, accepts, OneOf);
    KeywordMeans(calls, s, j, accepts, AnyOf);
    KeywordMeans(calls, s, j, accepts, Not);
    if s.oneOf.Listed? { ListMeans(calls(OneOf), s.oneOf.list, j, accepts); }
    if s.anyOf.Listed? { ListMeans(calls(AnyOf), s.anyOf.list, j, accepts); }
  }

  lemma MembersMean(calls: Returns, s: Schema, j: Json, accepts: Reading)
    requires s.Node? && CallsDecided(calls, s, j, accepts)
    ensures MembersStage(calls) == Verdict(MembersClause(s, j, accepts))
  {
    hide FirstFailure;
    KeywordMeans(calls, s, j, accepts, PropertyNames);
    KeywordMeans(calls, s, j, accepts, Members);
    KeywordMeans(calls, s, j, accepts, Items);
    assert j.Obj? && s.propertyNames.Some? ==> forall k | 0 <= k < |j.fields| ::
      Says(accepts, Asked(s, j, PropertyNames)[k]) == accepts(s.propertyNames.value, Str(j.fields[k].name));
    assert j.Obj? && s.properties.Properties? ==> forall k | 0 <= k < |j.fields| ::
      Asked(s, j, Members)[k] == AskMember(s, j.fields[k]);
    assert j.Arr? && s.itemSchema.Some? ==> forall k | 0 <= k < |j.items| ::
      Says(accepts, Asked(s, j, Items)[k]) == accepts(s.itemSchema.value, j.items[k]);
  }

  /** Running a node whose calls all returned gives the verdict that its keywords state. */
  lemma NodeMeans(call: Callee, defs: Definitions, s: Schema, j: Json, accepts: Reading)
    requires s.Node?
    requires forall key, k | 0 <= k < |Asked(s, j, key)| ::
               Answer(call, Asked(s, j, key)[k]) == Verdict(Says(accepts, Asked(s, j, key)[k]))
    ensures RunNode(call, s, j) == Verdict(Clause(defs, s, j, accepts))
  {
    var calls := Calls(call, s, j);
    forall key ensures Decided(calls(key), Truths(accepts, Asked(s, j, key))) {
      var queries := Asked(s, j, key);
      forall k | 0 <= k < |queries| ensures calls(key)[k] == Verdict(Truths(accepts, queries)[k]) {
        assert Answer(call, queries[k]) == Verdict(Says(accepts, queries[k]));
      }
    }
    HereMeans(calls, s, j, accepts);
    MembersMean(calls, s, j, accepts);
  }

  /** A node returns if all its calls do. */
  lemma NodeReturns(call: Callee, s: Schema, j: Json)
    requires s.Node?
    requires forall key, k | 0 <= k < |Asked(s, j, key)| :: Answer(call, Asked(s, j, key)[k]) != Exhausted
    ensures RunNode(call, s, j) != Exhausted
  {
    var accepts: Reading := (c, i) => call(c, i) == Accepted;
    forall key, k | 0 <= k < |Asked(s, j, key)|
      ensures Answer(call, Asked(s, j, key)[k]) == Verdict(Says(accepts, Asked(s, j, key)[k]))
    {
      assert Answer(call, Asked(s, j, key)[k]) != Exhausted;
    }
    NodeMeans(call, None, s, j, accepts);
  }

  // ----- Termination

  ghost predicate Sized(defs: Definitions, tall: nat) {
    defs.Some? ==> forall name | name in defs.value :: Fits(defs.value[name], tall)
  }

  /** With ranked definitions the validator returns once it has the stack `Needed`. */
  lemma {:induction false} Terminates(stack: nat, tall: nat, height: nat, defs: Definitions, rank: map<string, nat>, top: nat,
                                      bound: nat, s: Schema, j: Json)
    requires Ranked(defs, rank, top) && RefsBelow(defs, rank, bound, s) && Sized(defs, tall)
    requires Fits(s, height) && height <= tall
    requires stack >= Needed(top, tall, Depth(j), bound, height)
    ensures Validate(stack, defs, s, j) != Exhausted
    decreases stack, 0
  {
    hide RunNode, Asked;
    if s.Ref? {
      var target := Resolve(defs, s.reference);
      if target.Some? {
        var name := s.reference[|PREFIX|..];
        assert name in DirectRefs(defs, s);
        NeededFollows(top, tall, Depth(j), rank[name], bound);
        Terminates(stack - 1, tall, tall, defs, rank, top, rank[name], target.value, j);
      }
    } else {
      CallsTerminate(stack - 1, tall, height, defs, rank, top, bound, s, j);
      NodeReturns(Validator(stack - 1, defs), s, j);
    }
  }

  lemma {:induction false} CallsTerminate(stack: nat, tall: nat, height: nat, defs: Definitions, rank: map<string, nat>,
                                          top: nat, bound: nat, s: Schema, j: Json)
    requires s.Node? && Ranked(defs, rank, top) && RefsBelow(defs, rank, bound, s) && Sized(defs, tall)
    requires Fits(s, height) && height <= tall
    requires stack + 1 >= Needed(top, tall, Depth(j), bound, height)
    ensures forall key, k | 0 <= k < |Asked(s, j, key)| :: Answer(Validator(stack, defs), Asked(s, j, key)[k]) != Exhausted
    decreases stack, 1
  {
    hide Asked, Children, InPlace, DirectRefs;
    ChildrenMembers(s);
    forall key, k | 0 <= k < |Asked(s, j, key)|
      ensures Answer(Validator(stack, defs), Asked(s, j, key)[k]) != Exhausted
    {
      var q := Asked(s, j, key)[k];
      if q.Ask? {
        if Descends(key) {
          AskedInside(s, j, height, key, k);
          DescentIsFree(defs, rank, top, q.schema);
          NeededDescends(top, tall, Depth(j), Depth(q.instance), bound, height - 1);
          Terminates(stack, tall, height - 1, defs, rank, top, top, q.schema, q.instance);
        } else {
          AskedInPlace(s, j, key, k);
          DirectRefsInPlace(defs, s, q.schema);
          Terminates(stack, tall, height - 1, defs, rank, top, bound, q.schema, j);
        }
      } else {
        KnownAreVerdicts(s, j);
      }
    }
  }

  lemma DirectRefsInPlace(defs: Definitions, s: Schema, c: Schema)
    requires s.Node? && c in InPlace(s)
    ensures DirectRefs(defs, c) <= DirectRefs(defs, s)
  {
  }

  /** The keywords that hand a smaller instance to their subschema. */
  predicate Descends(key: Keyword) {
    key.PropertyNames? || key.Members? || key.Items?
  }

  lemma AskedInPlace(s: Schema, j: Json, key: Keyword, k: nat)
    requires s.Node? && !Descends(key) && k < |Asked(s, j, key)|
    ensures var q := Asked(s, j, key)[k]; q.Ask? && q.instance == j && q.schema in InPlace(s)
  {
    hide InPlace;
    InPlaceMembers(s);
    match key {
      case AllOf => assert Asked(s, j, key)[k].schema in s.allOf;
      case OneOf => assert Asked(s, j, key)[k].schema in List(s.oneOf);
      case AnyOf => assert Asked(s, j, key)[k].schema in List(s.anyOf);
      case _ =>
    }
  }

  lemma AskedInside(s: Schema, j: Json, height: nat, key: Keyword, k: nat)
    requires s.Node? && Fits(s, height) && Descends(key) && k < |Asked(s, j, key)| && Asked(s, j, key)[k].Ask?
    ensures var q := Asked(s, j, key)[k]; Fits(q.schema, height - 1) && Depth(q.instance) < Depth(j)
  {
    ChildrenMembers(s);
    hide Children;
    match key {
      case Items => assert j.items[k] in j.items;
      case PropertyNames => assert j.fields[k] in j.fields;
      case Members => assert j.fields[k] in j.fields;
      case _ =>
    }
  }

  // ----- Main results

  /** Whatever verdict the validator reaches, with any definitions, is the one every respectful reading gives. */
  lemma {:induction false} Sound(stack: nat, defs: Definitions, s: Schema, j: Json, accepts: Reading)
    requires Respects(defs, accepts)
    ensures Below(Validate(stack, defs, s, j), Verdict(accepts(s, j)))
    decreases stack
  {
    hide RunNode, Asked, HereClause, MembersClause, ScalarChecks, ContainerChecks;
    if stack > 0 {
      assert accepts(s, j) == Clause(defs, s, j, accepts);
      if s.Ref? {
        var target := Resolve(defs, s.reference);
        if target.Some? { Sound(stack - 1, defs, target.value, j, accepts); }
      } else {
        var call := Validator(stack - 1, defs);
        var ideal: Callee := (c, i) => Verdict(accepts(c, i));
        forall key, k | 0 <= k < |Asked(s, j, key)|
          ensures Below(Answer(call, Asked(s, j, key)[k]), Answer(ideal, Asked(s, j, key)[k]))
        {
          var q := Asked(s, j, key)[k];
          if q.Ask? { Sound(stack - 1, defs, q.schema, q.instance, accepts); }
        }
        NodeMonotone(call, ideal, s, s, j);
        KnownAreVerdicts(s, j);
        NodeMeans(ideal, defs, s, j, accepts);
      }
    }
  }

  lemma KnownAreVerdicts(s: Schema, j: Json)
    requires s.Node?
    ensures forall key, k | 0 <= k < |Asked(s, j, key)| && Asked(s, j, key)[k].Known? ::
              Asked(s, j, key)[k].outcome != Exhausted
  {
  }

  /** With definitions whose direct references are ranked, the validator decides every instance of every schema. */
  lemma AlwaysDecides(defs: Definitions, rank: map<string, nat>, top: nat, s: Schema, j: Json)
    requires Ranked(defs, rank, top)
    ensures Decides(defs, s, j, Accepted) || Decides(defs, s, j, Rejected)
  {
    var stack := EnoughStack(defs, rank, top, s, j);
    assert Validate(stack, defs, s, j) != Exhausted;
  }

  lemma EnoughStack(defs: Definitions, rank: map<string, nat>, top: nat, s: Schema, j: Json) returns (stack: nat)
    requires Ranked(defs, rank, top)
    ensures stack > 0 && Validate(stack, defs, s, j) != Exhausted
    ensures s.Node? ==>
              forall key, k | 0 <= k < |Asked(s, j, key)| :: Answer(Validator(stack - 1, defs), Asked(s, j, key)[k]) != Exhausted
  {
    hide RunNode, Asked, Validate;
    var height := Height(s);
    var tall := TallestDefinition(defs, Names(defs));
    var most := Max(height, tall);
    FitsMore(s, height, most);
    if defs.Some? {
      forall name | name in defs.value ensures Fits(defs.value[name], most) { FitsMore(defs.value[name], tall, most); }
    }
    stack := Needed(top, most, Depth(j), top, most);
    DescentIsFree(defs, rank, top, s);
    Terminates(stack, most, most, defs, rank, top, top, s, j);
    if s.Node? { CallsTerminate(stack - 1, most, most, defs, rank, top, top, s, j); }
  }

  lemma {:induction false} TallestDefinition(defs: Definitions, names: set<string>) returns (tall: nat)
    requires names <= Names(defs)
    ensures forall name | name in names :: Fits(defs.value[name], tall)
    decreases names
  {
    tall := 0;
    if name :| name in names {
      var one := Height(defs.value[name]);
      var rest := TallestDefinition(defs, names - {name});
      tall := Max(one, rest);
      forall other | other in names ensures Fits(defs.value[other], tall) {
        FitsMore(defs.value[other], if other == name then one else rest, tall);
      }
    }
  }

  /** The validator's own verdicts respect every keyword: it is a denotation. */
  lemma ValidatorRespects(defs: Definitions, rank: map<string, nat>, top: nat)
    requires Ranked(defs, rank, top)
    ensures Respects(defs, (s, j) => Decides(defs, s, j, Accepted))
  {
    var accepts: Reading := (s, j) => Decides(defs, s, j, Accepted);
    forall s, j ensures accepts(s, j) <==> Clause(defs, s, j, accepts) {
      ValidatorRespectsAt(defs, rank, top, s, j, accepts);
    }
  }

  lemma ValidatorRespectsAt(defs: Definitions, rank: map<string, nat>, top: nat, s: Schema, j: Json, accepts: Reading)
    requires Ranked(defs, rank, top)
    requires forall s, j :: accepts(s, j) <==> Decides(defs, s, j, Accepted)
    ensures accepts(s, j) <==> Clause(defs, s, j, accepts)
  {
    hide RunNode, Asked;
    var stack := EnoughStack(defs, rank, top, s, j);
    DecidedBy(stack, defs, s, j);
    if s.Node? {
      var call := Validator(stack - 1, defs);
      KnownAreVerdicts(s, j);
      forall key, k | 0 <= k < |Asked(s, j, key)|
        ensures Answer(call, Asked(s, j, key)[k]) == Verdict(Says(accepts, Asked(s, j, key)[k]))
      {
        var q := Asked(s, j, key)[k];
        assert Answer(call, q) != Exhausted;
        if q.Ask? { DecidedBy(stack - 1, defs, q.schema, q.instance); }
      }
      NodeMeans(call, defs, s, j, accepts);
    } else {
      var target := Resolve(defs, s.reference);
      if target.Some? { DecidedBy(stack - 1, defs, target.value, j); }
    }
  }

  lemma DecidedBy(stack: nat, defs: Definitions, s: Schema, j: Json)
    requires Validate(stack, defs, s, j) != Exhausted
    ensures Decides(defs, s, j, Accepted) <==> Validate(stack, defs, s, j) == Accepted
  {
    if Decides(defs, s, j, Accepted) { DecidesOnce(defs, s, j, Accepted, Validate(stack, defs, s, j)); }
  }

  /** The keywords have exactly one reading, and the validator computes it. */
  lemma ValidatorComputesTheMeaning(defs: Definitions, rank: map<string, nat>, top: nat, accepts: Reading, s: Schema, j: Json)
    requires Ranked(defs, rank, top) && Respects(defs, accepts)
    ensures Decides(defs, s, j, Accepted) <==> accepts(s, j)
    ensures Decides(defs, s, j, Rejected) <==> !accepts(s, j)
  {
    AlwaysDecides(defs, rank, top, s, j);
    forall stack: nat ensures Below(Validate(stack, defs, s, j), Verdict(accepts(s, j))) {
      Sound(stack, defs, s, j, accepts);
    }
  }
}
