/**
 `validate_schema_instance`: a recursive validator that raises ValueError on a violation and catches it
 in `if`, `oneOf`, `anyOf` and `not`. Nothing catches the interpreter's RecursionError, so `stack`, the
 number of nested calls still available, is part of the model and running out of it is an outcome.
 */
module SchemaValidator {
  import opened Prelude
  import opened SchemaModel

  /** Returned normally, raised ValueError, or raised RecursionError. */
  datatype Outcome = Accepted | Rejected | Exhausted

  /** One recursive call, or a verdict reached without one. */
  datatype Query = Ask(schema: Schema, instance: Json) | Known(outcome: Outcome)

  /** The places in the body where recursive calls are made. */
  datatype Keyword = AllOf | If | Then | Else | OneOf | AnyOf | Not | PropertyNames | Members | Items

  function AskAll(schemas: seq<Schema>, j: Json): seq<Query> {
    seq(|schemas|, k requires 0 <= k < |schemas| => Ask(schemas[k], j))
  }

  function AskIf(schema: Option<Schema>, j: Json): seq<Query> {
    if schema.Some? then [Ask(schema.value, j)] else []
  }

  /** The call made for one member of an object instance. */
  function AskMember(n: Schema, f: Field): Query
    requires n.Node? && n.properties.Properties?
  {
    if f.name in n.properties.named then Ask(n.properties.named[f.name], f.value)
    else Known(if n.additionalAllowed then Accepted else Rejected)
  }

  function AskNames(n: Schema, j: Json): seq<Query>
    requires n.Node?
  {
    if j.Obj? && n.propertyNames.Some?
    then seq(|j.fields|, k requires 0 <= k < |j.fields| => Ask(n.propertyNames.value, Str(j.fields[k].name)))
    else []
  }

  function AskMembers(n: Schema, j: Json): seq<Query>
    requires n.Node?
  {
    if j.Obj? && n.properties.Properties?
    then seq(|j.fields|, k requires 0 <= k < |j.fields| => AskMember(n, j.fields[k]))
    else []
  }

  function AskItems(n: Schema, j: Json): seq<Query>
    requires n.Node?
  {
    if j.Arr? && n.itemSchema.Some?
    then seq(|j.items|, k requires 0 <= k < |j.items| => Ask(n.itemSchema.value, j.items[k]))
    else []
  }

  /** The calls a node makes at one keyword, in order. */
  function Asked(n: Schema, j: Json, key: Keyword): seq<Query>
    requires n.Node?
  {
    match key
    case AllOf => AskAll(n.allOf, j)
    case If => AskIf(n.condition, j)
    case Then => AskIf(n.consequent, j)
    case Else => AskIf(n.alternative, j)
    case OneOf => if n.oneOf.Listed? then AskAll(n.oneOf.list, j) else []
    case AnyOf => if n.anyOf.Listed? then AskAll(n.anyOf.list, j) else []
    case Not => AskIf(n.forbidden, j)
    case PropertyNames => AskNames(n, j)
    case Members => AskMembers(n, j)
    case Items => AskItems(n, j)
  }

  /** A run of statements, each of which may raise: the first exception ends it. */
  function FirstFailure(outcomes: seq<Outcome>): Outcome {
    if outcomes == [] then Accepted
    else if outcomes[0] != Accepted then outcomes[0]
    else FirstFailure(outcomes[1..])
  }

  function CountAccepted(outcomes: seq<Outcome>): nat {
    if outcomes == [] then 0
    else (if outcomes[0] == Accepted then 1 else 0) + CountAccepted(outcomes[1..])
  }

  /** Every alternative is tried; only a RecursionError escapes the loop. */
  function Alternatives(outcomes: seq<Outcome>, exactlyOne: bool): Outcome {
    if Exhausted in outcomes then Exhausted
    else if if exactlyOne then CountAccepted(outcomes) == 1 else CountAccepted(outcomes) > 0 then Accepted
    else Rejected
  }

  function Branch(condition: Outcome, consequent: Outcome, alternative: Outcome): Outcome {
    match condition
    case Accepted => consequent
    case Rejected => alternative
    case Exhausted => Exhausted
  }

  function Negate(outcome: Outcome): Outcome {
    match outcome
    case Accepted => Rejected
    case Rejected => Accepted
    case Exhausted => Exhausted
  }

  function Verdict(holds: bool): Outcome {
    if holds then Accepted else Rejected
  }

  /** The outcomes of a node's calls, by keyword. */
  type Returns = Keyword -> seq<Outcome>

  function BranchStage(calls: Returns): Outcome {
    if calls(If) == [] then Accepted else Branch(calls(If)[0], FirstFailure(calls(Then)), FirstFailure(calls(Else)))
  }

  /** One statement after another: the second runs only if the first returns. */
  function InOrder(first: Outcome, second: Outcome): Outcome {
    if first == Accepted then second else first
  }

  /** The statements that apply keywords to the instance itself. */
  function HereStage(n: Schema, calls: Returns): Outcome
    requires n.Node?
  {
    InOrder(FirstFailure(calls(AllOf)),
    InOrder(BranchStage(calls),
    InOrder(if n.oneOf.Listed? then Alternatives(calls(OneOf), true) else Accepted,
    InOrder(if n.anyOf.Listed? then Alternatives(calls(AnyOf), false) else Accepted,
         if calls(Not) == [] then Accepted else Negate(calls(Not)[0])))))
  }

  /** The statements that visit property names, property values and items. */
  function MembersStage(calls: Returns): Outcome {
    InOrder(FirstFailure(calls(PropertyNames)), InOrder(FirstFailure(calls(Members)), FirstFailure(calls(Items))))
  }

  /** The validator's body, given the outcomes of its recursive calls. */
  function Body(n: Schema, j: Json, calls: Returns): Outcome
    requires n.Node?
  {
    InOrder(HereStage(n, calls), InOrder(Verdict(ScalarChecks(n.checks, j) && ContainerChecks(n.checks, j)), MembersStage(calls)))
  }

  /** What the recursive call returns for each subschema and instance. */
  type Callee = (Schema, Json) -> Outcome

  function Answer(call: Callee, q: Query): Outcome {
    match q
    case Known(outcome) => outcome
    case Ask(schema, j) => call(schema, j)
  }

  function Answers(call: Callee, qs: seq<Query>): (r: seq<Outcome>)
    ensures |r| == |qs|
    ensures forall k {:trigger r[k]} | 0 <= k < |qs| :: r[k] == Answer(call, qs[k])
  {
    seq(|qs|, k requires 0 <= k < |qs| => Answer(call, qs[k]))
  }

  function Calls(call: Callee, n: Schema, j: Json): (calls: Returns)
    requires n.Node?
    ensures forall key :: calls(key) == Answers(call, Asked(n, j, key))
  {
    key => Answers(call, Asked(n, j, key))
  }

  function RunNode(call: Callee, n: Schema, j: Json): Outcome
    requires n.Node?
  {
    Body(n, j, Calls(call, n, j))
  }

  /** The validator with `stack` nested calls available. */
  function Validator(stack: nat, defs: Definitions): (call: Callee)
    ensures forall s, j :: call(s, j) == Validate(stack, defs, s, j)
    decreases stack, 1
  {
    (s, j) => Validate(stack, defs, s, j)
  }

  function Validate(stack: nat, defs: Definitions, s: Schema, j: Json): Outcome
    decreases stack, 0
  {
    if stack == 0 then Exhausted
    else if s.Node? then RunNode(Validator(stack - 1, defs), s, j)
    else
      var target := Resolve(defs, s.reference);
      if target.Some? then Validate(stack - 1, defs, target.value, j) else Rejected
  }

  // ----- The code itself: loops, caught exceptions and the `matches` counter

  lemma FirstFailureExtends(outcomes: seq<Outcome>, k: nat)
    requires k < |outcomes|
    ensures FirstFailure(outcomes[..k + 1])
         == if FirstFailure(outcomes[..k]) != Accepted then FirstFailure(outcomes[..k]) else outcomes[k]
    ensures FirstFailure(outcomes[..k + 1]) != Accepted ==> FirstFailure(outcomes) == FirstFailure(outcomes[..k + 1])
  {
    if k > 0 {
      FirstFailureExtends(outcomes[1..], k - 1);
      assert outcomes[1..][..k] == outcomes[..k + 1][1..];
      assert outcomes[1..][..k - 1] == outcomes[..k][1..];
    }
  }

  lemma CountAcceptedExtends(outcomes: seq<Outcome>, k: nat)
    requires k < |outcomes|
    ensures CountAccepted(outcomes[..k + 1]) == CountAccepted(outcomes[..k]) + if outcomes[k] == Accepted then 1 else 0
  {
    if k > 0 {
      CountAcceptedExtends(outcomes[1..], k - 1);
      assert outcomes[1..][..k] == outcomes[..k + 1][1..];
      assert outcomes[1..][..k - 1] == outcomes[..k][1..];
    }
  }

  /** A sequence of calls none of which is guarded by `try`. */
  method RunAll(stack: nat, defs: Definitions, queries: seq<Query>) returns (outcome: Outcome)
    ensures outcome == FirstFailure(Answers(Validator(stack, defs), queries))
    decreases stack, 1
  {
    ghost var outcomes := Answers(Validator(stack, defs), queries);
    var k := 0;
    while k < |queries|
      invariant 0 <= k <= |queries|
      invariant FirstFailure(outcomes[..k]) == Accepted
    {
      FirstFailureExtends(outcomes, k);
      match queries[k] {
        case Known(known) => outcome := known;
        case Ask(schema, instance) => outcome := ValidateSchemaInstance(stack, defs, schema, instance);
      }
      if outcome != Accepted {
        return;
      }
      k := k + 1;
    }
    assert outcomes[..k] == outcomes;
    outcome := Accepted;
  }

  /** The `oneOf` and `anyOf` loop: ValueError is caught and skips the counter. */
  method CountMatches(stack: nat, defs: Definitions, alternatives: seq<Schema>, j: Json, exactlyOne: bool)
    returns (outcome: Outcome)
    ensures outcome == Alternatives(Answers(Validator(stack, defs), AskAll(alternatives, j)), exactlyOne)
    decreases stack, 1
  {
    ghost var outcomes := Answers(Validator(stack, defs), AskAll(alternatives, j));
    var matches := 0;
    var k := 0;
    while k < |alternatives|
      invariant 0 <= k <= |alternatives|
      invariant matches == CountAccepted(outcomes[..k])
      invariant Exhausted !in outcomes[..k]
    {
      CountAcceptedExtends(outcomes, k);
      var one := ValidateSchemaInstance(stack, defs, alternatives[k], j);
      assert one == outcomes[k];
      if one == Exhausted {
        return Exhausted;
      }
      if one == Accepted {
        matches := matches + 1;
      }
      k := k + 1;
    }
    assert outcomes[..k] == outcomes;
    if (exactlyOne && matches != 1) || (!exactlyOne && matches == 0) {
      return Rejected;
    }
    return Accepted;
  }

  method ValidateSchemaInstance(stack: nat, defs: Definitions, s: Schema, j: Json) returns (outcome: Outcome)
    ensures outcome == Validate(stack, defs, s, j)
    decreases stack, 0
  {
    hide RunNode;
    if stack == 0 {
      outcome := Exhausted;
    } else if s.Ref? {
      outcome := FollowReference(stack - 1, defs, s.reference, j);
    } else {
      outcome := ValidateNode(stack - 1, defs, s, j);
    }
  }

  method FollowReference(stack: nat, defs: Definitions, reference: string, j: Json) returns (outcome: Outcome)
    ensures var target := Resolve(defs, reference);
      outcome == if target.Some? then Validate(stack, defs, target.value, j) else Rejected
    decreases stack, 1
  {
    var target := Resolve(defs, reference);
    if target.None? {
      return Rejected;
    }
    outcome := ValidateSchemaInstance(stack, defs, target.value, j);
  }

  method ValidateNode(stack: nat, defs: Definitions, n: Schema, j: Json) returns (outcome: Outcome)
    requires n.Node?
    ensures outcome == RunNode(Validator(stack, defs), n, j)
    decreases stack, 3
  {
    hide HereStage, MembersStage, ScalarChecks, ContainerChecks, Validate;
    outcome := ValidateHere(stack, defs, n, j);
    if outcome == Accepted {
      if ScalarChecks(n.checks, j) && ContainerChecks(n.checks, j) {
        outcome := ValidateMembers(stack, defs, n, j);
      } else {
        outcome := Rejected;
      }
    }
  }

  method ValidateMembers(stack: nat, defs: Definitions, n: Schema, j: Json) returns (outcome: Outcome)
    requires n.Node?
    ensures outcome == MembersStage(Calls(Validator(stack, defs), n, j))
    decreases stack, 2
  {
    hide FirstFailure, AskAll, AskIf, AskNames, AskMembers, AskItems, Validate;
    outcome := RunAll(stack, defs, AskNames(n, j));
    if outcome == Accepted {
      outcome := RunAll(stack, defs, AskMembers(n, j));
    }
    if outcome == Accepted {
      outcome := RunAll(stack, defs, AskItems(n, j));
    }
  }

  method ValidateHere(stack: nat, defs: Definitions, n: Schema, j: Json) returns (outcome: Outcome)
    requires n.Node?
    ensures outcome == HereStage(n, Calls(Validator(stack, defs), n, j))
    decreases stack, 2
  {
    hide FirstFailure, Alternatives, AskAll, AskNames, AskMembers, AskItems, Validate;
    ghost var calls := Calls(Validator(stack, defs), n, j);
    outcome := RunAll(stack, defs, AskAll(n.allOf, j));
    if outcome != Accepted { return; }

    if n.condition.Some? {
      var condition := ValidateSchemaInstance(stack, defs, n.condition.value, j);
      assert condition == calls(If)[0];
      if condition == Exhausted { return Exhausted; }
      var branch := if condition == Rejected then n.alternative else n.consequent;
      outcome := RunAll(stack, defs, AskIf(branch, j));
      if outcome != Accepted { return; }
    }

    if n.oneOf.Listed? {
      outcome := CountMatches(stack, defs, n.oneOf.list, j, true);
      if outcome != Accepted { return; }
    }
    if n.anyOf.Listed? {
      outcome := CountMatches(stack, defs, n.anyOf.list, j, false);
      if outcome != Accepted { return; }
    }

    if n.forbidden.Some? {
      var forbidden := ValidateSchemaInstance(stack, defs, n.forbidden.value, j);
      assert forbidden == calls(Not)[0];
      if forbidden == Exhausted { return Exhausted; }
      if forbidden == Accepted { return Rejected; }
    }
    outcome := Accepted;
  }
}
