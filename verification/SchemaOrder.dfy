/** The validator raises what its statements, in the order of the source, raise first. */
module SchemaOrder {
  import opened Prelude
  import opened SchemaModel
  import opened SchemaValidator
  import opened SchemaAgreement

  /** A run of calls ends at the first that does not accept. */
  lemma {:induction false} FirstFailureIs(outcomes: seq<Outcome>, k: nat)
    ensures (forall i | 0 <= i < |outcomes| :: outcomes[i] == Accepted) ==> FirstFailure(outcomes) == Accepted
    ensures k < |outcomes| && outcomes[k] != Accepted && (forall i | 0 <= i < k :: outcomes[i] == Accepted) ==>
      FirstFailure(outcomes) == outcomes[k]
  {
    if outcomes != [] {
      var rest := outcomes[1..];
      assert forall i | 0 < i < |outcomes| :: outcomes[i] == rest[i - 1];
      FirstFailureIs(rest, if k > 0 then k - 1 else 0);
    }
  }

  lemma {:induction false} FirstFailureOfTwo(a: seq<Outcome>, b: seq<Outcome>)
    ensures FirstFailure(a + b) == if FirstFailure(a) == Accepted then FirstFailure(b) else FirstFailure(a)
  {
    if a == [] {
      assert a + b == b;
    } else {
      assert (a + b)[1..] == a[1..] + b;
      FirstFailureOfTwo(a[1..], b);
    }
  }

  lemma FirstFailureOfOne(outcome: Outcome, rest: seq<Outcome>)
    ensures FirstFailure([outcome]) == outcome
    ensures FirstFailure([outcome] + rest) == if outcome == Accepted then FirstFailure(rest) else outcome
  {
    assert ([outcome] + rest)[1..] == rest;
  }

  function CallAll(call: Callee, schemas: seq<Schema>, j: Json): seq<Outcome> {
    seq(|schemas|, k requires 0 <= k < |schemas| => call(schemas[k], j))
  }

  function CallIf(call: Callee, schema: Option<Schema>, j: Json): Outcome {
    if schema.Some? then call(schema.value, j) else Accepted
  }

  /** `if` chooses between `then` and `else`, and a RecursionError in it escapes. */
  function Choice(call: Callee, n: Schema, j: Json): Outcome
    requires n.Node?
  {
    if n.condition.None? then Accepted
    else
      match call(n.condition.value, j)
      case Accepted => CallIf(call, n.consequent, j)
      case Rejected => CallIf(call, n.alternative, j)
      case Exhausted => Exhausted
  }

  /** Alternative `k` accepts and, when there may be but one, no other does. */
  ghost predicate Accepts(call: Callee, list: seq<Schema>, j: Json, exactlyOne: bool, k: int) {
    && 0 <= k < |list| && call(list[k], j) == Accepted
    && (exactlyOne ==> forall i | 0 <= i < |list| && i != k :: call(list[i], j) != Accepted)
  }

  /** A RecursionError in any alternative escapes; otherwise one, or at least one, must accept. */
  ghost function Count(call: Callee, list: SchemaList, j: Json, exactlyOne: bool): Outcome {
    if list.Absent? then Accepted
    else if exists k | 0 <= k < |list.list| :: call(list.list[k], j) == Exhausted then Exhausted
    else if exists k :: Accepts(call, list.list, j, exactlyOne, k) then Accepted
    else Rejected
  }

  function Forbidden(call: Callee, n: Schema, j: Json): Outcome
    requires n.Node?
  {
    if n.forbidden.None? then Accepted
    else
      match call(n.forbidden.value, j)
      case Accepted => Rejected
      case Rejected => Accepted
      case Exhausted => Exhausted
  }

  // ----- What each statement calls

  function NameCalls(call: Callee, n: Schema, j: Json): seq<Outcome>
    requires n.Node?
  {
    if j.Obj? && n.propertyNames.Some?
    then seq(|j.fields|, k requires 0 <= k < |j.fields| => call(n.propertyNames.value, Str(j.fields[k].name)))
    else []
  }

  /** A member without a schema of its own is allowed or not. */
  function MemberCalls(call: Callee, n: Schema, j: Json): seq<Outcome>
    requires n.Node?
  {
    if j.Obj? && n.properties.Properties?
    then seq(|j.fields|, k requires 0 <= k < |j.fields| =>
           if j.fields[k].name in n.properties.named then call(n.properties.named[j.fields[k].name], j.fields[k].value)
           else if n.additionalAllowed then Accepted else Rejected)
    else []
  }

  function ItemCalls(call: Callee, n: Schema, j: Json): seq<Outcome>
    requires n.Node?
  {
    if j.Arr? && n.itemSchema.Some?
    then seq(|j.items|, k requires 0 <= k < |j.items| => call(n.itemSchema.value, j.items[k]))
    else []
  }

  /** Every statement of a node, in the order of the source. */
  ghost function Statements(call: Callee, n: Schema, j: Json): seq<Outcome>
    requires n.Node?
  {
    CallAll(call, n.allOf, j)
    + ([Choice(call, n, j)]
    + ([Count(call, n.oneOf, j, true)]
    + ([Count(call, n.anyOf, j, false)]
    + ([Forbidden(call, n, j)]
    + ([if ScalarChecks(n.checks, j) && ContainerChecks(n.checks, j) then Accepted else Rejected]
    + (NameCalls(call, n, j) + (MemberCalls(call, n, j) + ItemCalls(call, n, j))))))))
  }

  lemma CountedIs(call: Callee, list: SchemaList, j: Json, outcomes: seq<Outcome>, exactlyOne: bool)
    requires list.Listed? && outcomes == CallAll(call, list.list, j)
    ensures Alternatives(outcomes, exactlyOne) == Count(call, list, j, exactlyOne)
  {
    assert forall k | 0 <= k < |outcomes| :: outcomes[k] == call(list.list[k], j);
    if Exhausted !in outcomes {
      assert forall k | 0 <= k < |outcomes| :: outcomes[k] in outcomes;
      var truths := seq(|outcomes|, k requires 0 <= k < |outcomes| => outcomes[k] == Accepted);
      CountPositive(outcomes, truths);
      CountOne(outcomes, truths);
      forall k ensures Accepts(call, list.list, j, true, k) <==> OnlyTrue(truths, k) {
        SameChoice(call, list.list, j, truths, k);
      }
      if k :| 0 <= k < |truths| && truths[k] { assert Accepts(call, list.list, j, false, k); }
    }
  }

  lemma SameChoice(call: Callee, list: seq<Schema>, j: Json, truths: seq<bool>, k: int)
    requires |truths| == |list| && forall i | 0 <= i < |list| :: truths[i] <==> call(list[i], j) == Accepted
    ensures Accepts(call, list, j, true, k) <==> OnlyTrue(truths, k)
  {
  }

  lemma CallsAre(call: Callee, n: Schema, j: Json)
    requires n.Node?
    ensures var calls := Calls(call, n, j);
      && calls(AllOf) == CallAll(call, n.allOf, j)
      && BranchStage(calls) == Choice(call, n, j)
      && (if calls(Not) == [] then Accepted else Negate(calls(Not)[0])) == Forbidden(call, n, j)
      && calls(PropertyNames) == NameCalls(call, n, j)
      && calls(Members) == MemberCalls(call, n, j)
      && calls(Items) == ItemCalls(call, n, j)
  {
    var calls := Calls(call, n, j);
    assert calls(AllOf) == CallAll(call, n.allOf, j);
    assert calls(PropertyNames) == NameCalls(call, n, j);
    assert calls(Members) == MemberCalls(call, n, j);
    assert calls(Items) == ItemCalls(call, n, j);
    IfIs(call, n.condition, j);
    IfIs(call, n.consequent, j);
    IfIs(call, n.alternative, j);
    IfIs(call, n.forbidden, j);
    assert calls(If) == Answers(call, AskIf(n.condition, j)) && calls(Then) == Answers(call, AskIf(n.consequent, j));
    assert calls(Else) == Answers(call, AskIf(n.alternative, j)) && calls(Not) == Answers(call, AskIf(n.forbidden, j));
  }

  lemma IfIs(call: Callee, schema: Option<Schema>, j: Json)
    ensures Answers(call, AskIf(schema, j)) == if schema.Some? then [call(schema.value, j)] else []
    ensures FirstFailure(Answers(call, AskIf(schema, j))) == CallIf(call, schema, j)
  {
  }

  lemma ListsAre(call: Callee, n: Schema, j: Json)
    requires n.Node?
    ensures var calls := Calls(call, n, j);
      && (if n.oneOf.Listed? then Alternatives(calls(OneOf), true) else Accepted) == Count(call, n.oneOf, j, true)
      && (if n.anyOf.Listed? then Alternatives(calls(AnyOf), false) else Accepted) == Count(call, n.anyOf, j, false)
  {
    var calls := Calls(call, n, j);
    if n.oneOf.Listed? {
      assert calls(OneOf) == CallAll(call, n.oneOf.list, j);
      CountedIs(call, n.oneOf, j, calls(OneOf), true);
    }
    if n.anyOf.Listed? {
      assert calls(AnyOf) == CallAll(call, n.anyOf.list, j);
      CountedIs(call, n.anyOf, j, calls(AnyOf), false);
    }
  }

  lemma FirstOfAll(all: seq<Outcome>, choice: Outcome, one: Outcome, some: Outcome, none: Outcome, checks: Outcome,
                   names: seq<Outcome>, members: seq<Outcome>, items: seq<Outcome>)
    ensures FirstFailure(all + ([choice] + ([one] + ([some] + ([none] + ([checks] + (names + (members + items))))))))
      == InOrder(InOrder(FirstFailure(all), InOrder(choice, InOrder(one, InOrder(some, none)))),
         InOrder(checks, InOrder(FirstFailure(names), InOrder(FirstFailure(members), FirstFailure(items)))))
  {
    hide FirstFailure;
    FirstFailureOfTwo(members, items);
    FirstFailureOfTwo(names, members + items);
    var last := names + (members + items);
    FirstFailureOfOne(checks, last);
    var five := [checks] + last;
    FirstFailureOfOne(none, five);
    var four := [none] + five;
    FirstFailureOfOne(some, four);
    var three := [some] + four;
    FirstFailureOfOne(one, three);
    var two := [one] + three;
    FirstFailureOfOne(choice, two);
    FirstFailureOfTwo(all, [choice] + two);
  }

  /** A node returns or raises what the first of its statements that does not return raises. */
  lemma StatementsRunInOrder(call: Callee, n: Schema, j: Json)
    requires n.Node?
    ensures RunNode(call, n, j) == FirstFailure(Statements(call, n, j))
  {
    CallsAre(call, n, j);
    ListsAre(call, n, j);
    hide FirstFailure, Calls, Choice, Count, Forbidden, CallAll, ScalarChecks, ContainerChecks, BranchStage;
    hide NameCalls, MemberCalls, ItemCalls, Negate, Alternatives, InOrder;
    FirstOfAll(CallAll(call, n.allOf, j), Choice(call, n, j), Count(call, n.oneOf, j, true), Count(call, n.anyOf, j, false),
      Forbidden(call, n, j), if ScalarChecks(n.checks, j) && ContainerChecks(n.checks, j) then Accepted else Rejected,
      NameCalls(call, n, j), MemberCalls(call, n, j), ItemCalls(call, n, j));
  }
}
