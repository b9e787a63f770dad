/**
 What a schema means: a reading of its keywords in which `allOf` intersects, `not` complements, `oneOf` is exactly
 one and `if`/`then`/`else` chooses. Here too are the graph of references that decides whether there is one, and that
 more call depth never changes a verdict.
 */
module SchemaMeaning {
  import opened Prelude
  import opened SchemaModel
  import opened SchemaValidator

  // ----- More stack never changes a verdict

  /** `b` agrees with `a` unless `a` ran out of stack. */
  ghost predicate Below(a: Outcome, b: Outcome) {
    a == Exhausted || a == b
  }

  ghost predicate AllBelow(a: seq<Outcome>, b: seq<Outcome>) {
    |a| == |b| && forall k | 0 <= k < |a| :: Below(a[k], b[k])
  }

  ghost predicate CallsBelow(a: Returns, b: Returns) {
    forall key :: AllBelow(a(key), b(key))
  }

  lemma {:induction false} FirstFailureMonotone(a: seq<Outcome>, b: seq<Outcome>)
    requires AllBelow(a, b)
    ensures Below(FirstFailure(a), FirstFailure(b))
  {
    if a != [] && a[0] == Accepted {
      assert Below(a[0], b[0]);
      assert forall k | 0 <= k < |a[1..]| :: a[1..][k] == a[k + 1] && b[1..][k] == b[k + 1];
      FirstFailureMonotone(a[1..], b[1..]);
    } else if a != [] {
      assert Below(a[0], b[0]);
    }
  }

  lemma AlternativesMonotone(a: seq<Outcome>, b: seq<Outcome>, exactlyOne: bool)
    requires AllBelow(a, b)
    ensures Below(Alternatives(a, exactlyOne), Alternatives(b, exactlyOne))
  {
    if Exhausted !in a {
      assert forall k | 0 <= k < |a| :: a[k] in a && Below(a[k], b[k]);
      assert a == b;
    }
  }

  /** Two nodes that assert the same and count the same keywords, whatever their subschemas. */
  ghost predicate SameShape(n: Schema, m: Schema) {
    n.Node? && m.Node? && n.checks == m.checks && n.oneOf.Listed? == m.oneOf.Listed? && n.anyOf.Listed? == m.anyOf.Listed?
  }

  lemma BodyMonotone(n: Schema, m: Schema, j: Json, a: Returns, b: Returns)
    requires SameShape(n, m) && CallsBelow(a, b)
    ensures Below(Body(n, j, a), Body(m, j, b))
  {
    hide FirstFailure, Alternatives, ScalarChecks, ContainerChecks;
    forall key ensures AllBelow(a(key), b(key)) && Below(FirstFailure(a(key)), FirstFailure(b(key))) {
      FirstFailureMonotone(a(key), b(key));
    }
    AlternativesMonotone(a(OneOf), b(OneOf), true);
    AlternativesMonotone(a(AnyOf), b(AnyOf), false);
    assert a(Not) != [] ==> Below(a(Not)[0], b(Not)[0]);
    assert Below(BranchStage(a), BranchStage(b)) by {
      assert a(If) != [] ==> Below(a(If)[0], b(If)[0]);
      assert Below(FirstFailure(a(Then)), FirstFailure(b(Then))) && Below(FirstFailure(a(Else)), FirstFailure(b(Else)));
    }
    assert Below(FirstFailure(a(AllOf)), FirstFailure(b(AllOf)));
    assert Below(MembersStage(a), MembersStage(b)) by {
      assert Below(FirstFailure(a(PropertyNames)), FirstFailure(b(PropertyNames)));
      assert Below(FirstFailure(a(Members)), FirstFailure(b(Members)));
      assert Below(FirstFailure(a(Items)), FirstFailure(b(Items)));
    }
  }

  /** Nodes whose calls agree unless the first one's run out of stack agree likewise. */
  lemma NodeMonotone(few: Callee, many: Callee, n: Schema, m: Schema, j: Json)
    requires SameShape(n, m)
    requires forall key :: |Asked(n, j, key)| == |Asked(m, j, key)|
    requires forall key, k | 0 <= k < |Asked(n, j, key)| ::
               Below(Answer(few, Asked(n, j, key)[k]), Answer(many, Asked(m, j, key)[k]))
    ensures Below(RunNode(few, n, j), RunNode(many, m, j))
  {
    hide Body, Asked;
    var a, b := Calls(few, n, j), Calls(many, m, j);
    forall key ensures AllBelow(a(key), b(key)) {
      forall k | 0 <= k < |a(key)| ensures Below(a(key)[k], b(key)[k]) {
        assert Below(Answer(few, Asked(n, j, key)[k]), Answer(many, Asked(m, j, key)[k]));
      }
    }
    BodyMonotone(n, m, j, a, b);
  }

  lemma {:induction false} StackMonotone(small: nat, large: nat, defs: Definitions, s: Schema, j: Json)
    requires small <= large
    ensures Below(Validate(small, defs, s, j), Validate(large, defs, s, j))
    decreases small
  {
    hide RunNode, Asked;
    if small > 0 {
      if s.Ref? {
        var target := Resolve(defs, s.reference);
        if target.Some? { StackMonotone(small - 1, large - 1, defs, target.value, j); }
      } else {
        var few, many := Validator(small - 1, defs), Validator(large - 1, defs);
        forall key, k | 0 <= k < |Asked(s, j, key)|
          ensures Below(Answer(few, Asked(s, j, key)[k]), Answer(many, Asked(s, j, key)[k]))
        {
          var q := Asked(s, j, key)[k];
          if q.Ask? { StackMonotone(small - 1, large - 1, defs, q.schema, q.instance); }
        }
        NodeMonotone(few, many, s, s, j);
      }
    }
  }

  /** The verdict a schema gives an instance under some stack; it has none when it recurses forever. */
  ghost predicate Decides(defs: Definitions, s: Schema, j: Json, verdict: Outcome) {
    verdict != Exhausted && exists stack: nat :: Validate(stack, defs, s, j) == verdict
  }

  /** A schema never both accepts and rejects an instance. */
  lemma DecidesOnce(defs: Definitions, s: Schema, j: Json, one: Outcome, other: Outcome)
    requires Decides(defs, s, j, one) && Decides(defs, s, j, other)
    ensures one == other
  {
    hide Validate;
    var m: nat :| Validate(m, defs, s, j) == one;
    var n: nat :| Validate(n, defs, s, j) == other;
    StackMonotone(if m < n then m else n, if m < n then n else m, defs, s, j);
  }

  // ----- The graph of references

  /** Subschemas that a node applies to the very instance it is given. */
  function InPlace(n: Schema): (r: seq<Schema>)
    requires n.Node?
    ensures forall c | c in r :: c < n
  {
    assert forall c | c in Optional(n.condition) + Optional(n.consequent) :: c < n;
    assert forall c | c in Optional(n.alternative) + Optional(n.forbidden) :: c < n;
    n.allOf + (Optional(n.condition) + Optional(n.consequent)) + (Optional(n.alternative) + Optional(n.forbidden))
    + List(n.oneOf) + List(n.anyOf)
  }

  function Optional(s: Option<Schema>): seq<Schema> {
    if s.Some? then [s.value] else []
  }

  function List(s: SchemaList): seq<Schema> {
    if s.Listed? then s.list else []
  }

  lemma InPlaceMembers(n: Schema)
    requires n.Node?
    ensures forall c | c in n.allOf :: c in InPlace(n)
    ensures forall c | c in List(n.oneOf) :: c in InPlace(n)
    ensures forall c | c in List(n.anyOf) :: c in InPlace(n)
    ensures n.condition.Some? ==> n.condition.value in InPlace(n)
    ensures n.consequent.Some? ==> n.consequent.value in InPlace(n)
    ensures n.alternative.Some? ==> n.alternative.value in InPlace(n)
    ensures n.forbidden.Some? ==> n.forbidden.value in InPlace(n)
  {
    assert n.condition.Some? ==> n.condition.value in Optional(n.condition);
    assert n.consequent.Some? ==> n.consequent.value in Optional(n.consequent);
    assert n.alternative.Some? ==> n.alternative.value in Optional(n.alternative);
    assert n.forbidden.Some? ==> n.forbidden.value in Optional(n.forbidden);
  }

  /** Every schema directly inside a node. */
  ghost function Children(n: Schema): (all: set<Schema>)
    requires n.Node?
    ensures forall c | c in all :: c < n
  {
    assert forall c | c in Optional(n.propertyNames) + Optional(n.itemSchema) :: c < n;
    (set c | c in InPlace(n)) + (set c | c in Optional(n.propertyNames)) + (set c | c in Optional(n.itemSchema))
    + (if n.properties.Properties? then set name | name in n.properties.named :: n.properties.named[name] else {})
  }

  lemma ChildrenMembers(n: Schema)
    requires n.Node?
    ensures forall c | c in InPlace(n) :: c in Children(n)
    ensures n.propertyNames.Some? ==> n.propertyNames.value in Children(n)
    ensures n.itemSchema.Some? ==> n.itemSchema.value in Children(n)
    ensures n.properties.Properties? ==> forall name | name in n.properties.named :: n.properties.named[name] in Children(n)
  {
    assert n.propertyNames.Some? ==> n.propertyNames.value in Optional(n.propertyNames);
    assert n.itemSchema.Some? ==> n.itemSchema.value in Optional(n.itemSchema);
  }

  /** Definitions that a schema refers to without descending into the instance. */
  ghost function DirectRefs(defs: Definitions, s: Schema): set<string> {
    if s.Node? then set c, name | c in InPlace(s) && name in DirectRefs(defs, c) :: name
    else if Resolve(defs, s.reference).Some? then {s.reference[|PREFIX|..]}
    else {}
  }

  lemma DirectRefsResolve(defs: Definitions, s: Schema)
    ensures DirectRefs(defs, s) != {} ==> defs.Some?
    ensures defs.Some? ==> DirectRefs(defs, s) <= defs.value.Keys
  {
  }

  ghost function Names(defs: Definitions): set<string> {
    if defs.Some? then defs.value.Keys else {}
  }

  /** `rank` decreases along every direct reference of a definition and stays below `top`. */
  ghost predicate Ranked(defs: Definitions, rank: map<string, nat>, top: nat) {
    && rank.Keys == Names(defs)
    && (forall name | name in rank :: rank[name] < top && RefsBelow(defs, rank, rank[name], defs.value[name]))
  }

  ghost predicate RefsBelow(defs: Definitions, rank: map<string, nat>, bound: nat, s: Schema) {
    forall name | name in DirectRefs(defs, s) :: name in rank && rank[name] < bound
  }

  /** Once the instance shrinks, any definition may be referred to again. */
  lemma DescentIsFree(defs: Definitions, rank: map<string, nat>, top: nat, s: Schema)
    requires Ranked(defs, rank, top)
    ensures RefsBelow(defs, rank, top, s)
  {
    DirectRefsResolve(defs, s);
  }

  // ----- The meaning

  /** A claim about which instances each schema accepts. */
  type Reading = (Schema, Json) -> bool

  /** What the keywords say about `s`, given a reading of its subschemas and definitions. */
  ghost predicate Clause(defs: Definitions, s: Schema, j: Json, accepts: Reading) {
    if s.Node? then
      && HereClause(s, j, accepts)
      && ScalarChecks(s.checks, j)
      && ContainerChecks(s.checks, j)
      && MembersClause(s, j, accepts)
    else
      var target := Resolve(defs, s.reference);
      target.Some? && accepts(target.value, j)
  }

  /** The keywords applied to the instance itself. */
  ghost predicate HereClause(s: Schema, j: Json, accepts: Reading)
    requires s.Node?
  {
    // allOf is intersection
    && (forall k | 0 <= k < |s.allOf| :: accepts(s.allOf[k], j))
    && BranchClause(s, j, accepts)
    && (s.oneOf.Listed? ==> ExactlyOne(s.oneOf.list, j, accepts))
    // anyOf is union
    && (s.anyOf.Listed? ==> exists k | 0 <= k < |s.anyOf.list| :: accepts(s.anyOf.list[k], j))
    // not is complement
    && (s.forbidden.Some? ==> !accepts(s.forbidden.value, j))
  }

  /** if C then T else E is (C and T) or (not C and E). */
  ghost predicate BranchClause(s: Schema, j: Json, accepts: Reading)
    requires s.Node?
  {
    s.condition.Some? ==>
      || (accepts(s.condition.value, j) && (s.consequent.Some? ==> accepts(s.consequent.value, j)))
      || (!accepts(s.condition.value, j) && (s.alternative.Some? ==> accepts(s.alternative.value, j)))
  }

  /** oneOf accepts what exactly one alternative accepts. */
  ghost predicate ExactlyOne(list: seq<Schema>, j: Json, accepts: Reading) {
    exists k | 0 <= k < |list| ::
      accepts(list[k], j) && forall i | 0 <= i < |list| && i != k :: !accepts(list[i], j)
  }

  /** The keywords applied to property names, property values and items. */
  ghost predicate MembersClause(s: Schema, j: Json, accepts: Reading)
    requires s.Node?
  {
    && (j.Obj? && s.propertyNames.Some? ==>
          forall k | 0 <= k < |j.fields| :: accepts(s.propertyNames.value, Str(j.fields[k].name)))
    && (j.Obj? && s.properties.Properties? ==>
          forall k | 0 <= k < |j.fields| ::
            if j.fields[k].name in s.properties.named
            then accepts(s.properties.named[j.fields[k].name], j.fields[k].value)
            else s.additionalAllowed)
    && (j.Arr? && s.itemSchema.Some? ==> forall k | 0 <= k < |j.items| :: accepts(s.itemSchema.value, j.items[k]))
  }

  /** A reading that respects every keyword of every schema. */
  ghost predicate Respects(defs: Definitions, accepts: Reading) {
    forall s, j :: accepts(s, j) <==> Clause(defs, s, j, accepts)
  }
}
