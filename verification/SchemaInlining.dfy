/** Replacing references by what they name, anywhere in a schema and its definitions, changes no verdict. */
module SchemaInlining {
  import opened Prelude
  import opened SchemaModel
  import opened SchemaValidator
  import opened SchemaMeaning

  /** `t` is `s` with any number of references, at any depth, replaced by their targets. */
  ghost predicate Inlined(defs: Definitions, s: Schema, t: Schema)
    decreases s, 1
  {
    Kept(defs, s, t) || (s.Ref? && Resolve(defs, s.reference) == Some(t))
  }

  /** The same, with `s` itself left in place. */
  ghost predicate Kept(defs: Definitions, s: Schema, t: Schema)
    decreases s, 0
  {
    || t == s
    || (&& SameShape(s, t)
        && s.additionalAllowed == t.additionalAllowed
        && |s.allOf| == |t.allOf|
        && (forall k | 0 <= k < |s.allOf| :: Inlined(defs, s.allOf[k], t.allOf[k]))
        && s.condition.Some? == t.condition.Some?
        && (s.condition.Some? ==> Inlined(defs, s.condition.value, t.condition.value))
        && s.consequent.Some? == t.consequent.Some?
        && (s.consequent.Some? ==> Inlined(defs, s.consequent.value, t.consequent.value))
        && s.alternative.Some? == t.alternative.Some?
        && (s.alternative.Some? ==> Inlined(defs, s.alternative.value, t.alternative.value))
        && (s.oneOf.Listed? ==>
              && |s.oneOf.list| == |t.oneOf.list|
              && forall k | 0 <= k < |s.oneOf.list| :: Inlined(defs, s.oneOf.list[k], t.oneOf.list[k]))
        && (s.anyOf.Listed? ==>
              && |s.anyOf.list| == |t.anyOf.list|
              && forall k | 0 <= k < |s.anyOf.list| :: Inlined(defs, s.anyOf.list[k], t.anyOf.list[k]))
        && s.forbidden.Some? == t.forbidden.Some?
        && (s.forbidden.Some? ==> Inlined(defs, s.forbidden.value, t.forbidden.value))
        && s.propertyNames.Some? == t.propertyNames.Some?
        && (s.propertyNames.Some? ==> Inlined(defs, s.propertyNames.value, t.propertyNames.value))
        && s.properties.Properties? == t.properties.Properties?
        && (s.properties.Properties? ==>
              && s.properties.named.Keys == t.properties.named.Keys
              && forall name | name in s.properties.named ::
                   Inlined(defs, s.properties.named[name], t.properties.named[name]))
        && s.itemSchema.Some? == t.itemSchema.Some?
        && (s.itemSchema.Some? ==> Inlined(defs, s.itemSchema.value, t.itemSchema.value)))
  }

  /** The same for a whole set of definitions. */
  ghost predicate DefinitionsInlined(defs: Definitions, others: Definitions) {
    && defs.Some? == others.Some?
    && (defs.Some? ==>
          && defs.value.Keys == others.value.Keys
          && forall name | name in defs.value :: Inlined(defs, defs.value[name], others.value[name]))
  }

  ghost predicate QueryInlined(defs: Definitions, q: Query, r: Query) {
    if q.Known? then r == q
    else r.Ask? && r.instance == q.instance && Inlined(defs, q.schema, r.schema)
  }

  /** What inlining does to the calls at one keyword. */
  ghost predicate CallsInlined(defs: Definitions, before: seq<Query>, after: seq<Query>) {
    |before| == |after| && forall k | 0 <= k < |before| :: QueryInlined(defs, before[k], after[k])
  }

  lemma CallsKept(defs: Definitions, calls: seq<Query>)
    ensures CallsInlined(defs, calls, calls)
  {
    forall k | 0 <= k < |calls| ensures QueryInlined(defs, calls[k], calls[k]) {
      var q := calls[k];
      assert q.Ask? ==> Kept(defs, q.schema, q.schema);
    }
  }

  lemma ListInlined(defs: Definitions, list: seq<Schema>, others: seq<Schema>, j: Json)
    requires |list| == |others| && forall k | 0 <= k < |list| :: Inlined(defs, list[k], others[k])
    ensures CallsInlined(defs, AskAll(list, j), AskAll(others, j))
  {
    hide Inlined;
  }

  lemma OneInlined(defs: Definitions, one: Option<Schema>, other: Option<Schema>, j: Json)
    requires one.Some? == other.Some? && (one.Some? ==> Inlined(defs, one.value, other.value))
    ensures CallsInlined(defs, AskIf(one, j), AskIf(other, j))
  {
    hide Inlined;
  }

  lemma NamesInlined(defs: Definitions, s: Schema, t: Schema, j: Json)
    requires s.Node? && t.Node? && s.propertyNames.Some? == t.propertyNames.Some?
    requires s.propertyNames.Some? ==> Inlined(defs, s.propertyNames.value, t.propertyNames.value)
    ensures CallsInlined(defs, AskNames(s, j), AskNames(t, j))
  {
    hide Inlined;
  }

  lemma MembersInlined(defs: Definitions, s: Schema, t: Schema, j: Json)
    requires s.Node? && t.Node? && s.additionalAllowed == t.additionalAllowed
    requires s.properties.Properties? == t.properties.Properties?
    requires s.properties.Properties? ==>
      && s.properties.named.Keys == t.properties.named.Keys
      && forall name | name in s.properties.named :: Inlined(defs, s.properties.named[name], t.properties.named[name])
    ensures CallsInlined(defs, AskMembers(s, j), AskMembers(t, j))
  {
    hide Inlined;
  }

  lemma ItemsInlined(defs: Definitions, s: Schema, t: Schema, j: Json)
    requires s.Node? && t.Node? && s.itemSchema.Some? == t.itemSchema.Some?
    requires s.itemSchema.Some? ==> Inlined(defs, s.itemSchema.value, t.itemSchema.value)
    ensures CallsInlined(defs, AskItems(s, j), AskItems(t, j))
  {
    hide Inlined;
  }

  lemma AskedInlined(defs: Definitions, s: Schema, t: Schema, j: Json, key: Keyword)
    requires s.Node? && Kept(defs, s, t)
    ensures CallsInlined(defs, Asked(s, j, key), Asked(t, j, key))
  {
    hide Inlined, CallsInlined, AskAll, AskIf, AskNames, AskMembers, AskItems;
    if t == s {
      CallsKept(defs, Asked(s, j, key));
    } else {
      match key {
        case AllOf => ListInlined(defs, s.allOf, t.allOf, j);
        case If => OneInlined(defs, s.condition, t.condition, j);
        case Then => OneInlined(defs, s.consequent, t.consequent, j);
        case Else => OneInlined(defs, s.alternative, t.alternative, j);
        case OneOf => if s.oneOf.Listed? { ListInlined(defs, s.oneOf.list, t.oneOf.list, j); } else { CallsKept(defs, []); }
        case AnyOf => if s.anyOf.Listed? { ListInlined(defs, s.anyOf.list, t.anyOf.list, j); } else { CallsKept(defs, []); }
        case Not => OneInlined(defs, s.forbidden, t.forbidden, j);
        case PropertyNames => NamesInlined(defs, s, t, j);
        case Members => MembersInlined(defs, s, t, j);
        case Items => ItemsInlined(defs, s, t, j);
      }
    }
  }

  lemma ResolveInlined(defs: Definitions, others: Definitions, reference: string)
    requires DefinitionsInlined(defs, others)
    ensures Resolve(defs, reference).Some? == Resolve(others, reference).Some?
    ensures Resolve(defs, reference).Some? ==> Inlined(defs, Resolve(defs, reference).value, Resolve(others, reference).value)
  {
  }

  /** The inlined schema reaches the same verdict with no more stack. */
  lemma {:induction false} Forward(stack: nat, defs: Definitions, others: Definitions, s: Schema, t: Schema, j: Json)
    requires DefinitionsInlined(defs, others) && Inlined(defs, s, t)
    ensures Below(Validate(stack, defs, s, j), Validate(stack, others, t, j))
    decreases stack
  {
    hide RunNode, Asked;
    if stack > 0 {
      if s.Ref? {
        ResolveInlined(defs, others, s.reference);
        var target := Resolve(defs, s.reference);
        if target.Some? {
          if t == s {
            Forward(stack - 1, defs, others, target.value, Resolve(others, s.reference).value, j);
          } else {
            assert Kept(defs, t, t);
            Forward(stack - 1, defs, others, t, t, j);
            StackMonotone(stack - 1, stack, others, t, j);
          }
        }
      } else {
        var few, many := Validator(stack - 1, defs), Validator(stack - 1, others);
        forall key ensures |Asked(s, j, key)| == |Asked(t, j, key)| { AskedInlined(defs, s, t, j, key); }
        forall key, k | 0 <= k < |Asked(s, j, key)|
          ensures Below(Answer(few, Asked(s, j, key)[k]), Answer(many, Asked(t, j, key)[k]))
        {
          AskedInlined(defs, s, t, j, key);
          var q, r := Asked(s, j, key)[k], Asked(t, j, key)[k];
          assert QueryInlined(defs, q, r);
          if q.Ask? { Forward(stack - 1, defs, others, q.schema, r.schema, q.instance); }
        }
        NodeMonotone(few, many, s, t, j);
      }
    }
  }

  /** The original schema reaches the same verdict with at most twice the stack. */
  lemma {:induction false} Backward(stack: nat, defs: Definitions, others: Definitions, s: Schema, t: Schema, j: Json)
    requires DefinitionsInlined(defs, others) && Inlined(defs, s, t)
    ensures Below(Validate(stack, others, t, j), Validate(2 * stack, defs, s, j))
    decreases stack, 1
  {
    hide RunNode;
    if stack > 0 {
      if Kept(defs, s, t) {
        BackwardKept(stack, defs, others, s, t, j);
        StackMonotone(2 * stack - 1, 2 * stack, defs, s, j);
      } else {
        assert Kept(defs, t, t);
        BackwardKept(stack, defs, others, t, t, j);
      }
    }
  }

  lemma {:induction false} BackwardKept(stack: nat, defs: Definitions, others: Definitions, s: Schema, t: Schema, j: Json)
    requires stack > 0 && DefinitionsInlined(defs, others) && Kept(defs, s, t)
    ensures Below(Validate(stack, others, t, j), Validate(2 * stack - 1, defs, s, j))
    decreases stack, 0
  {
    hide RunNode, Asked;
    if s.Ref? {
      ResolveInlined(defs, others, s.reference);
      var target := Resolve(defs, s.reference);
      if target.Some? {
        Backward(stack - 1, defs, others, target.value, Resolve(others, s.reference).value, j);
      }
    } else {
      var few, many := Validator(stack - 1, others), Validator(2 * stack - 2, defs);
      forall key ensures |Asked(s, j, key)| == |Asked(t, j, key)| { AskedInlined(defs, s, t, j, key); }
      forall key, k | 0 <= k < |Asked(t, j, key)|
        ensures Below(Answer(few, Asked(t, j, key)[k]), Answer(many, Asked(s, j, key)[k]))
      {
        AskedInlined(defs, s, t, j, key);
        var q, r := Asked(s, j, key)[k], Asked(t, j, key)[k];
        assert QueryInlined(defs, q, r);
        if q.Ask? { Backward(stack - 1, defs, others, q.schema, r.schema, q.instance); }
      }
      NodeMonotone(few, many, t, s, j);
    }
  }

  /** Inlining keeps every verdict, and keeps a schema that never returns from returning. */
  lemma InliningPreservesMeaning(defs: Definitions, others: Definitions, s: Schema, t: Schema, j: Json, verdict: Outcome)
    requires DefinitionsInlined(defs, others) && Inlined(defs, s, t)
    ensures Decides(defs, s, j, verdict) <==> Decides(others, t, j, verdict)
  {
    hide Validate, Inlined, DefinitionsInlined;
    if Decides(defs, s, j, verdict) {
      var stack: nat :| Validate(stack, defs, s, j) == verdict;
      Forward(stack, defs, others, s, t, j);
    }
    if Decides(others, t, j, verdict) {
      var stack: nat :| Validate(stack, others, t, j) == verdict;
      Backward(stack, defs, others, s, t, j);
    }
  }

  /** A schema with the definitions it is read with. */
  datatype Document = Document(defs: Definitions, schema: Schema)

  /** So does inlining again and again, including what earlier rounds brought in. */
  lemma {:induction false} RoundsPreserveMeaning(rounds: seq<Document>, j: Json, verdict: Outcome)
    requires |rounds| > 0
    requires forall k | 0 < k < |rounds| ::
               && DefinitionsInlined(rounds[k - 1].defs, rounds[k].defs)
               && Inlined(rounds[k - 1].defs, rounds[k - 1].schema, rounds[k].schema)
    ensures var first, last := rounds[0], rounds[|rounds| - 1];
      Decides(first.defs, first.schema, j, verdict) <==> Decides(last.defs, last.schema, j, verdict)
  {
    hide Decides, Inlined, DefinitionsInlined;
    var n := |rounds|;
    if n > 1 {
      RoundsPreserveMeaning(rounds[..n - 1], j, verdict);
      InliningPreservesMeaning(rounds[n - 2].defs, rounds[n - 1].defs, rounds[n - 2].schema, rounds[n - 1].schema, j, verdict);
    }
  }
}
