/**
 How deep the validator can have to recurse for one schema and one instance, with any definitions, cyclic ones too:
 no deeper than there are pairs of a schema and an instance to reach, or else without end.
 */
module SchemaReach {
  import opened SchemaModel
  import opened SchemaValidator
  import opened SchemaMeaning
  import opened SchemaAgreement

  type Pair = (Schema, Json)

  // ----- What can be reached

  ghost function Subschemas(s: Schema): (all: set<Schema>)
    ensures s in all
    decreases s
  {
    {s} + if s.Node? then set c, x | c in Children(s) && x in Subschemas(c) :: x else {}
  }

  /** The instance, its members and items at any depth, and the names of its members. */
  ghost function Parts(j: Json): (all: set<Json>)
    ensures j in all
    decreases j
  {
    match j
    case Arr(items) => {j} + set x, p | x in items && p in Parts(x) :: p
    case Obj(fields) =>
      {j} + (set f | f in fields :: Str(f.name)) + set f, p | f in fields && p in Parts(f.value) :: p
    case _ => {j}
  }

  ghost function Schemas(defs: Definitions, s: Schema): (all: set<Schema>) {
    Subschemas(s) + if defs.Some? then set name, x | name in defs.value && x in Subschemas(defs.value[name]) :: x else {}
  }

  ghost function Product(xs: set<Schema>, ys: set<Json>): set<Pair> {
    set x, y | x in xs && y in ys :: (x, y)
  }

  /** Every pair the validator may be called with, starting from `s` and `j`. */
  ghost function Reachable(defs: Definitions, s: Schema, j: Json): (pairs: set<Pair>) {
    Product(Schemas(defs, s), Parts(j))
  }

  /** The calls made for one pair stay among the pairs. */
  ghost predicate ClosedAt(defs: Definitions, pairs: set<Pair>, s: Schema, j: Json) {
    if s.Ref? then
      var target := Resolve(defs, s.reference);
      target.Some? ==> (target.value, j) in pairs
    else
      forall key, k | 0 <= k < |Asked(s, j, key)| :: AskedAmong(pairs, Asked(s, j, key)[k])
  }

  ghost predicate AskedAmong(pairs: set<Pair>, q: Query) {
    q.Ask? ==> (q.schema, q.instance) in pairs
  }

  ghost predicate Closed(defs: Definitions, pairs: set<Pair>) {
    forall pair | pair in pairs :: ClosedAt(defs, pairs, pair.0, pair.1)
  }

  lemma {:induction false} SubschemasNest(s: Schema, t: Schema)
    requires t in Subschemas(s)
    ensures Subschemas(t) <= Subschemas(s)
    decreases s
  {
    hide Children;
    if t != s {
      var c :| c in Children(s) && t in Subschemas(c);
      SubschemasNest(c, t);
    }
  }

  lemma {:induction false} PartsNest(j: Json, p: Json)
    requires p in Parts(j)
    ensures Parts(p) <= Parts(j)
    decreases j
  {
    if p != j {
      if j.Arr? {
        var x :| x in j.items && p in Parts(x);
        PartsNest(x, p);
      } else if f :| f in j.fields && p in Parts(f.value) {
        PartsNest(f.value, p);
      }
    }
  }

  lemma SchemasNest(defs: Definitions, s: Schema, x: Schema)
    requires x in Schemas(defs, s)
    ensures Subschemas(x) <= Schemas(defs, s)
  {
    if x in Subschemas(s) {
      SubschemasNest(s, x);
    } else {
      var name :| name in defs.value && x in Subschemas(defs.value[name]);
      SubschemasNest(defs.value[name], x);
    }
  }

  lemma ChildIsBelow(s: Schema, c: Schema)
    requires s.Node? && c in Children(s)
    ensures c in Subschemas(s)
  {
    hide Children;
    assert c in Subschemas(c);
  }

  lemma FieldPart(j: Json, f: Field)
    requires j.Obj? && f in j.fields
    ensures f.value in Parts(j) && Str(f.name) in Parts(j)
  {
    assert f.value in Parts(f.value);
  }

  lemma ItemPart(j: Json, x: Json)
    requires j.Arr? && x in j.items
    ensures x in Parts(j)
  {
    assert x in Parts(x);
  }

  /** A call is made for a subschema and a part of the instance. */
  lemma AskedIsBelow(s: Schema, j: Json, key: Keyword, k: nat)
    requires s.Node? && k < |Asked(s, j, key)| && Asked(s, j, key)[k].Ask?
    ensures Asked(s, j, key)[k].schema in Subschemas(s) && Asked(s, j, key)[k].instance in Parts(j)
  {
    var q := Asked(s, j, key)[k];
    ChildrenMembers(s);
    hide Children, Subschemas;
    match key {
      case PropertyNames =>
        assert q.schema == s.propertyNames.value && j.fields[k] in j.fields;
        FieldPart(j, j.fields[k]);
      case Members =>
        var f := j.fields[k];
        assert f in j.fields && f.name in s.properties.named;
        FieldPart(j, f);
      case Items =>
        assert j.items[k] in j.items;
        ItemPart(j, j.items[k]);
      case _ =>
        AskedInPlace(s, j, key, k);
    }
    ChildIsBelow(s, q.schema);
  }

  lemma ReachableIsClosed(defs: Definitions, s: Schema, j: Json)
    ensures (s, j) in Reachable(defs, s, j) && Closed(defs, Reachable(defs, s, j))
  {
    var pairs := Reachable(defs, s, j);
    hide Subschemas, Parts, Schemas, Asked;
    assert s in Schemas(defs, s) by { StartIsReached(defs, s); }
    assert j in Parts(j);
    forall pair | pair in pairs ensures ClosedAt(defs, pairs, pair.0, pair.1) {
      ReachableIsClosedAt(defs, s, j, pair.0, pair.1);
    }
  }

  lemma StartIsReached(defs: Definitions, s: Schema)
    ensures s in Schemas(defs, s)
    ensures defs.Some? ==> forall name | name in defs.value :: defs.value[name] in Schemas(defs, s)
  {
    if defs.Some? {
      forall name | name in defs.value ensures defs.value[name] in Schemas(defs, s) {
        assert defs.value[name] in Subschemas(defs.value[name]);
      }
    }
  }

  lemma ReachableIsClosedAt(defs: Definitions, s: Schema, j: Json, x: Schema, p: Json)
    requires x in Schemas(defs, s) && p in Parts(j)
    ensures ClosedAt(defs, Reachable(defs, s, j), x, p)
  {
    hide Subschemas, Parts, Schemas, Asked;
    if x.Ref? {
      StartIsReached(defs, s);
    } else {
      SchemasNest(defs, s, x);
      PartsNest(j, p);
      forall key, k | 0 <= k < |Asked(x, p, key)| ensures AskedAmong(Reachable(defs, s, j), Asked(x, p, key)[k]) {
        if Asked(x, p, key)[k].Ask? { AskedIsBelow(x, p, key, k); }
      }
    }
  }

  // ----- The pairs decided at each depth grow, and stop growing for good

  ghost function DecidedAt(stack: nat, defs: Definitions, pairs: set<Pair>): set<Pair> {
    set pair | pair in pairs && Validate(stack, defs, pair.0, pair.1) != Exhausted
  }

  /** One more call changes no outcome among the pairs. */
  ghost predicate Settled(stack: nat, defs: Definitions, pairs: set<Pair>) {
    forall pair | pair in pairs ::
      Validate(stack, defs, pair.0, pair.1) == Validate(stack + 1, defs, pair.0, pair.1)
  }

  lemma EqualIsSettled(stack: nat, defs: Definitions, pairs: set<Pair>)
    ensures DecidedAt(stack, defs, pairs) <= DecidedAt(stack + 1, defs, pairs)
    ensures DecidedAt(stack, defs, pairs) == DecidedAt(stack + 1, defs, pairs) ==> Settled(stack, defs, pairs)
  {
    hide Validate;
    forall pair | pair in pairs
      ensures Below(Validate(stack, defs, pair.0, pair.1), Validate(stack + 1, defs, pair.0, pair.1))
    {
      StackMonotone(stack, stack + 1, defs, pair.0, pair.1);
    }
    if DecidedAt(stack, defs, pairs) == DecidedAt(stack + 1, defs, pairs) {
      forall pair | pair in pairs
        ensures Validate(stack, defs, pair.0, pair.1) == Validate(stack + 1, defs, pair.0, pair.1)
      {
        assert pair in DecidedAt(stack, defs, pairs) <==> pair in DecidedAt(stack + 1, defs, pairs);
      }
    }
  }

  lemma SettledStep(stack: nat, defs: Definitions, pairs: set<Pair>, s: Schema, j: Json)
    requires Settled(stack, defs, pairs) && Closed(defs, pairs) && (s, j) in pairs
    ensures Validate(stack + 1, defs, s, j) == Validate(stack + 2, defs, s, j)
  {
    hide RunNode, Asked;
    var pair := (s, j);
    assert ClosedAt(defs, pairs, pair.0, pair.1);
    if s.Ref? {
      var target := Resolve(defs, s.reference);
      if target.Some? {
        var next := (target.value, j);
        assert next in pairs;
      }
    } else {
      var few, many := Validator(stack, defs), Validator(stack + 1, defs);
      forall key, k | 0 <= k < |Asked(s, j, key)|
        ensures Answer(few, Asked(s, j, key)[k]) == Answer(many, Asked(s, j, key)[k])
      {
        var q := Asked(s, j, key)[k];
        assert AskedAmong(pairs, q);
        if q.Ask? {
          var next := (q.schema, q.instance);
          assert next in pairs;
        }
      }
      NodeMonotone(few, many, s, s, j);
      NodeMonotone(many, few, s, s, j);
    }
  }

  lemma {:induction false} SettledStays(stack: nat, more: nat, defs: Definitions, pairs: set<Pair>)
    requires Settled(stack, defs, pairs) && Closed(defs, pairs) && stack <= more
    ensures Settled(more, defs, pairs)
    ensures forall pair | pair in pairs :: Validate(more, defs, pair.0, pair.1) == Validate(stack, defs, pair.0, pair.1)
    decreases more
  {
    hide Validate, Closed;
    if stack < more {
      SettledStays(stack, more - 1, defs, pairs);
      forall pair | pair in pairs
        ensures Validate(more, defs, pair.0, pair.1) == Validate(more + 1, defs, pair.0, pair.1)
      {
        SettledStep(more - 1, defs, pairs, pair.0, pair.1);
      }
    }
  }

  /** Before it settles, each depth decides one more pair. */
  lemma {:induction false} SettlesOrGrows(stack: nat, defs: Definitions, pairs: set<Pair>) returns (settled: nat)
    ensures (settled < stack && Settled(settled, defs, pairs)) || |DecidedAt(stack, defs, pairs)| >= stack
  {
    hide Validate;
    settled := 0;
    if stack > 0 {
      settled := SettlesOrGrows(stack - 1, defs, pairs);
      EqualIsSettled(stack - 1, defs, pairs);
      var before, now := DecidedAt(stack - 1, defs, pairs), DecidedAt(stack, defs, pairs);
      hide DecidedAt;
      if before == now {
        settled := stack - 1;
      } else {
        ProperSubsetIsSmaller(before, now);
      }
    }
  }

  lemma ProperSubsetIsSmaller<T>(a: set<T>, b: set<T>)
    requires a <= b && a != b
    ensures |a| < |b|
  {
    assert b == a + (b - a);
    assert b - a != {};
  }

  lemma SettledBySize(defs: Definitions, pairs: set<Pair>)
    requires Closed(defs, pairs)
    ensures Settled(|pairs|, defs, pairs)
  {
    hide Validate, Closed, Settled;
    var n := |pairs|;
    var settled := SettlesOrGrows(n + 1, defs, pairs);
    var decided := DecidedAt(n + 1, defs, pairs);
    assert decided <= pairs;
    if decided != pairs { ProperSubsetIsSmaller(decided, pairs); }
    assert settled <= n && Settled(settled, defs, pairs);
    SettledStays(settled, n, defs, pairs);
  }

  /**
   With any definitions, the validator called with as many nested calls as there are reachable pairs says what it will
   ever say: the verdict, or by running out, that there is none.
   */
  lemma ReachablePairsSuffice(defs: Definitions, s: Schema, j: Json, verdict: Outcome)
    ensures var outcome := Validate(|Reachable(defs, s, j)|, defs, s, j);
      && (Decides(defs, s, j, verdict) <==> verdict != Exhausted && outcome == verdict)
      && (outcome == Exhausted <==> forall stack: nat :: Validate(stack, defs, s, j) == Exhausted)
  {
    hide Validate, Closed, Settled, Reachable;
    var pairs := Reachable(defs, s, j);
    var n := |pairs|;
    var pair := (s, j);
    ReachableIsClosed(defs, s, j);
    SettledBySize(defs, pairs);
    forall stack: nat
      ensures stack >= n ==> Validate(stack, defs, s, j) == Validate(n, defs, s, j)
      ensures stack < n ==> Below(Validate(stack, defs, s, j), Validate(n, defs, s, j))
    {
      if stack >= n {
        SettledStays(n, stack, defs, pairs);
        assert Validate(stack, defs, pair.0, pair.1) == Validate(n, defs, pair.0, pair.1);
      } else {
        StackMonotone(stack, n, defs, s, j);
      }
    }
  }

  lemma {:induction false} ProductSize(xs: set<Schema>, ys: set<Json>)
    ensures |Product(xs, ys)| == |xs| * |ys|
    decreases xs
  {
    if xs == {} {
      assert Product(xs, ys) == {};
    } else {
      hide Product;
      var one :| one in xs;
      var less := xs - {one};
      ProductSize(less, ys);
      RowSize(one, ys);
      SplitProduct(xs, ys, one);
      assert |xs| == |less| + 1;
      OneMore(|less|, |ys|);
    }
  }

  lemma OneMore(m: nat, n: nat)
    ensures (m + 1) * n == m * n + n
  {
  }

  lemma SplitProduct(xs: set<Schema>, ys: set<Json>, one: Schema)
    requires one in xs
    ensures Product(xs, ys) == Product({one}, ys) + Product(xs - {one}, ys)
    ensures Product({one}, ys) !! Product(xs - {one}, ys)
  {
  }

  lemma {:induction false} RowSize(one: Schema, ys: set<Json>)
    ensures |Product({one}, ys)| == |ys|
    decreases ys
  {
    if ys == {} {
      assert Product({one}, ys) == {};
    } else {
      var y :| y in ys;
      RowSize(one, ys - {y});
      assert Product({one}, ys) == Product({one}, ys - {y}) + {(one, y)};
    }
  }

  /** There are as many pairs as subschemas times parts of the instance. */
  lemma ReachableSize(defs: Definitions, s: Schema, j: Json)
    ensures |Reachable(defs, s, j)| == |Schemas(defs, s)| * |Parts(j)|
  {
    ProductSize(Schemas(defs, s), Parts(j));
  }
}
