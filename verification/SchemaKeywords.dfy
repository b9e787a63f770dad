/** What each assertion keyword says about an instance, in terms of the instance itself. */
module SchemaKeywords {
  import opened Prelude
  import opened SchemaModel
  import opened SchemaValidator
  import StableHash

  // ----- JSON values, with object members unordered

  datatype Value =
    | NullValue
    | Truth(b: bool)
    | Whole(n: int)
    | Fraction(r: real)
    | Number(r: real)
    | TextValue(s: string)
    | ListValue(items: seq<Value>)
    | ObjectValue(named: map<string, Value>)

  /** Objects read from JSON text have one member of each name. */
  predicate Distinct(j: Json) {
    match j
    case Arr(items) => forall x | x in items :: Distinct(x)
    case Obj(fields) =>
      && (forall f | f in fields :: Distinct(f.value))
      && (forall a, b | 0 <= a < b < |fields| :: fields[a].name != fields[b].name)
    case _ => true
  }

  /** Python compares booleans, integers and floats as numbers; their JSON texts differ. */
  function ValueOf(j: Json, asText: bool): Value {
    match j
    case Null => NullValue
    case Bool(b) => if asText then Truth(b) else Number(if b then 1.0 else 0.0)
    case Int(n) => if asText then Whole(n) else Number(n as real)
    case Float(r) => if asText then Fraction(r) else Number(r)
    case Str(s) => TextValue(s)
    case Arr(items) => ListValue(ValuesOf(items, asText))
    case Obj(fields) => ObjectValue(NamedValues(fields, asText))
  }

  function ValuesOf(items: seq<Json>, asText: bool): (values: seq<Value>)
    ensures |values| == |items|
    ensures forall k {:trigger values[k]} | 0 <= k < |items| :: values[k] == ValueOf(items[k], asText)
  {
    if items == [] then [] else [ValueOf(items[0], asText)] + ValuesOf(items[1..], asText)
  }

  function NamedValues(fields: seq<Field>, asText: bool): (named: map<string, Value>)
    ensures forall name :: name in named <==> exists f :: f in fields && f.name == name
  {
    if fields == [] then map[]
    else NamedValues(fields[1..], asText)[fields[0].name := ValueOf(fields[0].value, asText)]
  }

  predicate UniqueNames(fields: seq<Field>) {
    forall a, b | 0 <= a < b < |fields| :: fields[a].name != fields[b].name
  }

  lemma {:induction false} LookupAt(fields: seq<Field>, k: nat)
    requires k < |fields| && UniqueNames(fields)
    ensures Lookup(fields, fields[k].name) == Some(fields[k].value)
  {
    if k > 0 {
      assert fields[1..][k - 1] == fields[k];
      LookupAt(fields[1..], k - 1);
    }
  }

  lemma {:induction false} NamedAt(fields: seq<Field>, k: nat, asText: bool)
    requires k < |fields| && UniqueNames(fields)
    ensures fields[k].name in NamedValues(fields, asText)
    ensures NamedValues(fields, asText)[fields[k].name] == ValueOf(fields[k].value, asText)
  {
    if k > 0 {
      assert fields[1..][k - 1] == fields[k];
      NamedAt(fields[1..], k - 1, asText);
    }
  }

  lemma FirstNameIsNew(fields: seq<Field>)
    requires fields != [] && UniqueNames(fields)
    ensures UniqueNames(fields[1..])
    ensures forall f | f in fields[1..] :: f.name != fields[0].name
  {
    forall f | f in fields[1..] ensures f.name != fields[0].name {
      var k :| 0 <= k < |fields[1..]| && fields[1..][k] == f;
      assert fields[k + 1] == f;
    }
  }

  lemma {:induction false} NamedSize(fields: seq<Field>, asText: bool)
    requires UniqueNames(fields)
    ensures |NamedValues(fields, asText)| == |fields|
  {
    if fields != [] {
      FirstNameIsNew(fields);
      hide UniqueNames, ValueOf;
      NamedSize(fields[1..], asText);
      var rest := NamedValues(fields[1..], asText);
      assert fields[0].name !in rest;
      assert NamedValues(fields, asText).Keys == rest.Keys + {fields[0].name};
      assert |NamedValues(fields, asText).Keys| == |rest.Keys| + 1;
    }
  }

  /** Python's `==`, and equality of the sorted JSON text, are equality of values. */
  lemma {:induction false} SameIsEquality(a: Json, b: Json, asText: bool)
    requires Distinct(a) && Distinct(b)
    ensures Same(a, b, asText) <==> ValueOf(a, asText) == ValueOf(b, asText)
    decreases a
  {
    if a.Arr? && b.Arr? {
      SameItems(a, b, asText);
    } else if a.Obj? && b.Obj? {
      SameFields(a, b, asText);
    }
  }

  lemma {:induction false} SameItems(a: Json, b: Json, asText: bool)
    requires a.Arr? && b.Arr? && Distinct(a) && Distinct(b)
    ensures Same(a, b, asText) <==> ValueOf(a, asText) == ValueOf(b, asText)
    decreases a, 0
  {
    var xs, ys := ValuesOf(a.items, asText), ValuesOf(b.items, asText);
    if |a.items| == |b.items| {
      forall k | 0 <= k < |a.items| ensures Same(a.items[k], b.items[k], asText) <==> xs[k] == ys[k] {
        assert a.items[k] in a.items && b.items[k] in b.items;
        SameIsEquality(a.items[k], b.items[k], asText);
      }
      assert xs == ys <==> forall k | 0 <= k < |xs| :: xs[k] == ys[k];
    }
  }

  lemma DistinctObject(a: Json, asText: bool)
    requires a.Obj? && Distinct(a)
    ensures UniqueNames(a.fields) && ValueOf(a, asText) == ObjectValue(NamedValues(a.fields, asText))
  {
  }

  lemma {:induction false} SameFields(a: Json, b: Json, asText: bool)
    requires a.Obj? && b.Obj? && Distinct(a) && Distinct(b)
    ensures Same(a, b, asText) <==> ValueOf(a, asText) == ValueOf(b, asText)
    decreases a, 1
  {
    hide Same, SameField, NamedValues, Distinct, UniqueNames, ValueOf;
    var m, n := NamedValues(a.fields, asText), NamedValues(b.fields, asText);
    DistinctObject(a, asText);
    DistinctObject(b, asText);
    NamedSize(a.fields, asText);
    NamedSize(b.fields, asText);
    forall k | 0 <= k < |a.fields|
      ensures SameField(a.fields[k], b, asText) <==> a.fields[k].name in n && n[a.fields[k].name] == m[a.fields[k].name]
    {
      SameFieldAt(a, b, k, asText);
    }
    SameIsFieldwise(a, b, asText);
    EqualMaps(a.fields, m, n);
  }

  lemma SameIsFieldwise(a: Json, b: Json, asText: bool)
    requires a.Obj? && b.Obj?
    ensures Same(a, b, asText) <==>
      |a.fields| == |b.fields| && forall k | 0 <= k < |a.fields| :: SameField(a.fields[k], b, asText)
  {
  }

  lemma {:induction false} SameFieldAt(a: Json, b: Json, k: nat, asText: bool)
    requires a.Obj? && b.Obj? && Distinct(a) && Distinct(b) && k < |a.fields|
    ensures var m, n, name := NamedValues(a.fields, asText), NamedValues(b.fields, asText), a.fields[k].name;
      name in m && (SameField(a.fields[k], b, asText) <==> name in n && n[name] == m[name])
    decreases a, 0
  {
    NamedAt(a.fields, k, asText);
    var f := a.fields[k];
    assert f in a.fields;
    if g :| g in b.fields && g.name == f.name {
      var i :| 0 <= i < |b.fields| && b.fields[i] == g;
      LookupAt(b.fields, i);
      NamedAt(b.fields, i, asText);
      SameIsEquality(f.value, g.value, asText);
    }
  }

  ghost predicate SameField(f: Field, b: Json, asText: bool)
    requires b.Obj?
  {
    var other := Lookup(b.fields, f.name);
    other.Some? && Same(f.value, other.value, asText)
  }

  lemma EqualMaps(fields: seq<Field>, m: map<string, Value>, n: map<string, Value>)
    requires forall name :: name in m <==> exists f :: f in fields && f.name == name
    ensures m == n <==> |m| == |n| && forall k | 0 <= k < |fields| :: fields[k].name in n && n[fields[k].name] == m[fields[k].name]
  {
    forall k | 0 <= k < |fields| ensures fields[k].name in m { assert fields[k] in fields; }
    if |m| == |n| && forall k | 0 <= k < |fields| :: fields[k].name in n && n[fields[k].name] == m[fields[k].name] {
      forall name | name in m ensures name in n && n[name] == m[name] {
        var f :| f in fields && f.name == name;
        var k :| 0 <= k < |fields| && fields[k] == f;
      }
      assert m.Keys <= n.Keys && |m.Keys| == |n.Keys|;
      assert n.Keys == m.Keys + (n.Keys - m.Keys);
      assert m == n;
    }
  }

  // ----- Kinds and lengths

  /** The kind of an instance that a type name can ask for; booleans and floats have none. */
  function Kind(j: Json): Option<string> {
    match j
    case Obj(_) => Some("object")
    case Arr(_) => Some("array")
    case Str(_) => Some("string")
    case Int(_) => Some("integer")
    case Null => Some("null")
    case _ => None
  }

  const KINDS: set<string> := {"object", "array", "string", "integer", "null"}

  /** All names in a type, lists of alternatives flattened. */
  function TypeNames(t: TypeSpec): set<string> {
    match t
    case Named(name) => {name}
    case OneOfTypes(alternatives) => set a, name | a in alternatives && name in TypeNames(a) :: name
  }

  lemma {:induction false} TypeMeans(t: TypeSpec, j: Json)
    ensures TypeMatches(t, j) <==> exists name | name in TypeNames(t) :: name !in KINDS || Kind(j) == Some(name)
  {
    match t
    case Named(name) =>
      assert TypeNames(t) == {name};
    case OneOfTypes(alternatives) =>
      forall a | a in alternatives
        ensures TypeMatches(a, j) <==> exists name | name in TypeNames(a) :: name !in KINDS || Kind(j) == Some(name)
      {
        TypeMeans(a, j);
      }
      forall a, name | a in alternatives && name in TypeNames(a) ensures name in TypeNames(t) {}
  }

  lemma {:induction false} Utf8LengthIsBytes(s: string)
    ensures Utf8Length(s) == |StableHash.Utf8(s)|
  {
    if s != "" { Utf8LengthIsBytes(s[1..]); }
  }

  // ----- The keywords

  ghost predicate HasAKind(names: set<string>, j: Json) {
    exists name | name in names :: name !in KINDS || Kind(j) == Some(name)
  }

  ghost predicate Equals(a: Json, b: Json) {
    ValueOf(a, false) == ValueOf(b, false)
  }

  /** What `c` asserts about `j`, keyword by keyword. */
  ghost predicate Meets(c: Checks, j: Json) {
    && (c.types.Some? ==> HasAKind(TypeNames(c.types.value), j))
    && (c.constant.Some? ==> Equals(j, c.constant.value))
    && (c.choices.Some? ==> exists choice | choice in c.choices.value :: Equals(j, choice))
    && (j.Str? ==>
          && |j.s| >= c.minLength
          && (c.maxLength.Some? ==> |j.s| <= c.maxLength.value)
          && (c.maxUtf8Bytes.Some? ==> |StableHash.Utf8(j.s)| <= c.maxUtf8Bytes.value)
          && (c.pattern.Some? ==> c.pattern.value(j.s)))
    && (j.Int? ==> (c.minimum.Some? ==> j.n >= c.minimum.value) && (c.maximum.Some? ==> j.n <= c.maximum.value))
    && (j.Obj? ==> forall name | name in c.required :: exists f :: f in j.fields && f.name == name)
    && (j.Arr? ==>
          && |j.items| >= c.minItems
          && (c.maxItems.Some? ==> |j.items| <= c.maxItems.value)
          && (c.uniqueItems ==>
                forall a, b | 0 <= a < b < |j.items| :: ValueOf(j.items[a], true) != ValueOf(j.items[b], true)))
  }

  ghost predicate DistinctChecks(c: Checks) {
    && (c.constant.Some? ==> Distinct(c.constant.value))
    && (c.choices.Some? ==> forall choice | choice in c.choices.value :: Distinct(choice))
  }

  lemma ConstantsMean(c: Checks, j: Json)
    requires Distinct(j) && DistinctChecks(c)
    ensures c.constant.Some? ==> (Same(j, c.constant.value, false) <==> Equals(j, c.constant.value))
    ensures c.choices.Some? ==> forall choice | choice in c.choices.value :: Same(j, choice, false) <==> Equals(j, choice)
  {
    hide Same, ValueOf;
    if c.constant.Some? { SameIsEquality(j, c.constant.value, false); }
    if c.choices.Some? {
      forall choice | choice in c.choices.value ensures Same(j, choice, false) <==> Equals(j, choice) {
        SameIsEquality(j, choice, false);
      }
    }
  }

  lemma ScalarsMean(c: Checks, j: Json)
    requires Distinct(j) && DistinctChecks(c)
    ensures ScalarChecks(c, j) <==>
      && (c.types.Some? ==> HasAKind(TypeNames(c.types.value), j))
      && (c.constant.Some? ==> Equals(j, c.constant.value))
      && (c.choices.Some? ==> exists choice | choice in c.choices.value :: Equals(j, choice))
      && (j.Str? ==>
            && |j.s| >= c.minLength
            && (c.maxLength.Some? ==> |j.s| <= c.maxLength.value)
            && (c.maxUtf8Bytes.Some? ==> |StableHash.Utf8(j.s)| <= c.maxUtf8Bytes.value)
            && (c.pattern.Some? ==> c.pattern.value(j.s)))
      && (j.Int? ==> (c.minimum.Some? ==> j.n >= c.minimum.value) && (c.maximum.Some? ==> j.n <= c.maximum.value))
  {
    ConstantsMean(c, j);
    if c.types.Some? { TypeMeans(c.types.value, j); }
    if j.Str? { Utf8LengthIsBytes(j.s); }
    hide Same, TypeMatches, TypeNames, Equals, Utf8Length, Distinct;
  }

  lemma ContainersMean(c: Checks, j: Json)
    requires Distinct(j)
    ensures ContainerChecks(c, j) <==>
      && (j.Obj? ==> forall name | name in c.required :: exists f :: f in j.fields && f.name == name)
      && (j.Arr? ==>
            && |j.items| >= c.minItems
            && (c.maxItems.Some? ==> |j.items| <= c.maxItems.value)
            && (c.uniqueItems ==>
                  forall a, b | 0 <= a < b < |j.items| :: ValueOf(j.items[a], true) != ValueOf(j.items[b], true)))
  {
    if j.Arr? {
      forall a, b | 0 <= a < b < |j.items|
        ensures Same(j.items[a], j.items[b], true) <==> ValueOf(j.items[a], true) == ValueOf(j.items[b], true)
      {
        assert j.items[a] in j.items && j.items[b] in j.items;
        SameIsEquality(j.items[a], j.items[b], true);
      }
      hide Same, ValueOf;
    }
  }

  lemma KeywordsMean(c: Checks, j: Json)
    requires Distinct(j) && DistinctChecks(c)
    ensures ScalarChecks(c, j) && ContainerChecks(c, j) <==> Meets(c, j)
  {
    hide ScalarChecks, ContainerChecks, Distinct, DistinctChecks, Equals, HasAKind;
    ScalarsMean(c, j);
    ContainersMean(c, j);
  }

  lemma AcceptedPassesChecks(stack: nat, defs: Definitions, n: Schema, j: Json)
    requires n.Node? && Validate(stack, defs, n, j) == Accepted
    ensures ScalarChecks(n.checks, j) && ContainerChecks(n.checks, j)
  {
    hide HereStage, MembersStage, ScalarChecks, ContainerChecks;
  }

  /** Whatever else a node says, an instance it accepts meets every assertion of it. */
  lemma AcceptedMeetsEveryKeyword(stack: nat, defs: Definitions, n: Schema, j: Json)
    requires n.Node? && Distinct(j) && DistinctChecks(n.checks) && Validate(stack, defs, n, j) == Accepted
    ensures Meets(n.checks, j)
  {
    AcceptedPassesChecks(stack, defs, n, j);
    KeywordsMean(n.checks, j);
  }

  /** An accepted object has every required name. */
  lemma RequiredNamesArePresent(stack: nat, defs: Definitions, n: Schema, fields: seq<Field>)
    requires n.Node? && Validate(stack, defs, n, Obj(fields)) == Accepted
    ensures forall name | name in n.checks.required :: exists k :: 0 <= k < |fields| && fields[k].name == name
  {
    AcceptedPassesChecks(stack, defs, n, Obj(fields));
    hide Validate;
    forall name | name in n.checks.required ensures exists k :: 0 <= k < |fields| && fields[k].name == name {
      var f :| f in fields && f.name == name;
    }
  }

  /** A schema with nothing but assertions. */
  function Only(c: Checks): Schema {
    Node(c, [], None, None, None, Absent, Absent, None, None, NotAnObject, true, None)
  }

  /** It accepts exactly the instances that meet them, and rejects the others. */
  lemma AssertionsDecide(stack: nat, defs: Definitions, c: Checks, j: Json)
    requires stack > 0 && Distinct(j) && DistinctChecks(c)
    ensures Validate(stack, defs, Only(c), j) == if Meets(c, j) then Accepted else Rejected
  {
    KeywordsMean(c, j);
    hide Meets, ScalarChecks, ContainerChecks;
    var calls := Calls(Validator(stack - 1, defs), Only(c), j);
    assert calls(AllOf) == [] && calls(If) == [] && calls(Not) == [];
    assert calls(PropertyNames) == [] && calls(Members) == [] && calls(Items) == [];
  }

  // ----- References

  /** A reference is the definition named after `#/$defs/`; every other form is refused. */
  lemma ReferencesNameDefinitions(stack: nat, named: map<string, Schema>, reference: string, name: string, j: Json)
    requires stack > 0
    ensures name in named ==>
      Validate(stack, Some(named), Ref("#/$defs/" + name), j) == Validate(stack - 1, Some(named), named[name], j)
    ensures !("#/$defs/" <= reference) || reference[8..] !in named ==>
      Validate(stack, Some(named), Ref(reference), j) == Rejected
    ensures Validate(stack, None, Ref(reference), j) == Rejected
  {
    assert ("#/$defs/" + name)[8..] == name;
    hide RunNode;
  }
}
