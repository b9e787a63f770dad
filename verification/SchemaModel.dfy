/** JSON instances and the JSON Schema subset that the skill contracts are checked with. */
module SchemaModel {
  import opened Prelude

  datatype Json =
    | Null
    | Bool(b: bool)
    | Int(n: int)
    | Float(r: real)
    | Str(s: string)
    | Arr(items: seq<Json>)
    | Obj(fields: seq<Field>)

  /** One member of a JSON object, in document order. */
  datatype Field = Field(name: string, value: Json)

  function Lookup(fields: seq<Field>, name: string): (r: Option<Json>)
    ensures r.Some? <==> exists f :: f in fields && f.name == name
  {
    if fields == [] then None
    else if fields[0].name == name then Some(fields[0].value)
    else Lookup(fields[1..], name)
  }

  /** The number a Python value compares as: booleans are the integers 0 and 1. */
  function Numeric(j: Json): Option<real> {
    match j
    case Bool(b) => Some(if b then 1.0 else 0.0)
    case Int(n) => Some(n as real)
    case Float(r) => Some(r)
    case _ => None
  }

  /** Python's `==` when `strict` is false; equality of the sorted JSON text when it is true. */
  predicate Same(a: Json, b: Json, strict: bool) {
    if Numeric(a).Some? then if strict then a == b else Numeric(a) == Numeric(b)
    else match a
      case Arr(xs) =>
        b.Arr? && |xs| == |b.items| && forall k | 0 <= k < |xs| :: Same(xs[k], b.items[k], strict)
      case Obj(fs) =>
        && b.Obj?
        && |fs| == |b.fields|
        && forall k | 0 <= k < |fs| ::
             var other := Lookup(b.fields, fs[k].name);
             other.Some? && Same(fs[k].value, other.value, strict)
      case _ => a == b
  }

  /** Nesting of arrays and objects; a scalar has depth 0. */
  function Depth(j: Json): nat {
    match j
    case Arr(xs) => 1 + ItemsDepth(xs)
    case Obj(fs) => 1 + FieldsDepth(fs)
    case _ => 0
  }

  function ItemsDepth(xs: seq<Json>): (d: nat)
    ensures forall x :: x in xs ==> Depth(x) <= d
  {
    if xs == [] then 0 else Max(Depth(xs[0]), ItemsDepth(xs[1..]))
  }

  function FieldsDepth(fs: seq<Field>): (d: nat)
    ensures forall f :: f in fs ==> Depth(f.value) <= d
  {
    if fs == [] then 0 else Max(Depth(fs[0].value), FieldsDepth(fs[1..]))
  }

  function Max(a: nat, b: nat): nat {
    if a < b then b else a
  }

  /** The items of an array and the member values of an object. */
  function MembersOf(j: Json): seq<Json> {
    match j
    case Arr(items) => items
    case Obj(fields) => seq(|fields|, k requires 0 <= k < |fields| => fields[k].value)
    case _ => []
  }

  /** A container is one deeper than its deepest member, an empty one has depth 1. */
  lemma DepthIs(j: Json)
    ensures !j.Arr? && !j.Obj? ==> Depth(j) == 0
    ensures (j.Arr? || j.Obj?) && MembersOf(j) == [] ==> Depth(j) == 1
    ensures forall m | m in MembersOf(j) :: Depth(m) < Depth(j)
    ensures MembersOf(j) != [] ==> exists m | m in MembersOf(j) :: Depth(j) == Depth(m) + 1
  {
    match j
    case Arr(items) =>
      if items != [] { var x := DeepestItem(items); }
    case Obj(fields) =>
      assert forall k | 0 <= k < |fields| :: fields[k] in fields;
      if fields != [] {
        var k := DeepestField(fields);
        assert MembersOf(j)[k] == fields[k].value;
      }
    case _ =>
  }

  lemma {:induction false} DeepestItem(items: seq<Json>) returns (x: Json)
    requires items != []
    ensures x in items && Depth(x) == ItemsDepth(items)
  {
    x := items[0];
    if |items| > 1 {
      var y := DeepestItem(items[1..]);
      if Depth(x) < Depth(y) { x := y; }
    } else {
      assert ItemsDepth(items[1..]) == 0;
    }
  }

  lemma {:induction false} DeepestField(fields: seq<Field>) returns (k: nat)
    requires fields != []
    ensures k < |fields| && Depth(fields[k].value) == FieldsDepth(fields)
  {
    k := 0;
    if |fields| > 1 {
      var i := DeepestField(fields[1..]);
      if Depth(fields[0].value) < Depth(fields[i + 1].value) { k := i + 1; }
    } else {
      assert FieldsDepth(fields[1..]) == 0;
    }
  }

  /** The `type` keyword: a name, or a list of alternatives. */
  datatype TypeSpec = Named(name: string) | OneOfTypes(alternatives: seq<TypeSpec>)

  /** The keywords that assert something without running a subschema. */
  datatype Checks = Checks(
    types: Option<TypeSpec>,
    constant: Option<Json>,
    choices: Option<seq<Json>>,
    minLength: int,
    maxLength: Option<int>,
    maxUtf8Bytes: Option<int>,
    pattern: Option<string -> bool>,
    minimum: Option<int>,
    maximum: Option<int>,
    required: seq<string>,
    minItems: int,
    maxItems: Option<int>,
    uniqueItems: bool
  )

  /**
   A schema object. One that holds a string `$ref` is that reference alone: its siblings are never read.
   A keyword of the wrong JSON type is absent here, as the validator's `isinstance` tests make it.
   */
  datatype Schema =
    | Ref(reference: string)
    | Node(
        checks: Checks,
        allOf: seq<Schema>,
        condition: Option<Schema>,
        consequent: Option<Schema>,
        alternative: Option<Schema>,
        oneOf: SchemaList,
        anyOf: SchemaList,
        forbidden: Option<Schema>,
        propertyNames: Option<Schema>,
        properties: PropertyMap,
        additionalAllowed: bool,
        itemSchema: Option<Schema>
      )

  datatype SchemaList = Absent | Listed(list: seq<Schema>)

  /**
   `NotAnObject` when `properties` holds something else, which also disables `additionalProperties`;
   a missing keyword is the empty map.
   */
  datatype PropertyMap = NotAnObject | Properties(named: map<string, Schema>)

  /** The object under `$defs` of the root schema; None when it holds something else. */
  type Definitions = Option<map<string, Schema>>

  const PREFIX := "#/$defs/"

  /** The definition a reference names, if the reference is supported and resolves. */
  function Resolve(defs: Definitions, reference: string): Option<Schema> {
    if PREFIX <= reference && defs.Some? && reference[|PREFIX|..] in defs.value
    then Some(defs.value[reference[|PREFIX|..]])
    else None
  }

  predicate TypeMatches(expected: TypeSpec, j: Json) {
    match expected
    case OneOfTypes(alternatives) => exists t | t in alternatives :: TypeMatches(t, j)
    case Named(name) =>
      if name == "object" then j.Obj?
      else if name == "array" then j.Arr?
      else if name == "string" then j.Str?
      else if name == "integer" then j.Int?
      else if name == "null" then j.Null?
      else true
  }

  function Utf8Length(s: string): nat {
    if s == [] then 0
    else
      var c := s[0] as int;
      (if c < 0x80 then 1 else if c < 0x800 then 2 else if c < 0x10000 then 3 else 4) + Utf8Length(s[1..])
  }

  predicate WithinLimit(value: int, limit: Option<int>) {
    limit.Some? ==> value <= limit.value
  }

  /** The assertions that precede every object and array keyword. */
  predicate ScalarChecks(c: Checks, j: Json) {
    && (c.types.Some? ==> TypeMatches(c.types.value, j))
    && (c.constant.Some? ==> Same(j, c.constant.value, false))
    && (c.choices.Some? ==> exists choice | choice in c.choices.value :: Same(j, choice, false))
    && (j.Str? ==>
          && c.minLength <= |j.s|
          && WithinLimit(|j.s|, c.maxLength)
          && WithinLimit(Utf8Length(j.s), c.maxUtf8Bytes)
          && (c.pattern.Some? ==> c.pattern.value(j.s)))
    && (j.Int? ==>
          && (c.minimum.Some? ==> c.minimum.value <= j.n)
          && WithinLimit(j.n, c.maximum))
  }

  /** The assertions read from an object or array before its members are visited. */
  predicate ContainerChecks(c: Checks, j: Json) {
    match j
    case Obj(fs) => forall name | name in c.required :: Lookup(fs, name).Some?
    case Arr(xs) =>
      && c.minItems <= |xs|
      && WithinLimit(|xs|, c.maxItems)
      && (c.uniqueItems ==> forall a, b | 0 <= a < b < |xs| :: !Same(xs[a], xs[b], true))
    case _ => true
  }
}
