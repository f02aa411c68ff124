/** Compiled schemas, as internal::Schema holds them, and when a tree satisfies one. */
module Schema {
  import opened Bytes
  import opened Dom
  import opened Wrappers

  datatype Kind = NullKind | BooleanKind | ObjectKind | ArrayKind | StringKind | NumberKind | IntegerKind

  /** additionalProperties or additionalItems: a boolean, or a schema that takes precedence over it. */
  datatype Extra = Allowed | Forbidden | Restricted(schema: Schema)

  datatype Items = AnyItems | ListItems(schema: Schema) | TupleItems(schemas: seq<Schema>, extra: Extra)

  /** An entry of properties_; a name that only `required` mentions has the typeless schema. */
  datatype Property = Property(name: bytes, schema: Schema, required: bool)

  datatype Schema = Schema(
    kinds: set<Kind>,
    allOf: seq<Schema>,
    anyOf: seq<Schema>,
    oneOf: seq<Schema>,
    not_: Option<Schema>,
    properties: seq<Property>,
    additionalProperties: Extra,
    minProperties: nat,
    maxProperties: nat,
    items: Items,
    minItems: nat,
    maxItems: nat,
    defaultValueLength: nat)

  /** SizeType(~0), the maximum that stands for no maximum. */
  const NO_MAXIMUM: nat := 0xFFFF_FFFF

  /** typeless_: every value satisfies it, counts of 2^32 and more apart. */
  const TYPELESS: Schema := Schema(
    {NullKind, BooleanKind, ObjectKind, ArrayKind, StringKind, NumberKind, IntegerKind},
    [], [], [], None, [], Allowed, 0, NO_MAXIMUM, AnyItems, 0, NO_MAXIMUM, 0)

  /**
   A schema as the validation draft reads it, or as the code does: EndObject does not ask for a required name whose
   schema has a string default, and BeginValue takes an empty tuple of items for none.
   */
  datatype Reading = Draft | Code

  predicate KindAllowed(s: Schema, v: Value) {
    match v
    case NullValue => NullKind in s.kinds
    case BoolValue(_) => BooleanKind in s.kinds
    case NumberValue(_) => IntegerKind in s.kinds || NumberKind in s.kinds
    case DoubleValue(_) => NumberKind in s.kinds
    case StringValue(_) => StringKind in s.kinds
    case ArrayValue(_) => ArrayKind in s.kinds
    case ObjectValue(_) => ObjectKind in s.kinds
  }

  /** Nothing inside has 2^32 elements or members; a value that no schema restricts must still meet this. */
  predicate Countable(v: Value)
    decreases v
  {
    match v
    case ArrayValue(vs) => |vs| <= 0xFFFF_FFFF && forall k :: 0 <= k < |vs| ==> Countable(vs[k])
    case ObjectValue(ms) => |ms| <= 0xFFFF_FFFF && forall k :: 0 <= k < |ms| ==> Countable(ms[k].value)
    case _ => true
  }

  predicate Demanded(p: Property, r: Reading) { p.required && (r == Draft || p.schema.defaultValueLength == 0) }

  /** The schema of a name is that of its first entry. */
  predicate Describes(ps: seq<Property>, p: nat, name: bytes) {
    p < |ps| && ps[p].name == name && forall q :: 0 <= q < p ==> ps[q].name != name
  }

  predicate Present(s: Schema, ms: seq<Member>, p: nat) {
    exists k :: 0 <= k < |ms| && Describes(s.properties, p, ms[k].name)
  }

  /**
   The value satisfies the schema: its kind, its content by sections 5.3 and 5.4 of the validation draft, and the
   combinators of section 5.5.
   */
  predicate Satisfies(s: Schema, v: Value, r: Reading)
    decreases v, s
  {
    && KindAllowed(s, v)
    && (v.ArrayValue? ==> s.minItems <= |v.elements| <= s.maxItems && ElementsSatisfy(s, 0, v.elements, r))
    && (v.ObjectValue? ==>
          && s.minProperties <= |v.members| <= s.maxProperties
          && (forall p :: 0 <= p < |s.properties| && Demanded(s.properties[p], r) ==> Present(s, v.members, p))
          && MembersSatisfy(s, v.members, r))
    && Combined(s, v, r)
  }

  /** The elements from an index on. */
  predicate ElementsSatisfy(s: Schema, index: nat, vs: seq<Value>, r: Reading)
    decreases vs
  {
    forall k :: 0 <= k < |vs| ==> ElementSatisfies(s, index + k, vs[k], r)
  }

  /**
   One schema for all elements, or the k-th of a tuple for element k and what is said of further ones for the others.
   An empty tuple is no tuple in the code, because allocating its zero schemas gives a null pointer.
   */
  predicate ElementSatisfies(s: Schema, index: nat, v: Value, r: Reading)
    decreases v
  {
    match s.items
    case AnyItems => Countable(v)
    case ListItems(schema) => Satisfies(schema, v, r)
    case TupleItems(schemas, extra) =>
      if index < |schemas| then Satisfies(schemas[index], v, r)
      else if schemas == [] && r == Code then Countable(v)
      else ExtraSatisfies(extra, v, r)
  }

  /** A further element, or a member of another name. */
  predicate ExtraSatisfies(extra: Extra, v: Value, r: Reading)
    decreases v, extra
  {
    match extra
    case Allowed => Countable(v)
    case Forbidden => false
    case Restricted(schema) => Satisfies(schema, v, r)
  }

  predicate MembersSatisfy(s: Schema, ms: seq<Member>, r: Reading)
    decreases ms
  {
    forall k :: 0 <= k < |ms| ==> MemberSatisfies(s, ms[k], r)
  }

  /** The schema of the name, or what is said of names without one. */
  predicate MemberSatisfies(s: Schema, m: Member, r: Reading)
    decreases m
  {
    && (forall p :: 0 <= p < |s.properties| && Describes(s.properties, p, m.name) ==>
                      Satisfies(s.properties[p].schema, m.value, r))
    && ((forall p :: 0 <= p < |s.properties| ==> s.properties[p].name != m.name) ==>
          ExtraSatisfies(s.additionalProperties, m.value, r))
  }

  predicate Combined(s: Schema, v: Value, r: Reading)
    decreases v, s, 0
  {
    && AllSatisfied(s.allOf, v, r)
    && (s.anyOf == [] || AnySatisfied(s.anyOf, v, r))
    && (s.oneOf == [] || OneSatisfied(s.oneOf, v, r))
    && (s.not_.Some? ==> !Satisfies(s.not_.value, v, r))
  }

  predicate AllSatisfied(ss: seq<Schema>, v: Value, r: Reading)
    decreases v, ss
  {
    forall k :: 0 <= k < |ss| ==> Satisfies(ss[k], v, r)
  }

  predicate AnySatisfied(ss: seq<Schema>, v: Value, r: Reading)
    decreases v, ss
  {
    exists k :: 0 <= k < |ss| && Satisfies(ss[k], v, r)
  }

  predicate OneSatisfied(ss: seq<Schema>, v: Value, r: Reading)
    decreases v, ss
  {
    exists k :: 0 <= k < |ss| && Satisfies(ss[k], v, r)
                && forall j :: 0 <= j < |ss| && j != k ==> !Satisfies(ss[j], v, r)
  }
}
