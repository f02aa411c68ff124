/** Where the code reads a schema differently from the draft, and the schema that it decides instead. */
module SchemaRequired {
  import opened Bytes
  import opened Dom
  import opened Schema
  import opened SchemaRun
  import opened Validator
  import opened Wrappers

  predicate Waived(p: Property) { p.required && p.schema.defaultValueLength != 0 }

  // ---------- The schema that the validator decides ----------

  /**
   The schema without what the code does not check, all through: names waived by a default are not required, and an
   empty tuple allows every element.
   */
  function Relaxed(s: Schema): Schema
    decreases s
  {
    s.(allOf := RelaxedAll(s.allOf),
    anyOf := RelaxedAll(s.anyOf),
    oneOf := RelaxedAll(s.oneOf),
    not_ := if s.not_.Some? then Some(Relaxed(s.not_.value)) else None,
    properties := RelaxedProperties(s.properties),
    additionalProperties := RelaxedExtra(s.additionalProperties),
    items := RelaxedItems(s.items))
  }

  function RelaxedAll(ss: seq<Schema>): (rs: seq<Schema>)
    ensures |rs| == |ss| && forall k :: 0 <= k < |ss| ==> rs[k] == Relaxed(ss[k])
    decreases ss
  {
    if ss == [] then [] else [Relaxed(ss[0])] + RelaxedAll(ss[1..])
  }

  function RelaxedProperty(p: Property): Property
    decreases p
  {
    Property(p.name, Relaxed(p.schema), p.required && !Waived(p))
  }

  function RelaxedProperties(ps: seq<Property>): (rs: seq<Property>)
    ensures |rs| == |ps| && forall k :: 0 <= k < |ps| ==> rs[k] == RelaxedProperty(ps[k])
    decreases ps
  {
    if ps == [] then [] else [RelaxedProperty(ps[0])] + RelaxedProperties(ps[1..])
  }

  function RelaxedExtra(e: Extra): Extra
    decreases e
  {
    match e
    case Restricted(schema) => Restricted(Relaxed(schema))
    case other => other
  }

  function RelaxedItems(items: Items): Items
    decreases items
  {
    match items
    case AnyItems => AnyItems
    case ListItems(schema) => ListItems(Relaxed(schema))
    case TupleItems(schemas, extra) =>
      TupleItems(RelaxedAll(schemas), if schemas == [] then Allowed else RelaxedExtra(extra))
  }

  function RelaxedOption(s: Option<Schema>): Option<Schema> {
    match s
    case None => None
    case Some(schema) => Some(Relaxed(schema))
  }

  lemma RelaxedTypeless(n: nat)
    ensures var t := TYPELESS.(defaultValueLength := n); Relaxed(t) == t
  {
  }

  lemma RelaxedParts(s: Schema, v: Value)
    ensures var t := Relaxed(s);
      && KindAllowed(t, v) == KindAllowed(s, v)
      && t.minItems == s.minItems && t.maxItems == s.maxItems
      && t.minProperties == s.minProperties && t.maxProperties == s.maxProperties
      && t.allOf == RelaxedAll(s.allOf) && t.anyOf == RelaxedAll(s.anyOf) && t.oneOf == RelaxedAll(s.oneOf)
      && t.not_ == RelaxedOption(s.not_)
  {
    hide KindAllowed, RelaxedAll, RelaxedProperties, RelaxedExtra, RelaxedItems;
    SameKinds(s, Relaxed(s), v);
  }

  lemma SameKinds(s: Schema, t: Schema, v: Value)
    requires s.kinds == t.kinds
    ensures KindAllowed(s, v) == KindAllowed(t, v)
  {
  }

  lemma RelaxedDemands(s: Schema, ms: seq<Member>)
    ensures (forall p :: 0 <= p < |s.properties| && Demanded(s.properties[p], Code) ==> Present(s, ms, p))
       <==> (forall p :: 0 <= p < |Relaxed(s).properties| && Demanded(Relaxed(s).properties[p], Draft) ==>
                           Present(Relaxed(s), ms, p))
  {
    hide Relaxed, Present;
    var t := Relaxed(s);
    RelaxedNames(s, ms);
    forall p | 0 <= p < |s.properties|
      ensures Demanded(s.properties[p], Code) == Demanded(t.properties[p], Draft)
      ensures Present(s, ms, p) == Present(t, ms, p)
    {
    }
  }

  lemma RelaxedNames(s: Schema, ms: seq<Member>)
    ensures Relaxed(s).properties == RelaxedProperties(s.properties)
    ensures forall p :: Present(Relaxed(s), ms, p) == Present(s, ms, p)
  {
    hide Describes;
    forall p, name ensures Describes(Relaxed(s).properties, p, name) == Describes(s.properties, p, name) {
      RelaxedDescribes(s.properties, p, name);
    }
  }

  lemma RelaxedDescribes(ps: seq<Property>, p: nat, name: bytes)
    ensures Describes(RelaxedProperties(ps), p, name) == Describes(ps, p, name)
    ensures (forall q :: 0 <= q < |ps| ==> RelaxedProperties(ps)[q].name != name)
       <==> (forall q :: 0 <= q < |ps| ==> ps[q].name != name)
  {
    hide RelaxedProperties;
    forall q | 0 <= q < |ps| ensures RelaxedProperties(ps)[q].name == ps[q].name { }
  }

  /** What the code reads in a schema is what the draft reads in the relaxed one, for every schema and every tree. */
  lemma {:induction false} CodeIsRelaxedDraft(s: Schema, v: Value)
    ensures Satisfies(s, v, Code) == Satisfies(Relaxed(s), v, Draft)
    decreases v, s, 1
  {
    hide Relaxed, Combined, ElementsSatisfy, MembersSatisfy, KindAllowed, Present, Demanded;
    RelaxedParts(s, v);
    CombinedRelaxed(s, v);
    match v {
      case ArrayValue(vs) =>
        ElementsRelaxed(s, vs);
      case ObjectValue(ms) =>
        MembersRelaxed(s, ms);
        RelaxedDemands(s, ms);
      case _ =>
    }
  }

  lemma {:induction false} CombinedRelaxed(s: Schema, v: Value)
    ensures Combined(s, v, Code) == Combined(Relaxed(s), v, Draft)
    decreases v, s, 0
  {
    hide Relaxed, AllSatisfied, AnySatisfied, OneSatisfied, Satisfies;
    RelaxedParts(s, v);
    ListRelaxed(s.allOf, v);
    ListRelaxed(s.anyOf, v);
    ListRelaxed(s.oneOf, v);
    if s.not_.Some? { CodeIsRelaxedDraft(s.not_.value, v); }
  }

  lemma {:induction false} ElementsRelaxed(s: Schema, vs: seq<Value>)
    ensures ElementsSatisfy(s, 0, vs, Code) == ElementsSatisfy(Relaxed(s), 0, vs, Draft)
    decreases vs
  {
    hide Relaxed, ElementSatisfies;
    forall k | 0 <= k < |vs|
      ensures ElementSatisfies(s, 0 + k, vs[k], Code) == ElementSatisfies(Relaxed(s), 0 + k, vs[k], Draft)
    {
      ElementRelaxed(s, k, vs[k]);
    }
  }

  lemma {:induction false} ElementRelaxed(s: Schema, index: nat, v: Value)
    ensures ElementSatisfies(s, index, v, Code) == ElementSatisfies(Relaxed(s), index, v, Draft)
    decreases v
  {
    hide Relaxed, RelaxedAll, RelaxedExtra, Satisfies, ExtraSatisfies;
    RelaxedContents(s);
    match s.items {
      case AnyItems =>
      case ListItems(schema) => CodeIsRelaxedDraft(schema, v);
      case TupleItems(schemas, extra) =>
        if index < |schemas| {
          CodeIsRelaxedDraft(schemas[index], v);
        } else if schemas == [] {
          NoneExtra(v);
        } else {
          ExtraRelaxed(extra, v);
        }
    }
  }

  lemma RelaxedContents(s: Schema)
    ensures Relaxed(s).items == RelaxedItems(s.items)
    ensures Relaxed(s).properties == RelaxedProperties(s.properties)
    ensures Relaxed(s).additionalProperties == RelaxedExtra(s.additionalProperties)
  {
    hide RelaxedItems, RelaxedProperties, RelaxedExtra;
  }

  lemma NoneExtra(v: Value)
    ensures ExtraSatisfies(Allowed, v, Draft) == Countable(v)
  {
  }

  lemma {:induction false} ExtraRelaxed(extra: Extra, v: Value)
    ensures ExtraSatisfies(extra, v, Code) == ExtraSatisfies(RelaxedExtra(extra), v, Draft)
    decreases v, extra, 2
  {
    hide Relaxed, Satisfies;
    match extra {
      case Restricted(schema) => CodeIsRelaxedDraft(schema, v);
      case _ =>
    }
  }

  lemma {:induction false} MembersRelaxed(s: Schema, ms: seq<Member>)
    ensures MembersSatisfy(s, ms, Code) == MembersSatisfy(Relaxed(s), ms, Draft)
    decreases ms
  {
    hide Relaxed, MemberSatisfies;
    forall k | 0 <= k < |ms| ensures MemberSatisfies(s, ms[k], Code) == MemberSatisfies(Relaxed(s), ms[k], Draft) {
      MemberRelaxed(s, ms[k]);
    }
  }

  lemma {:induction false} MemberRelaxed(s: Schema, m: Member)
    ensures MemberSatisfies(s, m, Code) == MemberSatisfies(Relaxed(s), m, Draft)
    decreases m
  {
    hide Relaxed, RelaxedProperties, RelaxedExtra, Satisfies, ExtraSatisfies, Describes;
    RelaxedContents(s);
    ExtraRelaxed(s.additionalProperties, m.value);
    RelaxedDescribes(s.properties, 0, m.name);
    forall p | 0 <= p < |s.properties|
      ensures Describes(s.properties, p, m.name) == Describes(Relaxed(s).properties, p, m.name)
      ensures Satisfies(s.properties[p].schema, m.value, Code)
           == Satisfies(Relaxed(s).properties[p].schema, m.value, Draft)
    {
      RelaxedDescribes(s.properties, p, m.name);
      CodeIsRelaxedDraft(s.properties[p].schema, m.value);
      RelaxedSchema(s.properties, p);
    }
  }

  lemma RelaxedSchema(ps: seq<Property>, p: nat)
    requires p < |ps|
    ensures RelaxedProperties(ps)[p].schema == Relaxed(ps[p].schema)
  {
  }

  lemma {:induction false} ListRelaxed(ss: seq<Schema>, v: Value)
    ensures AllSatisfied(ss, v, Code) == AllSatisfied(RelaxedAll(ss), v, Draft)
    ensures AnySatisfied(ss, v, Code) == AnySatisfied(RelaxedAll(ss), v, Draft)
    ensures OneSatisfied(ss, v, Code) == OneSatisfied(RelaxedAll(ss), v, Draft)
    decreases v, ss
  {
    hide Relaxed, RelaxedAll, Satisfies, AllSatisfied, AnySatisfied, OneSatisfied;
    forall k | 0 <= k < |ss| ensures Satisfies(ss[k], v, Code) == Satisfies(RelaxedAll(ss)[k], v, Draft) {
      CodeIsRelaxedDraft(ss[k], v);
    }
    VerdictsCarry(ss, RelaxedAll(ss), v, Code, Draft);
    VerdictsCarry(RelaxedAll(ss), ss, v, Draft, Code);
  }

  lemma VerdictsCarry(ss: seq<Schema>, rs: seq<Schema>, v: Value, q: Reading, r: Reading)
    requires |ss| == |rs| && forall k :: 0 <= k < |ss| ==> Satisfies(ss[k], v, q) == Satisfies(rs[k], v, r)
    ensures AllSatisfied(ss, v, q) ==> AllSatisfied(rs, v, r)
    ensures AnySatisfied(ss, v, q) ==> AnySatisfied(rs, v, r)
    ensures OneSatisfied(ss, v, q) ==> OneSatisfied(rs, v, r)
  {
    hide Satisfies;
    if OneSatisfied(ss, v, q) {
      var k :| 0 <= k < |ss| && Satisfies(ss[k], v, q)
               && forall j :: 0 <= j < |ss| && j != k ==> !Satisfies(ss[j], v, q);
      forall j | 0 <= j < |rs| && j != k ensures !Satisfies(rs[j], v, r) { assert !Satisfies(ss[j], v, q); }
      assert Satisfies(rs[k], v, r);
    }
  }

  /** The validator decides, of every schema and on every tree, what the draft demands of the relaxed schema. */
  lemma ValidatorDecidesRelaxed(s: Schema, v: Value, o: Origin)
    ensures Run(Validator(s, [], true), Events(v, o)).valid == Satisfies(Relaxed(s), v, Draft)
  {
    hide Run, Events, Satisfies, Relaxed;
    ValidatorDecides(s, v, o);
    CodeIsRelaxedDraft(s, v);
  }

  /** Where nothing is relaxed, the validator decides every tree as the draft does. */
  lemma ReadingsAgree(s: Schema, v: Value, o: Origin)
    requires Relaxed(s) == s
    ensures Run(Validator(s, [], true), Events(v, o)).valid == Satisfies(s, v, Draft)
  {
    ValidatorDecidesRelaxed(s, v, o);
  }

  // ---------- Schemas that only require names ----------

  /** A schema that says nothing but which names are required, each with some default. */
  predicate Plain(s: Schema) {
    && s == TYPELESS.(properties := s.properties)
    && (forall p :: 0 <= p < |s.properties| ==>
                      var t := s.properties[p].schema; t == TYPELESS.(defaultValueLength := t.defaultValueLength))
    && (forall p, q :: 0 <= p < q < |s.properties| ==> s.properties[p].name != s.properties[q].name)
    && |s.properties| <= NO_MAXIMUM
  }

  /** An object with every property of the schema but one. */
  function Without(s: Schema, p: nat): (ms: seq<Member>)
    requires p < |s.properties|
    ensures |ms| == |s.properties| - 1
    ensures forall k :: 0 <= k < |ms| ==> ms[k] == Member(s.properties[if k < p then k else k + 1].name, NullValue)
  {
    seq(|s.properties| - 1, k requires 0 <= k < |s.properties| - 1 =>
      Member(s.properties[if k < p then k else k + 1].name, NullValue))
  }

  lemma IndexOfName(s: Schema, p: nat, q: nat)
    requires Plain(s) && q < |s.properties|
    ensures Describes(s.properties, p, s.properties[q].name) == (p == q)
  {
  }

  lemma NullSatisfies(n: nat, r: Reading)
    ensures Satisfies(TYPELESS.(defaultValueLength := n), NullValue, r)
  {
  }

  lemma PlainParts(s: Schema, ms: seq<Member>)
    requires Plain(s) && |ms| <= NO_MAXIMUM
    ensures KindAllowed(s, ObjectValue(ms)) && Combined(s, ObjectValue(ms), Code)
    ensures s.minProperties <= |ms| <= s.maxProperties
  {
  }

  /** Leaving out one property leaves all the others present, and every member satisfies its schema. */
  lemma WithoutOne(s: Schema, p: nat)
    requires Plain(s) && p < |s.properties|
    ensures MembersSatisfy(s, Without(s, p), Code)
    ensures !Present(s, Without(s, p), p)
    ensures forall q :: 0 <= q < |s.properties| && q != p ==> Present(s, Without(s, p), q)
  {
    hide Satisfies, Plain, Describes, ExtraSatisfies;
    var ms := Without(s, p);
    forall k | 0 <= k < |ms|
      ensures MemberSatisfies(s, ms[k], Code)
      ensures forall j: nat :: Describes(s.properties, j, ms[k].name) == (j == if k < p then k else k + 1)
    {
      var q := if k < p then k else k + 1;
      forall j: nat ensures Describes(s.properties, j, ms[k].name) == (j == q) { IndexOfName(s, j, q); }
      PlainNull(s, q);
    }
    forall q | 0 <= q < |s.properties| && q != p ensures Present(s, ms, q) {
      var k := if q < p then q else q - 1;
      assert Describes(s.properties, q, ms[k].name);
    }
  }

  lemma PlainNull(s: Schema, q: nat)
    requires Plain(s) && q < |s.properties|
    ensures Satisfies(s.properties[q].schema, NullValue, Code)
  {
    hide Satisfies;
    NullSatisfies(s.properties[q].schema.defaultValueLength, Code);
  }

  lemma DraftRejects(s: Schema, ms: seq<Member>, p: nat)
    requires p < |s.properties| && s.properties[p].required && !Present(s, ms, p)
    ensures !Satisfies(s, ObjectValue(ms), Draft)
  {
    hide Present;
  }

  /** The validator accepts an object that lacks a required name because the schema for that name has a default. */
  lemma WaiverAccepted(s: Schema, p: nat, o: Origin)
    requires Plain(s) && p < |s.properties| && Waived(s.properties[p])
    ensures Run(Validator(s, [], true), Events(ObjectValue(Without(s, p)), o)).valid
    ensures !Satisfies(s, ObjectValue(Without(s, p)), Draft)
  {
    hide Run, Events, Satisfies, MembersSatisfy, Present, Combined, KindAllowed;
    var ms := Without(s, p);
    PlainParts(s, ms);
    WithoutOne(s, p);
    ObjectMeaning(s, ms);
    ValidatorDecides(s, ObjectValue(ms), o);
    DraftRejects(s, ms, p);
  }

  /** Exactly when the validator decides a plain schema as the draft does, on every tree. */
  lemma RequiredExactly(s: Schema, o: Origin)
    requires Plain(s)
    ensures (forall v :: Run(Validator(s, [], true), Events(v, o)).valid == Satisfies(s, v, Draft))
        <==> (forall p :: 0 <= p < |s.properties| ==> !Waived(s.properties[p]))
  {
    hide Run, Events, Satisfies;
    if forall p :: 0 <= p < |s.properties| ==> !Waived(s.properties[p]) {
      PlainRelaxed(s);
      forall v ensures Run(Validator(s, [], true), Events(v, o)).valid == Satisfies(s, v, Draft) {
        ReadingsAgree(s, v, o);
      }
    } else {
      var p :| 0 <= p < |s.properties| && Waived(s.properties[p]);
      WaiverAccepted(s, p, o);
    }
  }

  lemma PlainRelaxed(s: Schema)
    requires Plain(s) && forall p :: 0 <= p < |s.properties| ==> !Waived(s.properties[p])
    ensures Relaxed(s) == s
  {
    forall p | 0 <= p < |s.properties| ensures RelaxedProperties(s.properties)[p] == s.properties[p] {
      RelaxedTypeless(s.properties[p].schema.defaultValueLength);
    }
    assert RelaxedProperties(s.properties) == s.properties;
  }

  // ---------- Schemas that only have a tuple of items ----------

  /** A schema that says nothing but which items an array has. */
  function TupleOnly(schemas: seq<Schema>, extra: Extra): Schema { TYPELESS.(items := TupleItems(schemas, extra)) }

  /** A schema for further elements that does not treat every value as if there were none. */
  ghost predicate Restricts(extra: Extra) {
    match extra
    case Allowed => false
    case Forbidden => true
    case Restricted(schema) => exists v :: Satisfies(schema, v, Draft) != Countable(v)
  }

  /** Nothing inside has a waived name or an empty tuple of its own. */
  predicate InnerRelaxed(schemas: seq<Schema>, extra: Extra) {
    RelaxedAll(schemas) == schemas && RelaxedExtra(extra) == extra
  }

  lemma TupleParts(schemas: seq<Schema>, extra: Extra, v: Value, r: Reading)
    ensures var s := TupleOnly(schemas, extra);
      && Combined(s, v, r) && KindAllowed(s, v)
      && (v.ArrayValue? ==>
            Satisfies(s, v, r) == (|v.elements| <= NO_MAXIMUM && ElementsSatisfy(s, 0, v.elements, r)))
  {
    hide ElementsSatisfy;
  }

  lemma TupleOne(extra: Extra, w: Value, r: Reading)
    ensures Satisfies(TupleOnly([], extra), ArrayValue([w]), r) == ElementSatisfies(TupleOnly([], extra), 0, w, r)
  {
    hide Satisfies, ElementSatisfies, Combined, KindAllowed;
    TupleParts([], extra, ArrayValue([w]), r);
    var s, vs := TupleOnly([], extra), [w];
    assert ElementSatisfies(s, 0 + 0, vs[0], r) == ElementSatisfies(s, 0, w, r);
  }

  lemma EmptyTupleElement(extra: Extra, w: Value)
    ensures ElementSatisfies(TupleOnly([], extra), 0, w, Code) == Countable(w)
    ensures ElementSatisfies(TupleOnly([], extra), 0, w, Draft)
         == match extra
            case Allowed => Countable(w)
            case Forbidden => false
            case Restricted(schema) => Satisfies(schema, w, Draft)
  {
    hide Satisfies;
  }

  /** An element on which the two readings of an empty tuple differ. */
  lemma EmptyTupleDiffers(extra: Extra) returns (w: Value)
    requires Restricts(extra)
    ensures Satisfies(TupleOnly([], extra), ArrayValue([w]), Code)
         != Satisfies(TupleOnly([], extra), ArrayValue([w]), Draft)
  {
    hide Satisfies, ElementSatisfies;
    match extra {
      case Restricted(schema) => w :| Satisfies(schema, w, Draft) != Countable(w);
      case _ => w := NullValue;
    }
    EmptyTupleElement(extra, w);
    TupleOne(extra, w, Code);
    TupleOne(extra, w, Draft);
  }

  lemma EmptyTupleSame(extra: Extra, v: Value)
    requires !Restricts(extra)
    ensures Satisfies(TupleOnly([], extra), v, Code) == Satisfies(TupleOnly([], extra), v, Draft)
  {
    var s := TupleOnly([], extra);
    if v.ArrayValue? {
      hide Satisfies, ElementSatisfies;
      forall k | 0 <= k < |v.elements|
        ensures ElementSatisfies(s, 0 + k, v.elements[k], Code) == ElementSatisfies(s, 0 + k, v.elements[k], Draft)
      {
        EmptyTupleAt(extra, k, v.elements[k]);
      }
      TupleParts([], extra, v, Code);
      TupleParts([], extra, v, Draft);
    } else {
      TupleOther([], extra, v);
    }
  }

  lemma EmptyTupleAt(extra: Extra, k: nat, w: Value)
    requires !Restricts(extra)
    ensures ElementSatisfies(TupleOnly([], extra), k, w, Code) == ElementSatisfies(TupleOnly([], extra), k, w, Draft)
  {
    hide Satisfies;
  }

  /** On a value that is no array, items say nothing. */
  lemma TupleOther(schemas: seq<Schema>, extra: Extra, v: Value)
    requires !v.ArrayValue?
    ensures Satisfies(TupleOnly(schemas, extra), v, Code) == Satisfies(TupleOnly(schemas, extra), v, Draft)
  {
    hide Combined, KindAllowed;
    TupleParts(schemas, extra, v, Code);
    TupleParts(schemas, extra, v, Draft);
    if v.ObjectValue? {
      var s := TupleOnly(schemas, extra);
      forall k | 0 <= k < |v.members|
        ensures MemberSatisfies(s, v.members[k], Code) == MemberSatisfies(s, v.members[k], Draft)
      {
      }
    }
  }

  lemma TupleRelaxed(schemas: seq<Schema>, extra: Extra)
    requires schemas != [] && InnerRelaxed(schemas, extra)
    ensures Relaxed(TupleOnly(schemas, extra)) == TupleOnly(schemas, extra)
  {
  }

  /**
   Exactly when the validator decides a tuple of items as the draft does, on every tree: the tuple is not empty, or the
   schema for further elements does not restrict them.
   */
  lemma TupleExactly(schemas: seq<Schema>, extra: Extra, o: Origin)
    requires InnerRelaxed(schemas, extra)
    ensures (forall v :: Run(Validator(TupleOnly(schemas, extra), [], true), Events(v, o)).valid
                      == Satisfies(TupleOnly(schemas, extra), v, Draft))
       <==> schemas != [] || !Restricts(extra)
  {
    hide Run, Events, Satisfies, TupleOnly, Restricts, InnerRelaxed;
    var s := TupleOnly(schemas, extra);
    if schemas != [] {
      TupleRelaxed(schemas, extra);
      forall v ensures Run(Validator(s, [], true), Events(v, o)).valid == Satisfies(s, v, Draft) {
        ReadingsAgree(s, v, o);
      }
    } else if Restricts(extra) {
      var w := EmptyTupleDiffers(extra);
      ValidatorDecides(s, ArrayValue([w]), o);
    } else {
      forall v ensures Run(Validator(s, [], true), Events(v, o)).valid == Satisfies(s, v, Draft) {
        ValidatorDecides(s, v, o);
        EmptyTupleSame(extra, v);
      }
    }
  }

  /** `items: []` with `additionalItems: false`: the draft rejects every element, and the validator accepts them. */
  lemma EmptyTupleAllows(o: Origin)
    ensures var s, v := TupleOnly([], Forbidden), ArrayValue([NullValue]);
      Run(Validator(s, [], true), Events(v, o)).valid && !Satisfies(s, v, Draft)
  {
    hide Run, Events, Satisfies, ElementSatisfies;
    EmptyTupleElement(Forbidden, NullValue);
    TupleOne(Forbidden, NullValue, Code);
    TupleOne(Forbidden, NullValue, Draft);
    ValidatorDecides(TupleOnly([], Forbidden), ArrayValue([NullValue]), o);
  }
}
