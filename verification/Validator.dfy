/**
 GenericSchemaValidator: a stack of contexts fed with one event at a time, with a validator inside for every
 combinator.
 */
module Validator {
  import opened Bytes
  import opened Sax
  import opened Schema
  import opened Wrappers

  /** SchemaValidationContext; `validators` holds those of allOf, anyOf, oneOf and not, in that order. */
  datatype Context = Context(
    schema: Schema,
    valueSchema: Option<Schema>,
    validators: seq<Validator>,
    arrayElementIndex: nat,
    inArray: bool,
    propertyExist: seq<bool>)

  datatype Validator = Validator(root: Schema, stack: seq<Context>, valid: bool)

  predicate Opens(e: Event) { !e.Key? && !e.EndObject? && !e.EndArray? }

  predicate TypeAllowed(s: Schema, e: Event) {
    match e
    case Null => NullKind in s.kinds
    case Bool(_) => BooleanKind in s.kinds
    case Int(_) => IntegerKind in s.kinds || NumberKind in s.kinds
    case Uint(_) => IntegerKind in s.kinds || NumberKind in s.kinds
    case Int64(_) => IntegerKind in s.kinds || NumberKind in s.kinds
    case Uint64(_) => IntegerKind in s.kinds || NumberKind in s.kinds
    case Double(_) => NumberKind in s.kinds
    case String(_) => StringKind in s.kinds
    case StartObject => ObjectKind in s.kinds
    case StartArray => ArrayKind in s.kinds
    case Key(_) => false
    case EndObject(_) => false
    case EndArray(_) => false
  }

  /** FindPropertyIndex, or the number of properties when the name is not among them. */
  function PropertyIndex(ps: seq<Property>, name: bytes): (k: nat)
    ensures k <= |ps|
    ensures forall j :: 0 <= j < k ==> ps[j].name != name
    ensures k < |ps| ==> ps[k].name == name
  {
    if ps == [] || ps[0].name == name then 0 else 1 + PropertyIndex(ps[1..], name)
  }

  /** The schema for the value of a member; None when the name is disallowed. */
  function MemberSchema(s: Schema, name: bytes): Option<Schema> {
    var k := PropertyIndex(s.properties, name);
    if k < |s.properties| then Some(s.properties[k].schema)
    else match s.additionalProperties
      case Restricted(schema) => Some(schema)
      case Allowed => Some(TYPELESS)
      case Forbidden => None
  }

  /** The schema for the element at an index; None when there may be none. */
  function ItemSchema(s: Schema, index: nat): Option<Schema> {
    match s.items
    case AnyItems => Some(TYPELESS)
    case ListItems(schema) => Some(schema)
    case TupleItems(schemas, extra) =>
      if index < |schemas| then Some(schemas[index])
      else if schemas == [] then Some(TYPELESS)
      else match extra
        case Restricted(schema) => Some(schema)
        case Allowed => Some(TYPELESS)
        case Forbidden => None
  }

  predicate HasRequired(s: Schema) { exists p :: 0 <= p < |s.properties| && s.properties[p].required }

  predicate ValidAt(vs: seq<Validator>, from: nat, k: nat) { from + k < |vs| && vs[from + k].valid }

  predicate AllValid(vs: seq<Validator>, from: nat, n: nat) { forall k :: 0 <= k < n ==> ValidAt(vs, from, k) }

  predicate AnyValid(vs: seq<Validator>, from: nat, n: nat) { exists k :: 0 <= k < n && ValidAt(vs, from, k) }

  predicate OneValid(vs: seq<Validator>, from: nat, n: nat) {
    exists k :: 0 <= k < n && ValidAt(vs, from, k) && forall j :: 0 <= j < n && j != k ==> !ValidAt(vs, from, j)
  }

  /** Schema::EndValue: the verdicts of the validators of the combinators, each at its offset. */
  predicate EndValueOk(c: Context) {
    var s, any, one := c.schema, |c.schema.allOf|, |c.schema.allOf| + |c.schema.anyOf|;
    && AllValid(c.validators, 0, |s.allOf|)
    && (s.anyOf == [] || AnyValid(c.validators, any, |s.anyOf|))
    && (s.oneOf == [] || OneValid(c.validators, one, |s.oneOf|))
    && (s.not_.Some? ==> !ValidAt(c.validators, one, |s.oneOf|))
  }

  /** The context pushed for a value whose first event is `e`, with its validators made and fed. */
  function Opened(s: Schema, e: Event): Context
    decreases s, 1
  {
    Context(
      s, None,
      StartAll(s.allOf, e) + StartAll(s.anyOf, e) + StartAll(s.oneOf, e)
        + (if s.not_.Some? then [Start(s.not_.value, e)] else []),
      0, e.StartArray?,
      if e.StartObject? && HasRequired(s) then seq(|s.properties|, _ => false) else [])
  }

  /** Pushes a context for a value and, when its event is the whole value, ends it. */
  function Enter(root: Schema, below: seq<Context>, s: Schema, e: Event): Validator
    decreases s, 2
  {
    if !TypeAllowed(s, e) then Validator(root, below, false)
    else
      var c := Opened(s, e);
      if e.StartObject? || e.StartArray? then Validator(root, below + [c], true)
      else Validator(root, below, EndValueOk(c))
  }

  /** A new validator after its first event. */
  function Start(s: Schema, e: Event): Validator
    decreases s, 3
  {
    Enter(s, [], s, e)
  }

  function StartAll(ss: seq<Schema>, e: Event): (vs: seq<Validator>)
    ensures |vs| == |ss|
    ensures forall k :: 0 <= k < |ss| ==> vs[k] == Start(ss[k], e)
    decreases ss
  {
    if ss == [] then [] else [Start(ss[0], e)] + StartAll(ss[1..], e)
  }

  /** Schema::BeginValue: the schema for the next value, or None. */
  function NextSchema(c: Context): Option<Schema> {
    if c.inArray then ItemSchema(c.schema, c.arrayElementIndex) else c.valueSchema
  }

  function Begun(c: Context, next: Schema): Context {
    if c.inArray then c.(valueSchema := Some(next), arrayElementIndex := c.arrayElementIndex + 1) else c
  }

  function Keyed(c: Context, name: bytes, next: Schema): Context {
    var p := PropertyIndex(c.schema.properties, name);
    c.(valueSchema := Some(next),
    propertyExist := if p < |c.propertyExist| then c.propertyExist[p := true] else c.propertyExist)
  }

  predicate MustExist(p: Property) { p.required && p.schema.defaultValueLength == 0 }

  predicate EndObjectOk(c: Context, count: nat) {
    && (HasRequired(c.schema) ==>
          forall p :: 0 <= p < |c.schema.properties| && MustExist(c.schema.properties[p]) ==>
                        p < |c.propertyExist| && c.propertyExist[p])
    && c.schema.minProperties <= count <= c.schema.maxProperties
  }

  predicate EndArrayOk(c: Context, count: nat) { c.schema.minItems <= count <= c.schema.maxItems }

  /** One event: every validator inside the contexts takes it too, so that all of them follow the value in parallel. */
  function Feed(v: Validator, e: Event): Validator
    decreases v
  {
    if !v.valid then v
    else if v.stack == [] then
      if Opens(e) then Start(v.root, e) else v.(valid := false)
    else Advance(v.root, FeedContexts(v.stack, e), e)
  }

  /** What the event does to the innermost context. */
  function Advance(root: Schema, stack: seq<Context>, e: Event): Validator
    requires stack != []
  {
    var below, top := stack[..|stack| - 1], stack[|stack| - 1];
    match e
    case Key(name) =>
      (match MemberSchema(top.schema, name)
       case None => Validator(root, stack, false)
       case Some(next) => Validator(root, below + [Keyed(top, name, next)], true))
    case EndObject(count) => Validator(root, below, EndObjectOk(top, count) && EndValueOk(top))
    case EndArray(count) => Validator(root, below, EndArrayOk(top, count) && EndValueOk(top))
    case _ =>
      match NextSchema(top)
      case None => Validator(root, stack, false)
      case Some(next) => Enter(root, below + [Begun(top, next)], next, e)
  }

  function FeedContext(c: Context, e: Event): Context
    decreases c
  {
    c.(validators := FeedAll(c.validators, e))
  }

  function FeedContexts(cs: seq<Context>, e: Event): (r: seq<Context>)
    ensures |r| == |cs|
    ensures forall k :: 0 <= k < |cs| ==> r[k] == FeedContext(cs[k], e)
    decreases cs
  {
    if cs == [] then [] else [FeedContext(cs[0], e)] + FeedContexts(cs[1..], e)
  }

  function FeedAll(vs: seq<Validator>, e: Event): (r: seq<Validator>)
    ensures |r| == |vs|
    ensures forall k :: 0 <= k < |vs| ==> r[k] == Feed(vs[k], e)
    decreases vs
  {
    if vs == [] then [] else [Feed(vs[0], e)] + FeedAll(vs[1..], e)
  }

  function Run(v: Validator, log: Log): Validator
    decreases |log|
  {
    if log == [] then v else Run(Feed(v, log[0]), log[1..])
  }

  // ---------- Running over an event sequence ----------

  function RunAll(vs: seq<Validator>, log: Log): (r: seq<Validator>)
    ensures |r| == |vs|
    ensures forall k :: 0 <= k < |vs| ==> r[k] == Run(vs[k], log)
  {
    if vs == [] then [] else [Run(vs[0], log)] + RunAll(vs[1..], log)
  }

  function RunContext(c: Context, log: Log): Context { c.(validators := RunAll(c.validators, log)) }

  /** What a context below the innermost one goes through. */
  function RunContexts(cs: seq<Context>, log: Log): (r: seq<Context>)
    ensures |r| == |cs|
    ensures forall k :: 0 <= k < |cs| ==> r[k] == RunContext(cs[k], log)
  {
    if cs == [] then [] else [RunContext(cs[0], log)] + RunContexts(cs[1..], log)
  }

  lemma {:induction false} RunConcat(v: Validator, a: Log, b: Log)
    ensures Run(v, a + b) == Run(Run(v, a), b)
    decreases |a|
  {
    hide Feed;
    if a == [] {
      assert a + b == b;
    } else {
      assert (a + b)[0] == a[0] && (a + b)[1..] == a[1..] + b;
      RunConcat(Feed(v, a[0]), a[1..], b);
    }
  }

  lemma {:induction false} RunInvalid(v: Validator, log: Log)
    requires !v.valid
    ensures Run(v, log) == v
    decreases |log|
  {
    if log != [] { RunInvalid(v, log[1..]); }
  }

  lemma RunAllConcat(vs: seq<Validator>, a: Log, b: Log)
    ensures RunAll(vs, a + b) == RunAll(RunAll(vs, a), b)
  {
    forall k | 0 <= k < |vs| ensures Run(vs[k], a + b) == Run(Run(vs[k], a), b) { RunConcat(vs[k], a, b); }
  }

  lemma RunContextConcat(c: Context, a: Log, b: Log)
    ensures RunContext(c, a + b) == RunContext(RunContext(c, a), b)
  {
    RunAllConcat(c.validators, a, b);
  }

  lemma RunContextsConcat(cs: seq<Context>, a: Log, b: Log)
    ensures RunContexts(cs, a + b) == RunContexts(RunContexts(cs, a), b)
  {
    forall k | 0 <= k < |cs| ensures RunContext(cs[k], a + b) == RunContext(RunContext(cs[k], a), b) {
      RunContextConcat(cs[k], a, b);
    }
  }

  lemma RunAllOne(vs: seq<Validator>, e: Event)
    ensures RunAll(vs, [e]) == FeedAll(vs, e)
  {
    forall k | 0 <= k < |vs| ensures Run(vs[k], [e]) == Feed(vs[k], e) {
      assert Run(Feed(vs[k], e), [e][1..]) == Feed(vs[k], e);
    }
  }

  lemma RunContextsOne(cs: seq<Context>, e: Event)
    ensures RunContexts(cs, [e]) == FeedContexts(cs, e)
  {
    forall k | 0 <= k < |cs| ensures RunContext(cs[k], [e]) == FeedContext(cs[k], e) { RunAllOne(cs[k].validators, e); }
  }

  /** An event and what follows, seen from a context that is not the innermost one. */
  lemma RunContextsStep(cs: seq<Context>, e: Event, rest: Log)
    ensures RunContexts(FeedContexts(cs, e), rest) == RunContexts(cs, [e] + rest)
  {
    RunContextsOne(cs, e);
    RunContextsConcat(cs, [e], rest);
  }

  lemma RunAllStep(vs: seq<Validator>, e: Event, rest: Log)
    ensures RunAll(FeedAll(vs, e), rest) == RunAll(vs, [e] + rest)
  {
    RunAllOne(vs, e);
    RunAllConcat(vs, [e], rest);
  }

  lemma RunNone(cs: seq<Context>)
    ensures RunContexts(cs, []) == cs
  {
    forall k | 0 <= k < |cs| ensures RunContext(cs[k], []) == cs[k] {
      assert RunAll(cs[k].validators, []) == cs[k].validators;
    }
  }
}
