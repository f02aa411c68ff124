/** The validator's verdict on the events of a tree is exactly whether the tree satisfies the schema. */
module SchemaRun {
  import opened Bytes
  import opened Dom
  import opened Sax
  import opened Schema
  import opened Validator

  lemma EventsShape(v: Value, o: Origin)
    ensures Events(v, o) != []
  {
  }

  lemma ScalarShape(v: Value, o: Origin)
    requires !v.ArrayValue? && !v.ObjectValue?
    ensures Rest(v, o) == [] && Opens(Head(v, o)) && !Head(v, o).StartObject? && !Head(v, o).StartArray?
  {
  }

  lemma ArrayShape(vs: seq<Value>, o: Origin)
    ensures Head(ArrayValue(vs), o) == StartArray
    ensures Rest(ArrayValue(vs), o) == ElementEvents(vs, o) + [EndArray(|vs|)]
  {
  }

  lemma ObjectShape(ms: seq<Member>, o: Origin)
    ensures Head(ObjectValue(ms), o) == StartObject
    ensures Rest(ObjectValue(ms), o) == MemberEvents(ms, o) + [EndObject(|ms|)]
  {
  }

  /** The event that opens a value, and the events after it. */
  function Head(v: Value, o: Origin): Event {
    EventsShape(v, o);
    Events(v, o)[0]
  }

  function Rest(v: Value, o: Origin): Log {
    EventsShape(v, o);
    Events(v, o)[1..]
  }

  lemma TypeVerdict(s: Schema, v: Value, o: Origin)
    ensures TypeAllowed(s, Head(v, o)) == KindAllowed(s, v)
  {
  }

  /** A fresh validator for `s`, fed with the events of `v`. */
  function Judge(s: Schema, v: Value, o: Origin): Validator { Run(Start(s, Head(v, o)), Rest(v, o)) }

  /** What induction on the schema says about its combinators. */
  predicate Judged(s: Schema, v: Value, o: Origin) {
    && AllJudged(s.allOf, v, o)
    && AllJudged(s.anyOf, v, o)
    && AllJudged(s.oneOf, v, o)
    && (s.not_.Some? ==> Judge(s.not_.value, v, o).valid == Satisfies(s.not_.value, v, Code))
  }

  predicate AllJudged(ss: seq<Schema>, v: Value, o: Origin) {
    forall k :: 0 <= k < |ss| ==> Judge(ss[k], v, o).valid == Satisfies(ss[k], v, Code)
  }

  lemma FourParts<T>(a: seq<T>, b: seq<T>, c: seq<T>, d: seq<T>)
    ensures var all := a + b + c + d;
            && all[..|a|] == a && all[|a|..|a| + |b|] == b
            && all[|a| + |b|..|a| + |b| + |c|] == c && all[|a| + |b| + |c|..] == d
  {
  }

  /** The validators of a context stand at the offsets at which EndValue looks for them. */
  lemma OpenedLayout(s: Schema, e: Event)
    ensures var vs, any, one := Opened(s, e).validators, |s.allOf|, |s.allOf| + |s.anyOf|;
            && |vs| == one + |s.oneOf| + (if s.not_.Some? then 1 else 0)
            && vs[..any] == StartAll(s.allOf, e)
            && vs[any..one] == StartAll(s.anyOf, e)
            && vs[one..one + |s.oneOf|] == StartAll(s.oneOf, e)
            && (s.not_.Some? ==> vs[one + |s.oneOf|] == Start(s.not_.value, e))
  {
    hide Start, StartAll;
    FourParts(StartAll(s.allOf, e), StartAll(s.anyOf, e), StartAll(s.oneOf, e),
              if s.not_.Some? then [Start(s.not_.value, e)] else []);
  }

  /** The verdicts of the validators of one combinator, once they have seen the whole value. */
  lemma ListVerdicts(ss: seq<Schema>, before: seq<Validator>, from: nat, v: Value, o: Origin)
    requires from + |ss| <= |before|
    requires before[from..from + |ss|] == StartAll(ss, Head(v, o)) && AllJudged(ss, v, o)
    ensures var after := RunAll(before, Rest(v, o));
            && AllValid(after, from, |ss|) == AllSatisfied(ss, v, Code)
            && AnyValid(after, from, |ss|) == AnySatisfied(ss, v, Code)
            && OneValid(after, from, |ss|) == OneSatisfied(ss, v, Code)
  {
    hide Satisfies, Start, Run, Head, Rest;
    forall k | 0 <= k < |ss|
      ensures ValidAt(RunAll(before, Rest(v, o)), from, k) == Satisfies(ss[k], v, Code)
    {
      assert before[from + k] == before[from..from + |ss|][k] == Start(ss[k], Head(v, o));
      assert Judge(ss[k], v, o) == Run(before[from + k], Rest(v, o));
    }
  }

  lemma NotVerdict(s: Schema, before: seq<Validator>, from: nat, k: nat, v: Value, o: Origin)
    requires from + k < |before| && before[from + k] == Start(s, Head(v, o))
    ensures ValidAt(RunAll(before, Rest(v, o)), from, k) == Judge(s, v, o).valid
  {
    hide Start, Run, Head, Rest;
  }

  /** EndValue combines verdicts as the schema combines schemas. */
  lemma EndValueCombines(s: Schema, v: Value, o: Origin, c: Context)
    requires c.schema == s && Judged(s, v, o)
    requires c.validators == RunAll(Opened(s, Head(v, o)).validators, Rest(v, o))
    ensures EndValueOk(c) == Combined(s, v, Code)
  {
    hide Satisfies, Start, Run, Head, Rest, Opened, AllJudged, StartAll, AllValid, AnyValid, OneValid, AllSatisfied,
      AnySatisfied, OneSatisfied, RunAll, ValidAt, Judge;
    var e, any, one := Head(v, o), |s.allOf|, |s.allOf| + |s.anyOf|;
    OpenedLayout(s, e);
    var before := Opened(s, e).validators;
    ListVerdicts(s.allOf, before, 0, v, o);
    ListVerdicts(s.anyOf, before, any, v, o);
    ListVerdicts(s.oneOf, before, one, v, o);
    if s.not_.Some? {
      NotVerdict(s.not_.value, before, one, |s.oneOf|, v, o);
    }
  }

  lemma KindNeeded(s: Schema, v: Value)
    ensures Satisfies(s, v, Code) ==> KindAllowed(s, v)
  {
  }

  /** A verdict, and the state it leaves behind when it is good. */
  predicate Ends(w: Validator, ok: bool, root: Schema, stack: seq<Context>) {
    w.valid == ok && (ok ==> w == Validator(root, stack, true))
  }

  lemma ScalarRun(root: Schema, below: seq<Context>, s: Schema, v: Value, o: Origin)
    requires !v.ArrayValue? && !v.ObjectValue? && KindAllowed(s, v) && Judged(s, v, o)
    ensures Ends(Run(Enter(root, below, s, Head(v, o)), Rest(v, o)),
                 Satisfies(s, v, Code), root, RunContexts(below, Rest(v, o)))
  {
    hide Opened, EndValueOk, Combined, RunContexts, Events, Judge, Judged, Head, Rest, KindAllowed, TypeAllowed;
    ScalarShape(v, o);
    TypeVerdict(s, v, o);
    OpenedSchema(s, Head(v, o));
    RunAllNone(Opened(s, Head(v, o)).validators);
    EndValueCombines(s, v, o, Opened(s, Head(v, o)));
    RunNone(below);
  }

  lemma RunAllNone(vs: seq<Validator>)
    ensures RunAll(vs, []) == vs
  {
  }

  lemma OpenedSchema(s: Schema, e: Event)
    ensures Opened(s, e).schema == s && Opened(s, e).inArray == e.StartArray?
    ensures Opened(s, e).arrayElementIndex == 0
    ensures e.StartObject? ==> |Opened(s, e).propertyExist| == if HasRequired(s) then |s.properties| else 0
    ensures forall p :: 0 <= p < |Opened(s, e).propertyExist| ==> !Opened(s, e).propertyExist[p]
  {
    hide Start, StartAll;
  }

  // ---------- Inside a container ----------

  lemma FeedPush(below: seq<Context>, t: Context, e: Event)
    ensures FeedContexts(below + [t], e) == FeedContexts(below, e) + [FeedContext(t, e)]
  {
    hide FeedContext;
  }

  lemma RunPush(below: seq<Context>, t: Context, log: Log)
    ensures RunContexts(below + [t], log) == RunContexts(below, log) + [RunContext(t, log)]
  {
    hide RunContext;
  }

  lemma FeedTop(root: Schema, below: seq<Context>, t: Context, e: Event)
    ensures Feed(Validator(root, below + [t], true), e)
         == Advance(root, FeedContexts(below, e) + [FeedContext(t, e)], e)
  {
    hide Advance, FeedContext;
    FeedPush(below, t, e);
  }

  /** The event that opens a value inside a container. */
  lemma FeedOpening(root: Schema, below: seq<Context>, t: Context, e: Event)
    requires Opens(e)
    ensures var w := Feed(Validator(root, below + [t], true), e);
            match NextSchema(t)
            case None => !w.valid
            case Some(next) => w == Enter(root, FeedContexts(below, e) + [Begun(FeedContext(t, e), next)], next, e)
  {
    hide Feed, FeedContexts, FeedAll, Enter;
    FeedTop(root, below, t, e);
    var stack := FeedContexts(below, e) + [FeedContext(t, e)];
    assert stack[..|stack| - 1] == FeedContexts(below, e);
  }

  lemma BegunRun(t: Context, next: Schema, e: Event, rest: Log)
    ensures RunContext(Begun(FeedContext(t, e), next), rest) == Begun(RunContext(t, [e] + rest), next)
  {
    hide FeedAll, RunAll;
    RunAllStep(t.validators, e, rest);
  }

  lemma EventsSplit(v: Value, o: Origin)
    ensures Events(v, o) == [Head(v, o)] + Rest(v, o) && Opens(Head(v, o))
  {
  }

  lemma RunSplit(v: Validator, e: Event, rest: Log)
    ensures Run(v, [e] + rest) == Run(Feed(v, e), rest)
  {
    hide Feed;
    assert ([e] + rest)[1..] == rest;
  }

  /** The next value inside a container: its verdict, and the container's context afterwards. */
  lemma {:induction false} NextValueRun(root: Schema, below: seq<Context>, t: Context, v: Value, o: Origin)
    ensures var w := Run(Validator(root, below + [t], true), Events(v, o));
            match NextSchema(t)
            case None => !w.valid
            case Some(next) => Ends(w, Satisfies(next, v, Code), root,
                                    RunContexts(below, Events(v, o)) + [Begun(RunContext(t, Events(v, o)), next)])
    decreases v, 1
  {
    hide Run, Feed, Enter, Satisfies, Begun, RunContext, RunContexts, FeedContexts, FeedContext, Events, Head, Rest,
      NextSchema;
    var start, e, rest := Validator(root, below + [t], true), Head(v, o), Rest(v, o);
    EventsSplit(v, o);
    RunSplit(start, e, rest);
    FeedOpening(root, below, t, e);
    match NextSchema(t) {
      case None =>
        RunInvalid(Feed(start, e), rest);
      case Some(next) =>
        var base, top := FeedContexts(below, e), Begun(FeedContext(t, e), next);
        EnterRun(root, base + [top], next, v, o);
        RunPush(base, top, rest);
        RunContextsStep(below, e, rest);
        BegunRun(t, next, e, rest);
    }
  }

  // ---------- Which schema a child is judged by ----------

  lemma TypelessParts(v: Value)
    ensures KindAllowed(TYPELESS, v) && Combined(TYPELESS, v, Code)
    ensures TYPELESS.items == AnyItems && TYPELESS.properties == [] && TYPELESS.additionalProperties == Allowed
    ensures TYPELESS.minItems == TYPELESS.minProperties == 0
    ensures TYPELESS.maxItems == TYPELESS.maxProperties == 0xFFFF_FFFF
  {
  }

  /** What every value satisfies: the typeless schema restricts nothing but counts. */
  lemma TypelessCountable(v: Value)
    ensures Satisfies(TYPELESS, v, Code) == Countable(v)
  {
    hide KindAllowed, Combined, TYPELESS;
    TypelessParts(v);
    match v {
      case ArrayValue(vs) =>
        forall k | 0 <= k < |vs| ensures ElementSatisfies(TYPELESS, 0 + k, vs[k], Code) == Countable(vs[k]) { }
      case ObjectValue(ms) =>
        forall k | 0 <= k < |ms| ensures MemberSatisfies(TYPELESS, ms[k], Code) == Countable(ms[k].value) { }
      case _ =>
    }
  }

  /** The schema that NextSchema selects is the one that the definition asks for. */
  lemma ElementJudged(s: Schema, index: nat, v: Value)
    ensures ElementSatisfies(s, index, v, Code)
        <==> ItemSchema(s, index).Some? && Satisfies(ItemSchema(s, index).value, v, Code)
  {
    hide Satisfies, Countable;
    TypelessCountable(v);
  }

  lemma MemberJudged(s: Schema, m: Member)
    ensures MemberSatisfies(s, m, Code)
        <==> MemberSchema(s, m.name).Some? && Satisfies(MemberSchema(s, m.name).value, m.value, Code)
  {
    hide Satisfies, Countable, PropertyIndex;
    TypelessCountable(m.value);
    var k := PropertyIndex(s.properties, m.name);
    assert k < |s.properties| ==> Describes(s.properties, k, m.name);
  }

  lemma PropertyDescribed(ps: seq<Property>, name: bytes, p: nat)
    ensures Describes(ps, p, name) <==> p < |ps| && PropertyIndex(ps, name) == p
  {
    hide PropertyIndex;
    var k := PropertyIndex(ps, name);
  }

  lemma ElementsSplit(s: Schema, index: nat, vs: seq<Value>)
    requires vs != []
    ensures ElementsSatisfy(s, index, vs, Code)
        <==> ElementSatisfies(s, index, vs[0], Code) && ElementsSatisfy(s, index + 1, vs[1..], Code)
  {
    hide ElementSatisfies;
    if ElementsSatisfy(s, index + 1, vs[1..], Code) {
      forall k | 1 <= k < |vs| ensures ElementSatisfies(s, index + k, vs[k], Code) {
        assert vs[1..][k - 1] == vs[k] && index + 1 + (k - 1) == index + k;
      }
    }
    if ElementsSatisfy(s, index, vs, Code) {
      assert ElementSatisfies(s, index + 0, vs[0], Code);
      forall k | 0 <= k < |vs| - 1 ensures ElementSatisfies(s, index + 1 + k, vs[1..][k], Code) {
        assert ElementSatisfies(s, index + (k + 1), vs[k + 1], Code);
      }
    }
  }

  /** All elements of an array, or those from some index on. */
  lemma {:induction false} ElementsRun(root: Schema, below: seq<Context>, c: Context, vs: seq<Value>, o: Origin)
    returns (after: Context)
    requires c.inArray
    ensures Ends(Run(Validator(root, below + [c], true), ElementEvents(vs, o)),
                 ElementsSatisfy(c.schema, c.arrayElementIndex, vs, Code),
                 root, RunContexts(below, ElementEvents(vs, o)) + [after])
    ensures after.schema == c.schema && after.validators == RunAll(c.validators, ElementEvents(vs, o))
    decreases vs
  {
    hide Run, Feed, Enter, Satisfies, RunContexts, FeedContexts, FeedContext, Events, ElementsSatisfy, RunAll;
    after := c;
    if vs == [] {
      NoElements(c.schema, c.arrayElementIndex);
      RunNothing(Validator(root, below + [c], true));
      RunNone(below);
      RunAllNone(c.validators);
    } else {
      ElementsSplit(c.schema, c.arrayElementIndex, vs);
      ElementJudged(c.schema, c.arrayElementIndex, vs[0]);
      NextValueRun(root, below, c, vs[0], o);
      var first, rest := Events(vs[0], o), ElementEvents(vs[1..], o);
      RunConcat(Validator(root, below + [c], true), first, rest);
      after := RunContext(c, first + rest);
      RunAllConcat(c.validators, first, rest);
      if ItemSchema(c.schema, c.arrayElementIndex).Some? {
        var between := Begun(RunContext(c, first), ItemSchema(c.schema, c.arrayElementIndex).value);
        var last := ElementsRun(root, RunContexts(below, first), between, vs[1..], o);
        RunContextsConcat(below, first, rest);
        if Satisfies(ItemSchema(c.schema, c.arrayElementIndex).value, vs[0], Code) {
          after := last;
        } else {
          RunInvalid(Run(Validator(root, below + [c], true), first), rest);
        }
      } else {
        RunInvalid(Run(Validator(root, below + [c], true), first), rest);
      }
    }
  }

  lemma NoElements(s: Schema, index: nat)
    ensures ElementsSatisfy(s, index, [], Code)
  {
  }

  lemma RunNothing(v: Validator)
    ensures Run(v, []) == v
  {
  }

  // ---------- Members ----------

  lemma MembersSplit(s: Schema, ms: seq<Member>)
    requires ms != []
    ensures MembersSatisfy(s, ms, Code) <==> MemberSatisfies(s, ms[0], Code) && MembersSatisfy(s, ms[1..], Code)
  {
    hide MemberSatisfies;
    if MembersSatisfy(s, ms[1..], Code) {
      forall k | 1 <= k < |ms| ensures MemberSatisfies(s, ms[k], Code) { assert ms[1..][k - 1] == ms[k]; }
    }
  }

  lemma NoMembers(s: Schema)
    ensures MembersSatisfy(s, [], Code)
  {
  }

  /** A key inside an object: it selects the schema of the value to come and ticks off the property. */
  lemma FeedKey(root: Schema, below: seq<Context>, t: Context, name: bytes)
    ensures var w := Feed(Validator(root, below + [t], true), Key(name));
            match MemberSchema(t.schema, name)
            case None => !w.valid
            case Some(next) =>
              var keyed := Keyed(FeedContext(t, Key(name)), name, next);
              w == Validator(root, FeedContexts(below, Key(name)) + [keyed], true)
  {
    hide Feed, FeedContexts, FeedAll, MemberSchema, Keyed;
    FeedTop(root, below, t, Key(name));
    var stack := FeedContexts(below, Key(name)) + [FeedContext(t, Key(name))];
    assert stack[..|stack| - 1] == FeedContexts(below, Key(name));
  }

  /** The context of an object after one member. */
  function AfterMember(c: Context, m: Member, next: Schema, o: Origin): Context {
    Keyed(RunContext(c, [Key(m.name)] + Events(m.value, o)), m.name, next)
  }

  lemma KeyedRun(t: Context, name: bytes, next: Schema, log: Log)
    ensures RunContext(Keyed(FeedContext(t, Key(name)), name, next), log)
         == Keyed(RunContext(t, [Key(name)] + log), name, next)
  {
    hide FeedAll, RunAll;
    RunAllStep(t.validators, Key(name), log);
  }

  lemma {:induction false} MemberRun(root: Schema, below: seq<Context>, c: Context, m: Member, o: Origin)
    requires !c.inArray
    ensures var log := [Key(m.name)] + Events(m.value, o);
            var w := Run(Validator(root, below + [c], true), log);
            match MemberSchema(c.schema, m.name)
            case None => !w.valid
            case Some(next) => Ends(w, Satisfies(next, m.value, Code), root,
                                    RunContexts(below, log) + [AfterMember(c, m, next, o)])
    decreases m
  {
    hide Run, Feed, Satisfies, RunContexts, FeedContexts, Events, MemberSchema, FeedAll, RunAll;
    var start, key, log := Validator(root, below + [c], true), Key(m.name), Events(m.value, o);
    RunSplit(start, key, log);
    FeedKey(root, below, c, m.name);
    match MemberSchema(c.schema, m.name) {
      case None =>
        RunInvalid(Feed(start, key), log);
      case Some(next) =>
        NextValueRun(root, FeedContexts(below, key), Keyed(FeedContext(c, key), m.name, next), m.value, o);
        RunContextsStep(below, key, log);
        KeyedRun(c, m.name, next, log);
    }
  }

  /** propertyExist after some members. */
  predicate Ticked(c: Context, ms: seq<Member>, after: Context) {
    && |after.propertyExist| == |c.propertyExist|
    && forall p :: 0 <= p < |c.propertyExist| && p < |c.schema.properties| ==>
                     after.propertyExist[p] == (c.propertyExist[p] || Present(c.schema, ms, p))
  }

  lemma PresentSplit(s: Schema, ms: seq<Member>, p: nat)
    requires ms != [] && p < |s.properties|
    ensures Present(s, ms, p) <==> PropertyIndex(s.properties, ms[0].name) == p || Present(s, ms[1..], p)
  {
    hide PropertyIndex, Describes;
    PropertyDescribed(s.properties, ms[0].name, p);
    if Present(s, ms[1..], p) {
      var k :| 0 <= k < |ms| - 1 && Describes(s.properties, p, ms[1..][k].name);
      assert ms[k + 1] == ms[1..][k];
    }
    if Present(s, ms, p) && !Describes(s.properties, p, ms[0].name) {
      var k :| 0 <= k < |ms| && Describes(s.properties, p, ms[k].name);
      assert ms[k] == ms[1..][k - 1];
    }
  }

  lemma TickedSplit(c: Context, ms: seq<Member>, next: Schema, o: Origin, after: Context)
    requires ms != [] && Ticked(AfterMember(c, ms[0], next, o), ms[1..], after)
    ensures Ticked(c, ms, after)
  {
    hide PropertyIndex, Events, RunAll, Present;
    forall p | 0 <= p < |c.propertyExist| && p < |c.schema.properties|
      ensures after.propertyExist[p] == (c.propertyExist[p] || Present(c.schema, ms, p))
    {
      PresentSplit(c.schema, ms, p);
    }
  }

  lemma MembersStep(c: Context, m: Member, next: Schema, o: Origin, rest: Log)
    ensures var t := AfterMember(c, m, next, o);
            && t.schema == c.schema && t.inArray == c.inArray
            && RunAll(t.validators, rest) == RunAll(c.validators, [Key(m.name)] + Events(m.value, o) + rest)
  {
    hide RunAll, Events;
    RunAllConcat(c.validators, [Key(m.name)] + Events(m.value, o), rest);
  }

  /** All members of an object, or those from some place on. */
  lemma {:induction false} MembersRun(root: Schema, below: seq<Context>, c: Context, ms: seq<Member>, o: Origin)
    returns (after: Context)
    requires !c.inArray
    ensures Ends(Run(Validator(root, below + [c], true), MemberEvents(ms, o)),
                 MembersSatisfy(c.schema, ms, Code),
                 root, RunContexts(below, MemberEvents(ms, o)) + [after])
    ensures after.schema == c.schema && after.validators == RunAll(c.validators, MemberEvents(ms, o))
    ensures MembersSatisfy(c.schema, ms, Code) ==> Ticked(c, ms, after)
    decreases ms
  {
    hide Run, Feed, Satisfies, RunContexts, Events, MembersSatisfy, RunAll, MemberSchema,
      MemberSatisfies, AfterMember, Ticked, Present;
    after := c;
    if ms == [] {
      NoMembers(c.schema);
      RunNothing(Validator(root, below + [c], true));
      RunNone(below);
      RunAllNone(c.validators);
      NoneTicked(c);
    } else {
      MembersSplit(c.schema, ms);
      MemberJudged(c.schema, ms[0]);
      MemberRun(root, below, c, ms[0], o);
      var start := Validator(root, below + [c], true);
      var first, rest := [Key(ms[0].name)] + Events(ms[0].value, o), MemberEvents(ms[1..], o);
      RunConcat(start, first, rest);
      after := RunContext(c, first + rest);
      if MemberSchema(c.schema, ms[0].name).Some? {
        var next := MemberSchema(c.schema, ms[0].name).value;
        MembersStep(c, ms[0], next, o, rest);
        var last := MembersRun(root, RunContexts(below, first), AfterMember(c, ms[0], next, o), ms[1..], o);
        RunContextsConcat(below, first, rest);
        if Satisfies(next, ms[0].value, Code) {
          after := last;
          if MembersSatisfy(c.schema, ms, Code) { TickedSplit(c, ms, next, o, last); }
        } else {
          RunInvalid(Run(start, first), rest);
        }
      } else {
        RunInvalid(Run(start, first), rest);
      }
    }
  }

  lemma NoneTicked(c: Context)
    ensures Ticked(c, [], c)
  {
  }

  // ---------- Whole values ----------

  predicate EndOk(c: Context, e: Event)
    requires e.EndObject? || e.EndArray?
  {
    (if e.EndObject? then EndObjectOk(c, e.count) else EndArrayOk(c, e.count)) && EndValueOk(c)
  }

  lemma FeedEnd(root: Schema, below: seq<Context>, t: Context, e: Event)
    requires e.EndObject? || e.EndArray?
    ensures Feed(Validator(root, below + [t], true), e)
         == Validator(root, FeedContexts(below, e), EndOk(FeedContext(t, e), e))
  {
    hide Feed, FeedContexts, FeedAll, EndObjectOk, EndArrayOk, EndValueOk;
    FeedTop(root, below, t, e);
    var stack := FeedContexts(below, e) + [FeedContext(t, e)];
    assert stack[..|stack| - 1] == FeedContexts(below, e);
  }

  /** The events of a container: its body, then its end. */
  lemma ContainerRun(root: Schema, below: seq<Context>, c: Context, body: Log, e: Event,
                     ok: bool, after: Context)
    requires e.EndObject? || e.EndArray?
    requires Ends(Run(Validator(root, below + [c], true), body), ok, root, RunContexts(below, body) + [after])
    requires after.schema == c.schema && after.validators == RunAll(c.validators, body)
    ensures var t := FeedContext(after, e);
            && t.schema == c.schema && t.validators == RunAll(c.validators, body + [e])
            && Ends(Run(Validator(root, below + [c], true), body + [e]),
                    ok && EndOk(t, e),
                    root, RunContexts(below, body + [e]))
  {
    hide Run, Feed, RunContexts, FeedContexts, FeedAll, RunAll, EndObjectOk, EndArrayOk, EndValueOk;
    var start := Validator(root, below + [c], true);
    RunConcat(start, body, [e]);
    RunAllConcat(c.validators, body, [e]);
    RunAllOne(RunAll(c.validators, body), e);
    if ok {
      RunOne(Run(start, body), e);
      FeedEnd(root, RunContexts(below, body), after, e);
      RunContextsConcat(below, body, [e]);
      RunContextsOne(RunContexts(below, body), e);
    } else {
      RunInvalid(Run(start, body), [e]);
    }
  }

  lemma RunOne(v: Validator, e: Event)
    ensures Run(v, [e]) == Feed(v, e)
  {
    hide Feed;
    assert [e][1..] == [];
  }

  lemma ArrayMeaning(s: Schema, vs: seq<Value>)
    ensures Satisfies(s, ArrayValue(vs), Code)
        <==> KindAllowed(s, ArrayValue(vs)) && s.minItems <= |vs| <= s.maxItems
             && ElementsSatisfy(s, 0, vs, Code) && Combined(s, ArrayValue(vs), Code)
  {
    hide KindAllowed, ElementsSatisfy, Combined;
  }

  lemma ArrayRun(root: Schema, below: seq<Context>, s: Schema, vs: seq<Value>, o: Origin, after: Context)
    requires KindAllowed(s, ArrayValue(vs)) && Judged(s, ArrayValue(vs), o)
    requires var c := Opened(s, StartArray);
             && Ends(Run(Validator(root, below + [c], true), ElementEvents(vs, o)),
                     ElementsSatisfy(s, 0, vs, Code), root, RunContexts(below, ElementEvents(vs, o)) + [after])
             && after.schema == s && after.validators == RunAll(c.validators, ElementEvents(vs, o))
    ensures Ends(Run(Enter(root, below, s, StartArray), Rest(ArrayValue(vs), o)),
                 Satisfies(s, ArrayValue(vs), Code), root, RunContexts(below, Rest(ArrayValue(vs), o)))
  {
    hide Run, RunContexts, RunAll, Satisfies, Combined, EndValueOk, ElementsSatisfy, KindAllowed, Opened, Judged,
      Head, Rest, FeedContext, TypeAllowed;
    var v, c, e := ArrayValue(vs), Opened(s, StartArray), EndArray(|vs|);
    ArrayShape(vs, o);
    TypeVerdict(s, v, o);
    OpenedSchema(s, StartArray);
    ContainerRun(root, below, c, ElementEvents(vs, o), e, ElementsSatisfy(s, 0, vs, Code), after);
    EndValueCombines(s, v, o, FeedContext(after, e));
    ArrayMeaning(s, vs);
  }

  lemma ObjectMeaning(s: Schema, ms: seq<Member>)
    ensures Satisfies(s, ObjectValue(ms), Code)
        <==> KindAllowed(s, ObjectValue(ms)) && s.minProperties <= |ms| <= s.maxProperties
             && AllPresent(s, ms) && MembersSatisfy(s, ms, Code) && Combined(s, ObjectValue(ms), Code)
  {
    hide KindAllowed, MembersSatisfy, Combined, Present, Demanded;
  }

  predicate AllPresent(s: Schema, ms: seq<Member>) {
    forall p :: 0 <= p < |s.properties| && Demanded(s.properties[p], Code) ==> Present(s, ms, p)
  }

  /** The required-property check of EndObject, on propertyExist, is the one of the schema. */
  lemma RequiredChecked(s: Schema, ms: seq<Member>, t: Context)
    requires t.schema == s && Ticked(Opened(s, StartObject), ms, t)
    ensures EndObjectOk(t, |ms|) <==> s.minProperties <= |ms| <= s.maxProperties && AllPresent(s, ms)
  {
    hide Opened, Present;
    OpenedSchema(s, StartObject);
  }

  lemma ObjectRun(root: Schema, below: seq<Context>, s: Schema, ms: seq<Member>, o: Origin, after: Context)
    requires KindAllowed(s, ObjectValue(ms)) && Judged(s, ObjectValue(ms), o)
    requires var c := Opened(s, StartObject);
             && Ends(Run(Validator(root, below + [c], true), MemberEvents(ms, o)),
                     MembersSatisfy(s, ms, Code), root, RunContexts(below, MemberEvents(ms, o)) + [after])
             && after.schema == s && after.validators == RunAll(c.validators, MemberEvents(ms, o))
             && (MembersSatisfy(s, ms, Code) ==> Ticked(c, ms, after))
    ensures Ends(Run(Enter(root, below, s, StartObject), Rest(ObjectValue(ms), o)),
                 Satisfies(s, ObjectValue(ms), Code), root, RunContexts(below, Rest(ObjectValue(ms), o)))
  {
    hide Run, RunContexts, RunAll, Satisfies, Combined, EndValueOk, EndObjectOk, MembersSatisfy, KindAllowed, Opened,
      Judged, Head, Rest, FeedContext, TypeAllowed, Ticked;
    var v, c, e := ObjectValue(ms), Opened(s, StartObject), EndObject(|ms|);
    ObjectShape(ms, o);
    TypeVerdict(s, v, o);
    OpenedSchema(s, StartObject);
    ContainerRun(root, below, c, MemberEvents(ms, o), e, MembersSatisfy(s, ms, Code), after);
    EndValueCombines(s, v, o, FeedContext(after, e));
    ObjectMeaning(s, ms);
    if MembersSatisfy(s, ms, Code) {
      TickedFed(c, ms, after, e);
      RequiredChecked(s, ms, FeedContext(after, e));
    }
  }

  lemma TickedFed(c: Context, ms: seq<Member>, t: Context, e: Event)
    requires Ticked(c, ms, t)
    ensures Ticked(c, ms, FeedContext(t, e))
  {
    hide Present, FeedAll;
  }

  /** From the event that opens a value to its end: the verdict, and what is left of the stack. */
  lemma {:induction false} EnterRun(root: Schema, below: seq<Context>, s: Schema, v: Value, o: Origin)
    ensures Ends(Run(Enter(root, below, s, Head(v, o)), Rest(v, o)),
                 Satisfies(s, v, Code), root, RunContexts(below, Rest(v, o)))
    decreases v, 0, s, 1
  {
    hide Run, Opened, RunContexts, RunAll, Events, Satisfies, Head, Rest, KindAllowed, TypeAllowed, ElementsSatisfy,
      MembersSatisfy, Ticked, Judge;
    TypeVerdict(s, v, o);
    KindNeeded(s, v);
    if !KindAllowed(s, v) {
      RunInvalid(Validator(root, below, false), Rest(v, o));
    } else {
      CombinatorsRun(s, v, o);
      match v {
        case ArrayValue(vs) =>
          ArrayShape(vs, o);
          OpenedSchema(s, StartArray);
          var after := ElementsRun(root, below, Opened(s, StartArray), vs, o);
          ArrayRun(root, below, s, vs, o, after);
        case ObjectValue(ms) =>
          ObjectShape(ms, o);
          OpenedSchema(s, StartObject);
          var after := MembersRun(root, below, Opened(s, StartObject), ms, o);
          ObjectRun(root, below, s, ms, o, after);
        case _ => ScalarRun(root, below, s, v, o);
      }
    }
  }

  /** The validators of the combinators see the same value, each against its own schema. */
  lemma {:induction false} CombinatorsRun(s: Schema, v: Value, o: Origin)
    ensures Judged(s, v, o)
    decreases v, 0, s, 0
  {
    hide Satisfies, Judge;
    ListRun(s.allOf, v, o);
    ListRun(s.anyOf, v, o);
    ListRun(s.oneOf, v, o);
    if s.not_.Some? { JudgeRun(s.not_.value, v, o); }
  }

  lemma {:induction false} ListRun(ss: seq<Schema>, v: Value, o: Origin)
    ensures AllJudged(ss, v, o)
    decreases v, 0, ss
  {
    hide Satisfies, Judge;
    forall k | 0 <= k < |ss| ensures Judge(ss[k], v, o).valid == Satisfies(ss[k], v, Code) {
      JudgeRun(ss[k], v, o);
    }
  }

  lemma {:induction false} JudgeRun(s: Schema, v: Value, o: Origin)
    ensures Judge(s, v, o).valid == Satisfies(s, v, Code)
    decreases v, 0, s, 2
  {
    hide Satisfies, Enter, Run, Head, Rest;
    EnterRun(s, [], s, v, o);
  }

  /**
   The main result: a validator made for a schema and fed with a tree is valid at the end exactly when the tree
   satisfies the schema.
   */
  lemma ValidatorDecides(s: Schema, v: Value, o: Origin)
    ensures var w := Run(Validator(s, [], true), Events(v, o));
            && w.valid == Satisfies(s, v, Code)
            && (w.valid ==> w == Validator(s, [], true))
  {
    hide Satisfies, Enter, Run, Head, Rest, Events;
    EventsSplit(v, o);
    RunSplit(Validator(s, [], true), Head(v, o), Rest(v, o));
    EnterRun(s, [], s, v, o);
  }
}
