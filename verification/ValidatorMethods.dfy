/** GenericSchemaValidator as the object that the events call, and the loops of Schema::EndValue. */
module ValidatorMethods {
  import opened Bytes
  import opened Sax
  import opened Schema
  import opened Validator
  import opened Wrappers
  import SchemaRun

  /** A validator just made by CreateSchemaValidator. */
  function Fresh(s: Schema): Validator { Validator(s, [], true) }

  function FreshAll(ss: seq<Schema>): (vs: seq<Validator>)
    ensures |vs| == |ss| && forall k :: 0 <= k < |ss| ==> vs[k] == Fresh(ss[k])
  {
    seq(|ss|, k requires 0 <= k < |ss| => Fresh(ss[k]))
  }

  /**
   The context after PushSchema, the type check and CreateParallelValidator, before the event reaches its validators.
   */
  function Pushed(s: Schema, e: Event): Context {
    Context(
      s, None,
      FreshAll(s.allOf) + FreshAll(s.anyOf) + FreshAll(s.oneOf) + (if s.not_.Some? then [Fresh(s.not_.value)] else []),
      0, e.StartArray?,
      if e.StartObject? && HasRequired(s) then seq(|s.properties|, _ => false) else [])
  }

  lemma FeedFresh(ss: seq<Schema>, e: Event)
    requires Opens(e)
    ensures FeedAll(FreshAll(ss), e) == StartAll(ss, e)
  {
    hide Start;
    forall k | 0 <= k < |ss| ensures Feed(Fresh(ss[k]), e) == Start(ss[k], e) {
    }
  }

  lemma FeedAllConcat(a: seq<Validator>, b: seq<Validator>, e: Event)
    ensures FeedAll(a + b, e) == FeedAll(a, e) + FeedAll(b, e)
  {
    hide Feed;
  }

  /** The parallel loop reaches the new validators too: they start with the event that made them. */
  lemma FeedPushed(s: Schema, e: Event)
    requires Opens(e)
    ensures FeedContext(Pushed(s, e), e) == Opened(s, e)
  {
    hide Start, StartAll, FreshAll, FeedAll, Fresh;
    FeedFresh(s.allOf, e);
    FeedFresh(s.anyOf, e);
    FeedFresh(s.oneOf, e);
    var last := if s.not_.Some? then [Fresh(s.not_.value)] else [];
    FeedAllConcat(FreshAll(s.allOf), FreshAll(s.anyOf), e);
    FeedAllConcat(FreshAll(s.allOf) + FreshAll(s.anyOf), FreshAll(s.oneOf), e);
    FeedAllConcat(FreshAll(s.allOf) + FreshAll(s.anyOf) + FreshAll(s.oneOf), last, e);
    if s.not_.Some? {
      FeedLast(s.not_.value, e);
    } else {
      FeedNone(e);
    }
  }

  lemma FeedLast(s: Schema, e: Event)
    requires Opens(e)
    ensures FeedAll([Fresh(s)], e) == [Start(s, e)]
  {
    assert [Fresh(s)][1..] == [];
  }

  lemma FeedNone(e: Event)
    ensures FeedAll([], e) == []
  {
  }

  /** Equal as far as anyone can tell: an invalid validator ignores every event. */
  predicate Same(a: Validator, b: Validator) {
    a.valid == b.valid && (a.valid ==> a == b)
  }

  lemma FeedFirst(root: Schema, e: Event)
    requires Opens(e)
    ensures Feed(Validator(root, [], true), e) == Enter(root, [], root, e)
  {
    hide Enter;
    assert Start(root, e) == Enter(root, [], root, e);
  }

  lemma EnterMeaning(root: Schema, below: seq<Context>, s: Schema, e: Event)
    ensures Enter(root, below, s, e)
         == if !TypeAllowed(s, e) then Validator(root, below, false)
            else if e.StartObject? || e.StartArray? then Validator(root, below + [Opened(s, e)], true)
            else Validator(root, below, EndValueOk(Opened(s, e)))
  {
    hide Opened;
  }

  /** What is left to do after the parallel loop of an event that opens a value. */
  function Settled(root: Schema, fed: seq<Context>, e: Event): Validator
    requires fed != []
  {
    if e.StartObject? || e.StartArray? then Validator(root, fed, true)
    else Validator(root, fed[..|fed| - 1], EndValueOk(fed[|fed| - 1]))
  }

  /** After a successful Begin, the parallel loop leaves what Feed leaves before the value is ended. */
  lemma FeedBegun(root: Schema, stack: seq<Context>, e: Event, pushed: seq<Context>)
    requires Opens(e)
    requires stack == [] ==> TypeAllowed(root, e) && pushed == [Pushed(root, e)]
    requires stack != [] ==>
               var top := stack[|stack| - 1];
               && NextSchema(top).Some? && TypeAllowed(NextSchema(top).value, e)
               && pushed == stack[..|stack| - 1] + [Begun(top, NextSchema(top).value)]
                            + [Pushed(NextSchema(top).value, e)]
    ensures FeedContexts(pushed, e) != []
    ensures Feed(Validator(root, stack, true), e) == Settled(root, FeedContexts(pushed, e), e)
  {
    hide Opened, FeedContexts, FeedContext, FeedAll, EndValueOk, Pushed, TypeAllowed, Feed, Enter, Begun;
    if stack == [] {
      FeedFirst(root, e);
      EnterMeaning(root, [], root, e);
      FeedPushed(root, e);
      FedOne(Pushed(root, e), e);
      assert stack == [];
    } else {
      var below, top := stack[..|stack| - 1], stack[|stack| - 1];
      var next := NextSchema(top).value;
      FeedPushed(next, e);
      EnterMeaning(root, FeedContexts(below, e) + [Begun(FeedContext(top, e), next)], next, e);
      BegunFed(top, next, e);
      SchemaRun.FeedOpening(root, below, top, e);
      assert below + [top] == stack;
      SchemaRun.FeedPush(below + [Begun(top, next)], Pushed(next, e), e);
      SchemaRun.FeedPush(below, Begun(top, next), e);
      var fed := FeedContexts(pushed, e);
      assert fed[..|fed| - 1] == FeedContexts(below, e) + [FeedContext(Begun(top, next), e)];
    }
  }

  lemma BegunFed(t: Context, next: Schema, e: Event)
    ensures FeedContext(Begun(t, next), e) == Begun(FeedContext(t, e), next)
  {
    hide FeedAll;
  }

  lemma FedOne(c: Context, e: Event)
    ensures FeedContexts([c], e) == [FeedContext(c, e)]
  {
    hide FeedContext;
  }

  lemma FeedRefused(root: Schema, stack: seq<Context>, e: Event)
    requires Opens(e)
    requires stack == [] ==> !TypeAllowed(root, e)
    requires stack != [] ==>
               var next := NextSchema(stack[|stack| - 1]);
               next.None? || !TypeAllowed(next.value, e)
    ensures !Feed(Validator(root, stack, true), e).valid
  {
    hide FeedContexts, FeedContext, FeedAll, Feed, Enter, TypeAllowed, Opened, Begun;
    if stack == [] {
      FeedFirst(root, e);
      EnterMeaning(root, [], root, e);
      assert stack == [];
    } else {
      var below, top := stack[..|stack| - 1], stack[|stack| - 1];
      SchemaRun.FeedOpening(root, below, top, e);
      assert below + [top] == stack;
      if NextSchema(top).Some? {
        var next := NextSchema(top).value;
        EnterMeaning(root, FeedContexts(below, e) + [Begun(FeedContext(top, e), next)], next, e);
      }
    }
  }

  /** The inner loop: every validator of one context takes the event. */
  method FeedValidators(vs: seq<Validator>, e: Event) returns (validators: seq<Validator>)
    ensures validators == FeedAll(vs, e)
  {
    hide Feed;
    validators := vs;
    var j := 0;
    while j < |validators|
      invariant 0 <= j <= |validators| == |vs|
      invariant forall k :: 0 <= k < j ==> validators[k] == Feed(vs[k], e)
      invariant forall k :: j <= k < |validators| ==> validators[k] == vs[k]
    {
      validators := validators[j := Feed(validators[j], e)];
      j := j + 1;
    }
  }

  class GenericSchemaValidator {
    const root: Schema
    var schemaStack: seq<Context>
    var valid: bool

    constructor (schema: Schema)
      ensures Now() == Fresh(schema)
    {
      root := schema;
      schemaStack := [];
      valid := true;
    }

    function Now(): Validator
      reads this
    {
      Validator(root, schemaStack, valid)
    }

    /** The loop over the contexts, and in each over its validators. */
    method Parallel(e: Event)
      modifies this`schemaStack
      ensures schemaStack == FeedContexts(old(schemaStack), e)
    {
      hide FeedAll;
      var i := 0;
      while i < |schemaStack|
        invariant 0 <= i <= |schemaStack| == |old(schemaStack)|
        invariant forall k :: 0 <= k < i ==> schemaStack[k] == FeedContext(old(schemaStack)[k], e)
        invariant forall k :: i <= k < |schemaStack| ==> schemaStack[k] == old(schemaStack)[k]
      {
        var validators := FeedValidators(schemaStack[i].validators, e);
        schemaStack := schemaStack[i := schemaStack[i].(validators := validators)];
        i := i + 1;
      }
    }

    /** BeginValue of the validator and the handler of the schema, up to CreateParallelValidator. */
    method Begin(e: Event) returns (ok: bool)
      requires Opens(e)
      modifies this`schemaStack
      ensures old(schemaStack) == [] ==>
                ok == TypeAllowed(root, e) && (ok ==> schemaStack == [Pushed(root, e)])
      ensures old(schemaStack) != [] ==>
                var n := |old(schemaStack)|;
                var next := NextSchema(old(schemaStack)[n - 1]);
                && ok == (next.Some? && TypeAllowed(next.value, e))
                && (ok ==> schemaStack == old(schemaStack)[..n - 1] + [Begun(old(schemaStack)[n - 1], next.value)]
                                          + [Pushed(next.value, e)])
    {
      var s := root;
      if schemaStack != [] {
        var n := |schemaStack|;
        var top := schemaStack[n - 1];
        match NextSchema(top) {
          case None => return false;
          case Some(next) =>
            s := next;
            schemaStack := schemaStack[..n - 1] + [Begun(top, next)];
        }
      }
      if !TypeAllowed(s, e) { return false; }
      schemaStack := schemaStack + [Pushed(s, e)];
      return true;
    }

    /** EndValue of the validator: the verdict of the schema, then PopSchema. */
    method EndValue() returns (ok: bool)
      requires schemaStack != []
      modifies this`schemaStack
      ensures ok == EndValueOk(old(schemaStack)[|old(schemaStack)| - 1])
      ensures ok ==> schemaStack == old(schemaStack)[..|old(schemaStack)| - 1]
    {
      ok := Combine(schemaStack[|schemaStack| - 1]);
      if ok { schemaStack := schemaStack[..|schemaStack| - 1]; }
    }

    /** Null, Bool, Int, Uint, Int64, Uint64, Double and String. */
    method Value(e: Event) returns (ok: bool)
      requires Opens(e) && !e.StartObject? && !e.StartArray?
      modifies this
      ensures Same(Now(), Feed(old(Now()), e)) && ok == valid
    {
      hide Feed, FeedContexts, EndValueOk, TypeAllowed, NextSchema, Pushed, Begun;
      if !valid { InvalidStays(Now(), e); return false; }
      ok := Begin(e);
      if !ok {
        FeedRefused(root, old(schemaStack), e);
        valid := false;
        return;
      }
      FeedBegun(root, old(schemaStack), e, schemaStack);
      Parallel(e);
      ok := EndValue();
      valid := ok;
    }

    /** StartObject and StartArray. */
    method Open(e: Event) returns (ok: bool)
      requires e.StartObject? || e.StartArray?
      modifies this
      ensures Same(Now(), Feed(old(Now()), e)) && ok == valid
    {
      hide Feed, FeedContexts, EndValueOk, TypeAllowed, NextSchema, Pushed, Begun;
      if !valid { InvalidStays(Now(), e); return false; }
      ok := Begin(e);
      if !ok {
        FeedRefused(root, old(schemaStack), e);
        valid := false;
        return;
      }
      FeedBegun(root, old(schemaStack), e, schemaStack);
      Parallel(e);
    }

    method Key(name: bytes) returns (ok: bool)
      requires valid ==> schemaStack != []
      modifies this
      ensures Same(Now(), Feed(old(Now()), Event.Key(name))) && ok == valid
    {
      hide Feed, FeedContexts, MemberSchema, Keyed;
      var e := Event.Key(name);
      if !valid { InvalidStays(Now(), e); return false; }
      var n := |schemaStack|;
      var below, top := schemaStack[..n - 1], schemaStack[n - 1];
      assert below + [top] == schemaStack;
      SchemaRun.FeedKey(root, below, top, name);
      match MemberSchema(top.schema, name) {
        case None =>
          valid := false;
          return false;
        case Some(next) =>
          schemaStack := below + [Keyed(top, name, next)];
          KeyedFed(below, top, name, next);
          Parallel(e);
          return true;
      }
    }

    method EndObject(memberCount: nat) returns (ok: bool)
      requires valid ==> schemaStack != []
      modifies this
      ensures Same(Now(), Feed(old(Now()), Event.EndObject(memberCount))) && ok == valid
    {
      hide Feed, FeedContexts, EndValueOk, EndObjectOk;
      var e := Event.EndObject(memberCount);
      if !valid { InvalidStays(Now(), e); return false; }
      EndFed(root, schemaStack, e);
      Parallel(e);
      ok := CheckObject(schemaStack[|schemaStack| - 1], memberCount);
      if ok { ok := EndValue(); }
      valid := ok;
    }

    method EndArray(elementCount: nat) returns (ok: bool)
      requires valid ==> schemaStack != []
      modifies this
      ensures Same(Now(), Feed(old(Now()), Event.EndArray(elementCount))) && ok == valid
    {
      hide Feed, FeedContexts, EndValueOk;
      var e := Event.EndArray(elementCount);
      if !valid { InvalidStays(Now(), e); return false; }
      EndFed(root, schemaStack, e);
      Parallel(e);
      ok := EndArrayOk(schemaStack[|schemaStack| - 1], elementCount);
      if ok { ok := EndValue(); }
      valid := ok;
    }
  }

  /** The loops of Schema::EndValue over the validators of a context. */
  method Combine(c: Context) returns (ok: bool)
    ensures ok == EndValueOk(c)
  {
    var s, any, one := c.schema, |c.schema.allOf|, |c.schema.allOf| + |c.schema.anyOf|;
    var i := 0;
    while i < |s.allOf|
      invariant 0 <= i <= |s.allOf|
      invariant AllValid(c.validators, 0, i)
    {
      if !ValidAt(c.validators, 0, i) { return false; }
      i := i + 1;
    }
    if s.anyOf != [] {
      i := 0;
      while i < |s.anyOf| && !ValidAt(c.validators, any, i)
        invariant 0 <= i <= |s.anyOf|
        invariant !AnyValid(c.validators, any, i)
      {
        i := i + 1;
      }
      if i == |s.anyOf| { return false; }
      assert AnyValid(c.validators, any, |s.anyOf|);
    }
    if s.oneOf != [] {
      var oneOk := CountOne(c.validators, one, |s.oneOf|);
      if !oneOk { return false; }
    }
    return s.not_.Some? ==> !ValidAt(c.validators, one, |s.oneOf|);
  }

  /** The oneOf loop: a second valid one ends it. */
  method CountOne(vs: seq<Validator>, from: nat, n: nat) returns (oneValid: bool)
    ensures oneValid == OneValid(vs, from, n)
  {
    oneValid := false;
    var i, first: nat := 0, 0;
    while i < n
      invariant 0 <= i <= n
      invariant oneValid ==> first < i && ValidAt(vs, from, first)
      invariant forall k :: 0 <= k < i && (!oneValid || k != first) ==> !ValidAt(vs, from, k)
    {
      if ValidAt(vs, from, i) {
        if oneValid { return false; }
        oneValid, first := true, i;
      }
      i := i + 1;
    }
  }

  /** Schema::EndObject: the loop over the required properties, then the counts. */
  method CheckObject(c: Context, memberCount: nat) returns (ok: bool)
    ensures ok == EndObjectOk(c, memberCount)
  {
    var ps := c.schema.properties;
    if HasRequired(c.schema) {
      var index := 0;
      while index < |ps|
        invariant 0 <= index <= |ps|
        invariant forall p :: 0 <= p < index && MustExist(ps[p]) ==> p < |c.propertyExist| && c.propertyExist[p]
      {
        if MustExist(ps[index]) && !(index < |c.propertyExist| && c.propertyExist[index]) { return false; }
        index := index + 1;
      }
    }
    return c.schema.minProperties <= memberCount <= c.schema.maxProperties;
  }

  lemma InvalidStays(v: Validator, e: Event)
    requires !v.valid
    ensures Feed(v, e) == v
  {
  }

  /** Whether the key is looked up before or after the parallel loop makes no difference. */
  lemma KeyedFed(below: seq<Context>, t: Context, name: bytes, next: Schema)
    ensures FeedContexts(below + [Keyed(t, name, next)], Key(name))
         == FeedContexts(below, Key(name)) + [Keyed(FeedContext(t, Key(name)), name, next)]
  {
    hide FeedContexts, FeedAll;
    SchemaRun.FeedPush(below, Keyed(t, name, next), Key(name));
  }

  lemma EndFed(root: Schema, stack: seq<Context>, e: Event)
    requires stack != [] && (e.EndObject? || e.EndArray?)
    ensures var fed := FeedContexts(stack, e);
            && fed != []
            && Feed(Validator(root, stack, true), e)
            == Validator(root, fed[..|fed| - 1], SchemaRun.EndOk(fed[|fed| - 1], e))
  {
    hide Feed, FeedContexts, SchemaRun.EndOk;
    var below, top := stack[..|stack| - 1], stack[|stack| - 1];
    assert below + [top] == stack;
    SchemaRun.FeedPush(below, top, e);
    SchemaRun.FeedEnd(root, below, top, e);
    var fed := FeedContexts(stack, e);
    assert fed[..|fed| - 1] == FeedContexts(below, e);
  }
}
