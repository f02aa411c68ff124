/** Reader and validator one behind the other: any accepted text, validated while it is read. */
module ValidatorPipeline {
  import opened Accepted
  import opened Bytes
  import opened Dom
  import opened Sax
  import opened Schema
  import opened Validator
  import opened Wrappers
  import G = Grammar
  import S = Stopping
  import SR = SchemaRun

  lemma {:induction false} StartAllPlained(ss: seq<Schema>, e: Event)
    ensures StartAll(ss, Plain(e)) == StartAll(ss, e)
    decreases ss
  {
    if ss != [] {
      StartPlained(ss[0], e);
      StartAllPlained(ss[1..], e);
    }
  }

  /** A new validator, the validators of the combinators inside it included, does not see the sign of a zero. */
  lemma {:induction false} StartPlained(s: Schema, e: Event)
    ensures Opened(s, Plain(e)) == Opened(s, e)
    ensures Start(s, Plain(e)) == Start(s, e)
    decreases s
  {
    hide EndValueOk, StartAll;
    StartAllPlained(s.allOf, e);
    StartAllPlained(s.anyOf, e);
    StartAllPlained(s.oneOf, e);
    if s.not_.Some? { StartPlained(s.not_.value, e); }
    assert Opened(s, Plain(e)) == Opened(s, e);
    assert Enter(s, [], s, Plain(e)) == Enter(s, [], s, e);
  }

  lemma {:induction false} FeedPlained(v: Validator, e: Event)
    ensures Feed(v, Plain(e)) == Feed(v, e)
    decreases v
  {
    hide Start, FeedContexts, Advance;
    if v.valid {
      if v.stack == [] {
        StartPlained(v.root, e);
      } else {
        FeedContextsPlained(v.stack, e);
        AdvancePlained(v.root, FeedContexts(v.stack, e), e);
      }
    }
  }

  lemma AdvancePlained(root: Schema, stack: seq<Context>, e: Event)
    requires stack != []
    ensures Advance(root, stack, Plain(e)) == Advance(root, stack, e)
  {
    hide Opened, EndValueOk, EndObjectOk, EndArrayOk, Keyed, Begun;
    match NextSchema(stack[|stack| - 1]) {
      case None =>
      case Some(next) => StartPlained(next, e);
    }
  }

  lemma {:induction false} FeedContextsPlained(cs: seq<Context>, e: Event)
    ensures FeedContexts(cs, Plain(e)) == FeedContexts(cs, e)
    decreases cs
  {
    hide FeedAll;
    if cs != [] {
      FeedAllPlained(cs[0].validators, e);
      FeedContextsPlained(cs[1..], e);
    }
  }

  lemma {:induction false} FeedAllPlained(vs: seq<Validator>, e: Event)
    ensures FeedAll(vs, Plain(e)) == FeedAll(vs, e)
    decreases vs
  {
    hide Feed;
    if vs != [] {
      FeedPlained(vs[0], e);
      FeedAllPlained(vs[1..], e);
    }
  }

  lemma {:induction false} RunPlained(v: Validator, log: Log)
    ensures Run(v, Plained(log)) == Run(v, log)
    decreases |log|
  {
    hide Feed;
    if log != [] {
      assert Plained(log)[1..] == Plained(log[1..]);
      FeedPlained(v, log[0]);
      RunPlained(Feed(v, log[0]), log[1..]);
    }
  }

  /**
   The verdict on any accepted text: the validator that has taken the reader's events is valid exactly when the tree
   that the document handler builds from them satisfies the schema.
   */
  lemma AcceptedValidated(c: G.Config, s: bytes, schema: Schema) returns (v: Value)
    requires G.PDocument(c, s).Ok?
    ensures DocumentRun([], G.PDocument(c, s).log) == Some([v])
    ensures Run(Validator(schema, [], true), G.PDocument(c, s).log).valid == Satisfies(schema, v, Code)
  {
    hide G.PDocument, DocumentRun, Plained, Ranged, Run, Satisfies, Events;
    v := AcceptedSendsTree(c, s);
    RunPlained(Validator(schema, [], true), G.PDocument(c, s).log);
    SR.ValidatorDecides(schema, v, FromText);
  }

  /** A reader whose handler is a new validator: it goes on as long as that is valid. */
  function Validating(c: G.Config, schema: Schema): G.Config {
    c.(continues := (log: Log) => Run(Validator(schema, [], true), log).valid)
  }

  lemma StaysInvalid(v: Validator, log: Log, k: nat)
    requires k <= |log| && !Run(v, log[..k]).valid
    ensures !Run(v, log).valid
  {
    RunConcat(v, log[..k], log[k..]);
    assert log[..k] + log[k..] == log;
    RunInvalid(Run(v, log[..k]), log[k..]);
  }

  /**
   The schemavalidator program on a text that is JSON under the flags: parsing ends early exactly when the tree of the
   text does not satisfy the schema, and whether it ends early or not the validator then says so.
   */
  lemma SchemaValidator(c: G.Config, s: bytes, schema: Schema) returns (v: Value)
    requires G.PDocument(S.Unstopped(c), s).Ok?
    ensures DocumentRun([], G.PDocument(S.Unstopped(c), s).log) == Some([v])
    ensures var r := G.PDocument(Validating(c, schema), s);
      && r.Ok? == Satisfies(schema, v, Code)
      && Run(Validator(schema, [], true), r.log).valid == Satisfies(schema, v, Code)
  {
    hide G.PDocument, DocumentRun, Run, Satisfies;
    v := AcceptedValidated(S.Unstopped(c), s, schema);
    var d := Validating(c, schema);
    assert S.Unstopped(d) == S.Unstopped(c);
    S.DocumentCut(d, s);
    var log := G.PDocument(S.Unstopped(c), s).log;
    S.RefusalIn(d, log, 0);
    match S.Refusal(d, log, 0) {
      case None =>
        NewIsValid(schema);
        assert log[..|log|] == log;
      case Some(k) =>
        StaysInvalid(Validator(schema, [], true), log, k);
    }
  }

  lemma NewIsValid(schema: Schema)
    ensures Run(Validator(schema, [], true), []).valid
  {
  }
}
