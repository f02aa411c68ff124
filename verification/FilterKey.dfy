/** FilterKeyHandler: drops every member of one key while events stream through, and the tree that this amounts to. */
module FilterKey {
  import opened Bytes
  import opened Dom
  import opened Sax

  /** The key to drop, and what the output handler returns for the last event of a log. */
  datatype Setting = Setting(key: bytes, continues: Log -> bool)

  /** filterValueDepth_, filteredKeyCount_, the events forwarded, and whether every call so far returned true. */
  datatype State = State(depth: nat, counts: seq<nat>, out: Log, ok: bool)

  function Send(c: Setting, s: State, e: Event): State {
    s.(out := s.out + [e], ok := c.continues(s.out + [e]))
  }

  function EndValue(s: State): State {
    if s.depth == 1 then s.(depth := 0) else s
  }

  /** One event; after a call that returned false the reader makes no more. */
  function Step(c: Setting, s: State, e: Event): State {
    if !s.ok then s
    else
      match e
      case StartObject =>
        if s.depth > 0 then s.(depth := s.depth + 1) else Send(c, s.(counts := s.counts + [0]), e)
      case StartArray =>
        if s.depth > 0 then s.(depth := s.depth + 1) else Send(c, s, e)
      case Key(text) =>
        if s.depth > 0 then s
        else if text == c.key then s.(depth := 1)
        else if s.counts == [] then s.(ok := false)
        else
          var n := |s.counts| - 1;
          Send(c, s.(counts := s.counts[n := s.counts[n] + 1]), e)
      case EndObject(_) =>
        if s.depth > 0 then EndValue(s.(depth := s.depth - 1))
        else if s.counts == [] then s.(ok := false)
        else
          var n := |s.counts| - 1;
          Send(c, s.(counts := s.counts[..n]), EndObject(s.counts[n]))
      case EndArray(_) =>
        if s.depth > 0 then EndValue(s.(depth := s.depth - 1)) else Send(c, s, e)
      case _ =>
        if s.depth > 0 then EndValue(s) else Send(c, s, e)
  }

  function Run(c: Setting, s: State, log: Log): State
    decreases |log|
  {
    if log == [] then s else Run(c, Step(c, s, log[0]), log[1..])
  }

  // ---------- What it amounts to ----------

  /** The tree without the members of the key, at every depth. */
  function Filtered(v: Value, key: bytes): Value
    decreases v
  {
    match v
    case ArrayValue(vs) => ArrayValue(FilteredElements(vs, key))
    case ObjectValue(ms) => ObjectValue(FilteredMembers(ms, key))
    case _ => v
  }

  function FilteredElements(vs: seq<Value>, key: bytes): (r: seq<Value>)
    ensures |r| == |vs|
    decreases vs
  {
    if vs == [] then [] else [Filtered(vs[0], key)] + FilteredElements(vs[1..], key)
  }

  function FilteredMembers(ms: seq<Member>, key: bytes): (r: seq<Member>)
    ensures forall k :: 0 <= k < |r| ==> r[k].name != key
    decreases ms
  {
    if ms == [] then []
    else if ms[0].name == key then FilteredMembers(ms[1..], key)
    else [Member(ms[0].name, Filtered(ms[0].value, key))] + FilteredMembers(ms[1..], key)
  }

  /** Forwarding a whole log, up to the first event that the output handler refuses. */
  function SendAll(c: Setting, s: State, log: Log): State
    decreases |log|
  {
    if log == [] || !s.ok then s else SendAll(c, Send(c, s, log[0]), log[1..])
  }

  /** The same output and the same verdict; and the same counters, unless the handler refused something. */
  predicate Like(a: State, b: State) {
    a.ok == b.ok && a.out == b.out && (a.ok ==> a == b)
  }

  lemma {:induction false} RunRefused(c: Setting, s: State, log: Log)
    requires !s.ok
    ensures Run(c, s, log) == s
    decreases |log|
  {
    if log != [] { RunRefused(c, s, log[1..]); }
  }

  lemma {:induction false} RunConcat(c: Setting, s: State, a: Log, b: Log)
    ensures Run(c, s, a + b) == Run(c, Run(c, s, a), b)
    decreases |a|
  {
    hide Step;
    if a == [] {
      assert a + b == b;
    } else {
      assert (a + b)[0] == a[0] && (a + b)[1..] == a[1..] + b;
      RunConcat(c, Step(c, s, a[0]), a[1..], b);
    }
  }

  lemma {:induction false} SendConcat(c: Setting, s: State, a: Log, b: Log)
    ensures SendAll(c, s, a + b) == SendAll(c, SendAll(c, s, a), b)
    decreases |a|
  {
    hide Send;
    if a == [] {
      assert a + b == b;
    } else {
      assert (a + b)[0] == a[0] && (a + b)[1..] == a[1..] + b;
      if s.ok { SendConcat(c, Send(c, s, a[0]), a[1..], b); }
    }
  }

  /** Forwarding does not look at the counters. */
  lemma {:induction false} SendKeeps(c: Setting, s: State, t: State, log: Log)
    requires s.out == t.out && s.ok == t.ok
    ensures SendAll(c, s, log).depth == s.depth && SendAll(c, s, log).counts == s.counts
    ensures SendAll(c, s, log).out == SendAll(c, t, log).out && SendAll(c, s, log).ok == SendAll(c, t, log).ok
    decreases |log|
  {
    if log != [] && s.ok { SendKeeps(c, Send(c, s, log[0]), Send(c, t, log[0]), log[1..]); }
  }

  lemma RunOne(c: Setting, s: State, e: Event)
    ensures Run(c, s, [e]) == Step(c, s, e)
  {
    hide Step;
    assert [e][1..] == [];
  }

  lemma SendOne(c: Setting, s: State, e: Event)
    ensures SendAll(c, s, [e]) == if s.ok then Send(c, s, e) else s
  {
    hide Send;
    assert [e][1..] == [];
  }

  /**
   Inside a dropped value nothing is forwarded, and the depth comes back to where it was, or to 0 after the outermost.
   */
  lemma {:induction false} SkipRun(c: Setting, s: State, v: Value, o: Origin)
    requires s.ok && s.depth > 0
    ensures Run(c, s, Events(v, o)) == EndValue(s)
    decreases v
  {
    hide Run, Step, Events;
    match v {
      case ArrayValue(vs) =>
        var inner := s.(depth := s.depth + 1);
        SkipElements(c, inner, vs, o);
        SkipBracket(c, s, StartArray, ElementEvents(vs, o), EndArray(|vs|));
        assert Events(v, o) == [StartArray] + ElementEvents(vs, o) + [EndArray(|vs|)] by { EventsOf(v, o); }
      case ObjectValue(ms) =>
        var inner := s.(depth := s.depth + 1);
        SkipMembers(c, inner, ms, o);
        SkipBracket(c, s, StartObject, MemberEvents(ms, o), EndObject(|ms|));
        assert Events(v, o) == [StartObject] + MemberEvents(ms, o) + [EndObject(|ms|)] by { EventsOf(v, o); }
      case _ =>
        ScalarEvents(v, o);
        RunOne(c, s, Events(v, o)[0]);
        SkipScalar(c, s, Events(v, o)[0]);
    }
  }

  predicate ScalarEvent(e: Event) {
    !e.Key? && !e.StartObject? && !e.EndObject? && !e.StartArray? && !e.EndArray?
  }

  lemma ScalarEvents(v: Value, o: Origin)
    requires !v.ArrayValue? && !v.ObjectValue?
    ensures |Events(v, o)| == 1 && Events(v, o) == [Events(v, o)[0]] && ScalarEvent(Events(v, o)[0])
  {
  }

  lemma EventsOf(v: Value, o: Origin)
    ensures v.ArrayValue? ==> Events(v, o) == [StartArray] + ElementEvents(v.elements, o) + [EndArray(|v.elements|)]
    ensures v.ObjectValue? ==> Events(v, o) == [StartObject] + MemberEvents(v.members, o) + [EndObject(|v.members|)]
  {
  }

  lemma SkipScalar(c: Setting, s: State, e: Event)
    requires s.ok && s.depth > 0 && ScalarEvent(e)
    ensures Step(c, s, e) == EndValue(s)
  {
  }

  lemma SkipBracket(c: Setting, s: State, open: Event, body: Log, close: Event)
    requires s.ok && s.depth > 0
    requires (open.StartArray? && close.EndArray?) || (open.StartObject? && close.EndObject?)
    requires Run(c, s.(depth := s.depth + 1), body) == s.(depth := s.depth + 1)
    ensures Run(c, s, [open] + body + [close]) == EndValue(s)
  {
    RunConcat(c, s, [open] + body, [close]);
    RunConcat(c, s, [open], body);
    hide Run;
    RunOne(c, s, open);
    RunOne(c, s.(depth := s.depth + 1), close);
  }

  lemma {:induction false} SkipElements(c: Setting, s: State, vs: seq<Value>, o: Origin)
    requires s.ok && s.depth > 1
    ensures Run(c, s, ElementEvents(vs, o)) == s
    decreases vs
  {
    hide Step, Events;
    if vs != [] {
      RunConcat(c, s, Events(vs[0], o), ElementEvents(vs[1..], o));
      SkipRun(c, s, vs[0], o);
      SkipElements(c, s, vs[1..], o);
    }
  }

  lemma {:induction false} SkipMembers(c: Setting, s: State, ms: seq<Member>, o: Origin)
    requires s.ok && s.depth > 1
    ensures Run(c, s, MemberEvents(ms, o)) == s
    decreases ms
  {
    hide Events;
    if ms != [] {
      var key, value, rest := [Key(ms[0].name)], Events(ms[0].value, o), MemberEvents(ms[1..], o);
      RunConcat(c, s, key + value, rest);
      RunConcat(c, s, key, value);
      hide Run;
      RunOne(c, s, Key(ms[0].name));
      SkipRun(c, s, ms[0].value, o);
      SkipMembers(c, s, ms[1..], o);
    }
  }

  // ---------- Outside dropped values ----------

  /** Two logs one after the other: both are filtered the way their concatenation is. */
  lemma LikeConcat(c: Setting, s: State, t: State, a: Log, b: Log, fa: Log, fb: Log)
    requires Like(Run(c, s, a), SendAll(c, t, fa))
    requires SendAll(c, t, fa).ok ==> Like(Run(c, SendAll(c, t, fa), b), SendAll(c, SendAll(c, t, fa), fb))
    ensures Like(Run(c, s, a + b), SendAll(c, t, fa + fb))
  {
    RunConcat(c, s, a, b);
    SendConcat(c, t, fa, fb);
    if !SendAll(c, t, fa).ok {
      RunRefused(c, Run(c, s, a), b);
      SendRefused(c, SendAll(c, t, fa), fb);
    }
  }

  lemma SendRefused(c: Setting, s: State, log: Log)
    requires !s.ok
    ensures SendAll(c, s, log) == s
  {
  }

  lemma SendCounts(c: Setting, s: State, counts: seq<nat>, log: Log)
    ensures SendAll(c, s.(counts := counts), log) == SendAll(c, s, log).(counts := counts)
  {
    SendKeeps(c, s, s.(counts := counts), log);
    SendKeeps(c, s.(counts := counts), s, log);
  }

  /** The events of any tree come out as the events of the filtered tree, and the counters come back as they were. */
  lemma {:induction false} FilterRun(c: Setting, s: State, v: Value, o: Origin)
    requires s.ok && s.depth == 0
    ensures Like(Run(c, s, Events(v, o)), SendAll(c, s, Events(Filtered(v, c.key), o)))
    decreases v
  {
    hide Run, Step, SendAll, Events, Send;
    match v {
      case ArrayValue(vs) =>
        ArrayRun(c, s, vs, o);
      case ObjectValue(ms) =>
        ObjectRun(c, s, ms, o);
      case _ =>
        ScalarEvents(v, o);
        RunOne(c, s, Events(v, o)[0]);
        SendOne(c, s, Events(v, o)[0]);
        SendScalar(c, s, Events(v, o)[0]);
    }
  }

  lemma SendScalar(c: Setting, s: State, e: Event)
    requires s.ok && s.depth == 0 && (ScalarEvent(e) || e.StartArray? || e.EndArray?)
    ensures Step(c, s, e) == Send(c, s, e)
  {
  }

  lemma {:induction false} ArrayRun(c: Setting, s: State, vs: seq<Value>, o: Origin)
    requires s.ok && s.depth == 0
    ensures Like(Run(c, s, Events(ArrayValue(vs), o)),
                 SendAll(c, s, Events(ArrayValue(FilteredElements(vs, c.key)), o)))
    decreases vs, 1
  {
    hide Run, Step, SendAll, Events, Send;
    var fs := FilteredElements(vs, c.key);
    var body, fbody, close := ElementEvents(vs, o), ElementEvents(fs, o), EndArray(|vs|);
    EventsOf(ArrayValue(vs), o);
    EventsOf(ArrayValue(fs), o);
    RunOne(c, s, StartArray);
    SendOne(c, s, StartArray);
    SendScalar(c, s, StartArray);
    var s1 := SendAll(c, s, [StartArray]);
    SendKeeps(c, s, s, [StartArray]);
    if s1.ok { ElementsRun(c, s1, vs, o); }
    LikeConcat(c, s, s, [StartArray], body, [StartArray], fbody);
    var s2 := SendAll(c, s, [StartArray] + fbody);
    SendKeeps(c, s, s, [StartArray] + fbody);
    if s2.ok {
      RunOne(c, s2, close);
      SendOne(c, s2, close);
      SendScalar(c, s2, close);
    }
    LikeConcat(c, s, s, [StartArray] + body, [close], [StartArray] + fbody, [close]);
  }

  lemma {:induction false} ElementsRun(c: Setting, s: State, vs: seq<Value>, o: Origin)
    requires s.ok && s.depth == 0
    ensures Like(Run(c, s, ElementEvents(vs, o)), SendAll(c, s, ElementEvents(FilteredElements(vs, c.key), o)))
    decreases vs, 0
  {
    hide Step, Events, Send;
    if vs != [] {
      var f := Filtered(vs[0], c.key);
      var fs := FilteredElements(vs, c.key);
      assert fs[0] == f && fs[1..] == FilteredElements(vs[1..], c.key);
      FilterRun(c, s, vs[0], o);
      var s1 := SendAll(c, s, Events(f, o));
      SendKeeps(c, s, s, Events(f, o));
      if s1.ok { ElementsRun(c, s1, vs[1..], o); }
      LikeConcat(c, s, s, Events(vs[0], o), ElementEvents(vs[1..], o), Events(f, o), ElementEvents(fs[1..], o));
    }
  }

  lemma OpenObject(c: Setting, s: State)
    requires s.ok && s.depth == 0
    ensures Step(c, s, StartObject) == Send(c, s.(counts := s.counts + [0]), StartObject)
  {
  }

  lemma CloseObject(c: Setting, s: State, counts: seq<nat>, n: nat, m: nat)
    requires s.ok && s.depth == 0 && s.counts == counts + [n]
    ensures Step(c, s, EndObject(m)) == Send(c, s.(counts := counts), EndObject(n))
  {
    assert s.counts[..|s.counts| - 1] == counts;
  }

  lemma {:induction false} ObjectRun(c: Setting, s: State, ms: seq<Member>, o: Origin)
    requires s.ok && s.depth == 0
    ensures Like(Run(c, s, Events(ObjectValue(ms), o)),
                 SendAll(c, s, Events(ObjectValue(FilteredMembers(ms, c.key)), o)))
    decreases ms, 1
  {
    hide Run, Step, SendAll, Events, Send;
    var fs := FilteredMembers(ms, c.key);
    var n := |fs|;
    var body, fbody := MemberEvents(ms, o), MemberEvents(fs, o);
    EventsOf(ObjectValue(ms), o);
    EventsOf(ObjectValue(fs), o);
    var t := s.(counts := s.counts + [0]);
    RunOne(c, s, StartObject);
    OpenObject(c, s);
    SendOne(c, t, StartObject);
    SendKeeps(c, t, t, [StartObject]);
    var t1 := SendAll(c, t, [StartObject]);
    if t1.ok { MembersRun(c, t1, s.counts, 0, ms, o); }
    ObjectBody(c, s, body, fbody, n);
    var u := s.(counts := s.counts + [n]);
    var u2 := SendAll(c, u, [StartObject] + fbody);
    SendKeeps(c, u, u, [StartObject] + fbody);
    ObjectEnd(c, s, [StartObject] + body, [StartObject] + fbody, n, |ms|);
  }

  lemma ObjectBody(c: Setting, s: State, body: Log, fbody: Log, n: nat)
    requires s.ok && s.depth == 0
    requires var t1 := SendAll(c, s.(counts := s.counts + [0]), [StartObject]);
             && Run(c, s, [StartObject]) == t1
             && (t1.ok ==> Like(Run(c, t1, body), SendAll(c, t1.(counts := s.counts + [n]), fbody)))
    ensures Like(Run(c, s, [StartObject] + body), SendAll(c, s.(counts := s.counts + [n]), [StartObject] + fbody))
  {
    hide Step, Send;
    var t, u := s.(counts := s.counts + [0]), s.(counts := s.counts + [n]);
    SendCounts(c, t, s.counts + [n], [StartObject]);
    assert t.(counts := s.counts + [n]) == u;
    RunConcat(c, s, [StartObject], body);
    SendConcat(c, u, [StartObject], fbody);
    if !SendAll(c, t, [StartObject]).ok {
      RunRefused(c, Run(c, s, [StartObject]), body);
      SendRefused(c, SendAll(c, u, [StartObject]), fbody);
    }
  }

  lemma ObjectEnd(c: Setting, s: State, log: Log, flog: Log, n: nat, m: nat)
    requires s.ok && s.depth == 0
    requires Like(Run(c, s, log), SendAll(c, s.(counts := s.counts + [n]), flog))
    ensures Like(Run(c, s, log + [EndObject(m)]), SendAll(c, s, flog + [EndObject(n)]))
  {
    hide Step, Send, Run, SendAll;
    var u := s.(counts := s.counts + [n]);
    SendCounts(c, s, s.counts + [n], flog);
    SendKeeps(c, s, s, flog);
    RunConcat(c, s, log, [EndObject(m)]);
    SendConcat(c, s, flog, [EndObject(n)]);
    var w := SendAll(c, s, flog);
    if w.ok {
      RunOne(c, Run(c, s, log), EndObject(m));
      CloseObject(c, w.(counts := s.counts + [n]), s.counts, n, m);
      SendOne(c, w, EndObject(n));
    } else {
      RunRefused(c, Run(c, s, log), [EndObject(m)]);
      SendRefused(c, w, [EndObject(n)]);
    }
  }

  lemma KeptKey(c: Setting, s: State, counts: seq<nat>, n: nat, name: bytes)
    requires s.ok && s.depth == 0 && s.counts == counts + [n] && name != c.key
    ensures Step(c, s, Key(name)) == Send(c, s.(counts := counts + [n + 1]), Key(name))
  {
    assert s.counts[|s.counts| - 1 := n + 1] == counts + [n + 1];
  }

  lemma DroppedKey(c: Setting, s: State, name: bytes)
    requires s.ok && s.depth == 0 && name == c.key
    ensures Step(c, s, Key(name)) == s.(depth := 1)
  {
  }

  /** The members of an object: the count on top of the stack ends as the number of those kept. */
  lemma {:induction false} MembersRun(c: Setting, s: State, counts: seq<nat>, n: nat, ms: seq<Member>, o: Origin)
    requires s.ok && s.depth == 0 && s.counts == counts + [n]
    ensures var fs := FilteredMembers(ms, c.key);
            Like(Run(c, s, MemberEvents(ms, o)), SendAll(c, s.(counts := counts + [n + |fs|]), MemberEvents(fs, o)))
    decreases ms, 0
  {
    hide Step, Events, Send;
    if ms != [] {
      var fs := FilteredMembers(ms, c.key);
      var key, value, rest := [Key(ms[0].name)], Events(ms[0].value, o), MemberEvents(ms[1..], o);
      RunConcat(c, s, key + value, rest);
      RunConcat(c, s, key, value);
      RunOne(c, s, Key(ms[0].name));
      hide Run, SendAll;
      if ms[0].name == c.key {
        DroppedKey(c, s, ms[0].name);
        SkipRun(c, s.(depth := 1), ms[0].value, o);
        MembersRun(c, s, counts, n, ms[1..], o);
      } else {
        var f := Filtered(ms[0].value, c.key);
        var tail := FilteredMembers(ms[1..], c.key);
        assert fs[0] == Member(ms[0].name, f) && fs[1..] == tail;
        var t := s.(counts := counts + [n + 1]);
        KeptKey(c, s, counts, n, ms[0].name);
        SendOne(c, t, Key(ms[0].name));
        SendKeeps(c, t, t, key);
        var t1 := SendAll(c, t, key);
        if t1.ok { FilterRun(c, t1, ms[0].value, o); }
        LikeConcat(c, s, t, key, value, key, Events(f, o));
        SendKeeps(c, t, t, key + Events(f, o));
        var t2 := SendAll(c, t, key + Events(f, o));
        if t2.ok { MembersRun(c, t2, counts, n + 1, ms[1..], o); }
        MemberThen(c, s, t, counts + [n + 1 + |tail|], key + value, key + Events(f, o), rest, MemberEvents(tail, o));
      }
    }
  }

  lemma MemberThen(c: Setting, s: State, t: State, counts: seq<nat>, a: Log, fa: Log, b: Log, fb: Log)
    requires Like(Run(c, s, a), SendAll(c, t, fa))
    requires var t2 := SendAll(c, t, fa);
             t2.ok ==> Like(Run(c, t2, b), SendAll(c, t2.(counts := counts), fb))
    ensures Like(Run(c, s, a + b), SendAll(c, t.(counts := counts), fa + fb))
  {
    hide Step, Send, Run, SendAll;
    SendCounts(c, t, counts, fa);
    RunConcat(c, s, a, b);
    SendConcat(c, t.(counts := counts), fa, fb);
    if !SendAll(c, t, fa).ok {
      RunRefused(c, Run(c, s, a), b);
      SendRefused(c, SendAll(c, t.(counts := counts), fa), fb);
    }
  }

  /** A whole document through a new filter: the output is that of the filtered tree, and the filter is as new. */
  lemma FilterDocument(c: Setting, v: Value, o: Origin)
    requires forall log :: c.continues(log)
    ensures Run(c, State(0, [], [], true), Events(v, o)) == State(0, [], Events(Filtered(v, c.key), o), true)
  {
    hide Run, Events;
    FilterRun(c, State(0, [], [], true), v, o);
    SendEverything(c, State(0, [], [], true), Events(Filtered(v, c.key), o));
    assert [] + Events(Filtered(v, c.key), o) == Events(Filtered(v, c.key), o);
  }

  lemma {:induction false} SendEverything(c: Setting, s: State, log: Log)
    requires s.ok && forall l :: c.continues(l)
    ensures SendAll(c, s, log) == s.(out := s.out + log)
    decreases |log|
  {
    if log == [] {
      assert s.out + log == s.out;
    } else {
      SendEverything(c, Send(c, s, log[0]), log[1..]);
      assert s.out + [log[0]] + log[1..] == s.out + log;
    }
  }

  class FilterKeyHandler {
    const c: Setting
    var filterValueDepth: nat
    var filteredKeyCount: seq<nat>
    /** The events the output handler was sent. */
    var out: Log

    constructor (c: Setting)
      ensures this.c == c && Now(true) == State(0, [], [], true)
    {
      this.c := c;
      filterValueDepth, filteredKeyCount, out := 0, [], [];
    }

    function Now(ok: bool): State
      reads this
    {
      State(filterValueDepth, filteredKeyCount, out, ok)
    }

    method Forward(e: Event) returns (ok: bool)
      modifies this`out
      ensures out == old(out) + [e] && ok == c.continues(out)
    {
      out := out + [e];
      ok := c.continues(out);
    }

    method AfterValue()
      modifies this`filterValueDepth
      ensures Now(true) == EndValue(old(Now(true)))
    {
      if filterValueDepth == 1 { filterValueDepth := 0; }
    }

    /** Null, Bool, Int, Uint, Int64, Uint64, Double and String. */
    method Scalar(e: Event) returns (ok: bool)
      requires ScalarEvent(e)
      modifies this
      ensures Now(ok) == Step(c, old(Now(true)), e)
    {
      if filterValueDepth > 0 {
        AfterValue();
        return true;
      }
      ok := Forward(e);
      if ok { AfterValue(); }
    }

    method StartObject() returns (ok: bool)
      modifies this
      ensures Now(ok) == Step(c, old(Now(true)), Event.StartObject)
    {
      if filterValueDepth > 0 {
        filterValueDepth := filterValueDepth + 1;
        return true;
      }
      filteredKeyCount := filteredKeyCount + [0];
      ok := Forward(Event.StartObject);
    }

    method Key(text: bytes) returns (ok: bool)
      requires filterValueDepth == 0 ==> filteredKeyCount != []
      modifies this
      ensures Now(ok) == Step(c, old(Now(true)), Event.Key(text))
    {
      if filterValueDepth > 0 { return true; }
      if text == c.key {
        filterValueDepth := 1;
        return true;
      }
      var n := |filteredKeyCount| - 1;
      filteredKeyCount := filteredKeyCount[n := filteredKeyCount[n] + 1];
      ok := Forward(Event.Key(text));
    }

    method EndObject(memberCount: nat) returns (ok: bool)
      requires filterValueDepth == 0 ==> filteredKeyCount != []
      modifies this
      ensures Now(ok) == Step(c, old(Now(true)), Event.EndObject(memberCount))
    {
      if filterValueDepth > 0 {
        filterValueDepth := filterValueDepth - 1;
        AfterValue();
        return true;
      }
      var n := |filteredKeyCount| - 1;
      var kept := filteredKeyCount[n];
      filteredKeyCount := filteredKeyCount[..n];
      ok := Forward(Event.EndObject(kept));
      if ok { AfterValue(); }
    }

    method StartArray() returns (ok: bool)
      modifies this
      ensures Now(ok) == Step(c, old(Now(true)), Event.StartArray)
    {
      if filterValueDepth > 0 {
        filterValueDepth := filterValueDepth + 1;
        return true;
      }
      ok := Forward(Event.StartArray);
    }

    method EndArray(elementCount: nat) returns (ok: bool)
      modifies this
      ensures Now(ok) == Step(c, old(Now(true)), Event.EndArray(elementCount))
    {
      if filterValueDepth > 0 {
        filterValueDepth := filterValueDepth - 1;
        AfterValue();
        return true;
      }
      ok := Forward(Event.EndArray(elementCount));
      if ok { AfterValue(); }
    }
  }
}
