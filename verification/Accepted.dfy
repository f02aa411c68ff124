/** What the reader sends for any text that it accepts: the events of one tree, which printing keeps. */
module Accepted {
  import opened Bytes
  import opened Characters
  import opened Dom
  import opened Grammar
  import opened JsonText
  import opened Lexemes
  import opened Sax
  import opened Wrappers
  import P = Pushdown
  import R = RoundTrip
  import W = Writer

  /** Every integer of the tree is one of 64 bits. */
  predicate Ranged(v: Value)
    decreases v
  {
    match v
    case NumberValue(n) => R.InRange(n)
    case ArrayValue(vs) => forall k :: 0 <= k < |vs| ==> Ranged(vs[k])
    case ObjectValue(ms) => forall k :: 0 <= k < |ms| ==> Ranged(ms[k].value)
    case _ => true
  }

  predicate AllRanged(vs: seq<Value>) { forall k :: 0 <= k < |vs| ==> Ranged(vs[k]) }

  predicate MembersRanged(ms: seq<Member>) { forall k :: 0 <= k < |ms| ==> Ranged(ms[k].value) }

  lemma RangedContainers(vs: seq<Value>, ms: seq<Member>)
    ensures AllRanged(vs) ==> Ranged(ArrayValue(vs))
    ensures MembersRanged(ms) ==> Ranged(ObjectValue(ms))
  {
  }

  lemma ElementsMore(v: Value, vs: seq<Value>)
    ensures ElementEvents([v] + vs, FromText) == Events(v, FromText) + ElementEvents(vs, FromText)
    ensures Ranged(v) && AllRanged(vs) ==> AllRanged([v] + vs)
  {
    hide Ranged;
    assert ([v] + vs)[1..] == vs;
  }

  lemma MembersMore(m: Member, ms: seq<Member>)
    ensures MemberEvents([m] + ms, FromText)
         == [Key(m.name)] + Events(m.value, FromText) + MemberEvents(ms, FromText)
    ensures Ranged(m.value) && MembersRanged(ms) ==> MembersRanged([m] + ms)
  {
    hide Ranged;
    assert ([m] + ms)[1..] == ms;
  }

  lemma EmptyContainers()
    ensures ElementEvents([], FromText) == [] && AllRanged([]) && MemberEvents([], FromText) == [] && MembersRanged([])
  {
  }

  // ---------- Spelling, put together ----------

  lemma {:induction false} GapConcat(c: Config, s: bytes, i: nat, j: nat, k: nat)
    requires IsGap(c, s, i, j) && IsGap(c, s, j, k)
    ensures IsGap(c, s, i, k)
    decreases j - i
  {
    hide IsFiller;
    if i < j {
      var m :| i < m <= j && IsFiller(c, s, i, m) && IsGap(c, s, m, j);
      GapConcat(c, s, m, j, k);
    }
  }

  lemma GapElements(c: Config, s: bytes, i: nat, k: nat, j: nat, vs: seq<Value>)
    requires IsGap(c, s, i, k) && IsElements(c, s, k, j, vs)
    ensures IsElements(c, s, i, j, vs)
  {
    hide IsGap, IsValue, IsMoreElements;
    var a, b :|
      k <= a < b <= j && IsGap(c, s, k, a) && IsValue(c, s, a, b, vs[0]) && IsMoreElements(c, s, b, j, vs[1..]);
    GapConcat(c, s, i, k, a);
    GapForward(c, s, i, k);
  }

  lemma GapForward(c: Config, s: bytes, i: nat, k: nat)
    requires IsGap(c, s, i, k)
    ensures i <= k <= |s|
  {
  }

  lemma GapName(c: Config, s: bytes, i: nat, k: nat, j: nat, name: bytes)
    requires IsGap(c, s, i, k) && IsName(c, s, k, j, name)
    ensures IsName(c, s, i, j, name) && i <= k < j
  {
    hide IsGap, IsKey;
    var m :| k < m < j && m < |s| && s[m] == 0x3A && IsKey(c, s, k, m, name) && IsGap(c, s, m + 1, j);
    GapKey(c, s, i, k, m, name);
    GapForward(c, s, i, k);
  }

  lemma GapKey(c: Config, s: bytes, i: nat, k: nat, j: nat, name: bytes)
    requires IsGap(c, s, i, k) && IsKey(c, s, k, j, name)
    ensures IsKey(c, s, i, j, name)
  {
    hide IsGap, IsString;
    var a, b :| k <= a < b <= j && IsGap(c, s, k, a) && IsString(s, a, b, name) && IsGap(c, s, b, j);
    GapConcat(c, s, i, k, a);
    GapForward(c, s, i, k);
  }

  lemma GapMembers(c: Config, s: bytes, i: nat, k: nat, j: nat, ms: seq<Member>)
    requires IsGap(c, s, i, k) && IsMembers(c, s, k, j, ms)
    ensures IsMembers(c, s, i, j, ms)
  {
    hide IsGap, IsValue, IsMoreMembers, IsName;
    var a, b :|
      k < a < b <= j && IsName(c, s, k, a, ms[0].name) && IsValue(c, s, a, b, ms[0].value)
      && IsMoreMembers(c, s, b, j, ms[1..]);
    GapName(c, s, i, k, a, ms[0].name);
  }

  lemma EmptyGap(c: Config, s: bytes, i: nat)
    requires i <= |s|
    ensures IsGap(c, s, i, i)
  {
  }

  // ---------- What an accepted text spells and sends ----------

  lemma NumberSends(c: Config, s: bytes, i: nat, log: Log) returns (v: Value)
    requires i <= |s| && PNumber(c, s, i, log).Ok?
    ensures Sends(log, PNumber(c, s, i, log).log, Events(v, FromText)) && Ranged(v)
    ensures IsValue(c, s, i, PNumber(c, s, i, log).pos, v)
  {
    hide PNumber, Sends, NumberOf, Events;
    v := NumberSpells(c, s, i, log);
    var minus := At(s, i) == MINUS;
    SendsOne(log, NumberSent(minus, v));
    NumberSentPlain(minus, v);
  }

  lemma StringSends(c: Config, s: bytes, i: nat, log: Log, isKey: bool) returns (text: bytes)
    requires At(s, i) == QUOTE && PString(c, s, i, log, isKey).Ok?
    ensures Sends(log, PString(c, s, i, log, isKey).log, [if isKey then Key(text) else String(text)])
    ensures IsString(s, i, PString(c, s, i, log, isKey).pos, text)
  {
    hide StringBody, Sends, IsBody;
    match StringBody(s, i + 1, []) {
      case Malformed => text := [];
      case Text(next, t) =>
        text := t;
        StringExactly(s, i + 1, next, t);
    }
    SendsOne(log, if isKey then Key(text) else String(text));
  }

  lemma LiteralSends(c: Config, s: bytes, i: nat, text: bytes, e: Event, log: Log)
    requires |text| > 0 && PLiteral(c, s, i, text, e, log).Ok? && e != Int(0)
    ensures var r := PLiteral(c, s, i, text, e, log);
      i < r.pos <= |s| && s[i..r.pos] == text && Sends(log, r.log, [e])
  {
    hide Sends;
    SendsOne(log, e);
  }

  /** What ParseValue takes for a value spells one tree, and what it sends is the events of that tree. */
  lemma {:induction false} ValueSends(c: Config, s: bytes, i: nat, log: Log) returns (v: Value)
    requires i <= |s| && PValue(c, s, i, log).Ok?
    ensures Sends(log, PValue(c, s, i, log).log, Events(v, FromText)) && Ranged(v)
    ensures IsValue(c, s, i, PValue(c, s, i, log).pos, v)
    decreases |s| - i, 1
  {
    hide PLiteral, PNumber, PString, PObject, PArray, Sends, IsElements, IsMembers, IsNumber, IsGap, IsString;
    var b := At(s, i);
    if b == LOWER_N {
      v := NullValue;
      LiteralSends(c, s, i, NULL_TEXT, Null, log);
    } else if b == LOWER_T {
      v := BoolValue(true);
      LiteralSends(c, s, i, TRUE_TEXT, Bool(true), log);
    } else if b == LOWER_F {
      v := BoolValue(false);
      LiteralSends(c, s, i, FALSE_TEXT, Bool(false), log);
    } else if b == QUOTE {
      var text := StringSends(c, s, i, log, false);
      v := StringValue(text);
    } else if b == LEFT_BRACE {
      v := ObjectSends(c, s, i, log);
    } else if b == LEFT_BRACKET {
      v := ArraySends(c, s, i, log);
    } else {
      v := NumberSends(c, s, i, log);
    }
  }

  lemma {:induction false} ArraySends(c: Config, s: bytes, i: nat, log: Log) returns (v: Value)
    requires At(s, i) == LEFT_BRACKET && PArray(c, s, i, log).Ok?
    ensures Sends(log, PArray(c, s, i, log).log, Events(v, FromText)) && Ranged(v)
    ensures IsValue(c, s, i, PArray(c, s, i, log).pos, v)
    decreases |s| - i, 0
  {
    hide PElements, Skip, Sends, Ranged, AllRanged, IsElements, IsGap;
    var log1 := log + [StartArray];
    SendsOne(log, StartArray);
    EmptyContainers();
    var vs := [];
    var r2 := Skip(c, s, i + 1, log1);
    SkippedGap(c, s, i + 1, log1);
    if At(s, r2.pos) == RIGHT_BRACKET {
      SendsOne(log1, EndArray(0));
      SendsBoth(log, log1, log1 + [EndArray(0)], [StartArray], [EndArray(0)]);
      assert [StartArray] + [] + [EndArray(0)] == [StartArray] + [EndArray(0)];
    } else {
      vs := ElementsSend(c, s, r2.pos, 0, log1);
      GapElements(c, s, i + 1, r2.pos, PElements(c, s, r2.pos, 0, log1).pos - 1, vs);
      var body := ElementEvents(vs, FromText);
      SendsBoth(log, log1, PElements(c, s, r2.pos, 0, log1).log, [StartArray], body + [EndArray(|vs|)]);
      assert [StartArray] + body + [EndArray(|vs|)] == [StartArray] + (body + [EndArray(|vs|)]);
    }
    RangedContainers(vs, []);
    v := ArrayValue(vs);
  }

  lemma {:induction false} ElementsSend(c: Config, s: bytes, i: nat, count: nat, log: Log) returns (vs: seq<Value>)
    requires i <= |s| && PElements(c, s, i, count, log).Ok?
    ensures Sends(log, PElements(c, s, i, count, log).log, ElementEvents(vs, FromText) + [EndArray(count + |vs|)])
    ensures AllRanged(vs) && |vs| > 0
    ensures var j := PElements(c, s, i, count, log).pos; IsElements(c, s, i, j - 1, vs) && s[j - 1] == 0x5D
    decreases |s| - i, 2
  {
    hide PValue, PSeparator, Sends, Ranged, AllRanged, ElementEvents, Events, IsGap, IsValue;
    var v := ValueSends(c, s, i, log);
    var r := PValue(c, s, i, log);
    EmptyContainers();
    EmptyGap(c, s, i);
    var m := SeparatorLog(c, s, r.pos, RIGHT_BRACKET, EndArray(count + 1), r.log);
    match PSeparator(c, s, r.pos, RIGHT_BRACKET, EndArray(count + 1), r.log) {
      case Done(outcome) =>
        ElementsMore(v, []);
        vs := [v] + [];
        SendsOne(r.log, EndArray(count + 1));
        SendsBoth(log, r.log, outcome.log, Events(v, FromText), [EndArray(count + 1)]);
        assert Events(v, FromText) + [] == Events(v, FromText);
        assert vs[1..] == [] && IsMoreElements(c, s, r.pos, outcome.pos - 1, vs[1..]);
        assert IsGap(c, s, i, i) && IsValue(c, s, i, r.pos, vs[0]);
      case More(next, _) =>
        var rest := ElementsSend(c, s, next, count + 1, r.log);
        ElementsMore(v, rest);
        vs := [v] + rest;
        var tail := ElementEvents(rest, FromText) + [EndArray(count + |vs|)];
        var all := PElements(c, s, next, count + 1, r.log);
        SendsBoth(log, r.log, all.log, Events(v, FromText), tail);
        assert Events(v, FromText) + tail == ElementEvents(vs, FromText) + [EndArray(count + |vs|)];
        GapElements(c, s, m + 1, next, all.pos - 1, rest);
        assert vs[1..] == rest;
        assert IsMoreElements(c, s, r.pos, all.pos - 1, vs[1..]);
        assert IsGap(c, s, i, i) && IsValue(c, s, i, r.pos, vs[0]);
    }
  }

  /** The separator adds the closing event or nothing, and is what may stand at the end or between two elements. */
  lemma SeparatorLog(c: Config, s: bytes, i: nat, close: byte, end: Event, log: Log) returns (m: nat)
    requires i <= |s| && close != NUL
    ensures match PSeparator(c, s, i, close, end, log)
            case Done(outcome) =>
              (outcome.Ok? ==>
                 && outcome.log == log + [end]
                 && IsEnd(c, s, i, outcome.pos - 1) && s[outcome.pos - 1] == close)
            case More(next, log') => log' == log && i <= m < next && IsComma(c, s, i, m) && IsGap(c, s, m + 1, next)
  {
    hide Skip, IsGap;
    m := 0;
    var r := Skip(c, s, i, log);
    if r.Ok? {
      SkippedGap(c, s, i, log);
      if At(s, r.pos) != close && At(s, r.pos) == COMMA {
        m := r.pos;
        assert IsComma(c, s, i, m);
        if Skip(c, s, m + 1, log).Ok? {
          SkippedGap(c, s, m + 1, log);
          assert IsGap(c, s, m + 1, Skip(c, s, m + 1, log).pos);
        }
      }
    }
  }

  lemma {:induction false} ObjectSends(c: Config, s: bytes, i: nat, log: Log) returns (v: Value)
    requires At(s, i) == LEFT_BRACE && PObject(c, s, i, log).Ok?
    ensures Sends(log, PObject(c, s, i, log).log, Events(v, FromText)) && Ranged(v)
    ensures IsValue(c, s, i, PObject(c, s, i, log).pos, v)
    decreases |s| - i, 0
  {
    hide PMembers, Skip, Sends, Ranged, MembersRanged, IsMembers, IsGap;
    var log1 := log + [StartObject];
    SendsOne(log, StartObject);
    EmptyContainers();
    var ms := [];
    var r2 := Skip(c, s, i + 1, log1);
    SkippedGap(c, s, i + 1, log1);
    if At(s, r2.pos) == RIGHT_BRACE {
      SendsOne(log1, EndObject(0));
      SendsBoth(log, log1, log1 + [EndObject(0)], [StartObject], [EndObject(0)]);
      assert [StartObject] + [] + [EndObject(0)] == [StartObject] + [EndObject(0)];
    } else {
      ms := MembersSend(c, s, r2.pos, 0, log1);
      GapMembers(c, s, i + 1, r2.pos, PMembers(c, s, r2.pos, 0, log1).pos - 1, ms);
      var body := MemberEvents(ms, FromText);
      SendsBoth(log, log1, PMembers(c, s, r2.pos, 0, log1).log, [StartObject], body + [EndObject(|ms|)]);
      assert [StartObject] + body + [EndObject(|ms|)] == [StartObject] + (body + [EndObject(|ms|)]);
    }
    RangedContainers([], ms);
    v := ObjectValue(ms);
  }

  lemma NameSends(c: Config, s: bytes, i: nat, log: Log) returns (name: bytes)
    requires i <= |s| && PName(c, s, i, log).Ok?
    ensures Sends(log, PName(c, s, i, log).log, [Key(name)]) && IsName(c, s, i, PName(c, s, i, log).pos, name)
  {
    hide PString, Skip, Sends, IsGap, IsString;
    name := StringSends(c, s, i, log, true);
    var r1 := PString(c, s, i, log, true);
    SkippedGap(c, s, r1.pos, r1.log);
    var m := Skip(c, s, r1.pos, r1.log).pos;
    SkippedGap(c, s, m + 1, r1.log);
    EmptyGap(c, s, i);
  }

  lemma {:induction false} MembersSend(c: Config, s: bytes, i: nat, count: nat, log: Log) returns (ms: seq<Member>)
    requires i <= |s| && PMembers(c, s, i, count, log).Ok?
    ensures Sends(log, PMembers(c, s, i, count, log).log, MemberEvents(ms, FromText) + [EndObject(count + |ms|)])
    ensures MembersRanged(ms) && |ms| > 0
    ensures var j := PMembers(c, s, i, count, log).pos; IsMembers(c, s, i, j - 1, ms) && s[j - 1] == 0x7D
    decreases |s| - i, 2
  {
    hide PValue, PName, PSeparator, Sends, Ranged, MembersRanged, MemberEvents, Events, IsGap, IsValue, IsName;
    var name := NameSends(c, s, i, log);
    var r1 := PName(c, s, i, log);
    var v := ValueSends(c, s, r1.pos, r1.log);
    var r2 := PValue(c, s, r1.pos, r1.log);
    var m, first := Member(name, v), [Key(name)] + Events(v, FromText);
    SendsBoth(log, r1.log, r2.log, [Key(name)], Events(v, FromText));
    EmptyContainers();
    var comma := SeparatorLog(c, s, r2.pos, RIGHT_BRACE, EndObject(count + 1), r2.log);
    match PSeparator(c, s, r2.pos, RIGHT_BRACE, EndObject(count + 1), r2.log) {
      case Done(outcome) =>
        MembersMore(m, []);
        ms := [m] + [];
        SendsOne(r2.log, EndObject(count + 1));
        SendsBoth(log, r2.log, outcome.log, first, [EndObject(count + 1)]);
        assert first + [] == first;
        assert ms[1..] == [] && IsMoreMembers(c, s, r2.pos, outcome.pos - 1, ms[1..]);
        assert IsName(c, s, i, r1.pos, ms[0].name) && IsValue(c, s, r1.pos, r2.pos, ms[0].value);
      case More(next, _) =>
        var rest := MembersSend(c, s, next, count + 1, r2.log);
        MembersMore(m, rest);
        ms := [m] + rest;
        var tail := MemberEvents(rest, FromText) + [EndObject(count + |ms|)];
        var all := PMembers(c, s, next, count + 1, r2.log);
        SendsBoth(log, r2.log, all.log, first, tail);
        assert first + tail == MemberEvents(ms, FromText) + [EndObject(count + |ms|)];
        GapMembers(c, s, comma + 1, next, all.pos - 1, rest);
        assert ms[1..] == rest;
        assert IsMoreMembers(c, s, r2.pos, all.pos - 1, ms[1..]);
        assert IsName(c, s, i, r1.pos, ms[0].name) && IsValue(c, s, r1.pos, r2.pos, ms[0].value);
    }
  }

  /** The document handler does not see the sign of a zero. */
  lemma {:induction false} DocumentPlained(stack: seq<Value>, log: Log)
    ensures DocumentRun(stack, Plained(log)) == DocumentRun(stack, log)
    decreases |log|
  {
    if log != [] {
      assert Plained(log)[1..] == Plained(log[1..]);
      assert DocumentStep(stack, Plain(log[0])) == DocumentStep(stack, log[0]);
      match DocumentStep(stack, log[0]) {
        case None =>
        case Some(stack') => DocumentPlained(stack', log[1..]);
      }
    }
  }

  /**
   Either parser, on any text that it accepts: the text is JSON and spells one tree, the events are those of that tree,
   up to the sign of a zero, and GenericDocument ends with that tree alone on its stack.
   */
  lemma AcceptedSendsTree(c: Config, s: bytes) returns (v: Value)
    requires PDocument(c, s).Ok?
    ensures IsDocument(c, s, PDocument(c, s).pos, v) && (!c.stopWhenDone ==> At(s, PDocument(c, s).pos) == NUL)
    ensures Plained(PDocument(c, s).log) == Events(v, FromText) && P.IterativeParse(c, s) == PDocument(c, s)
    ensures DocumentRun([], PDocument(c, s).log) == Some([v])
    ensures Ranged(v)
  {
    hide Skip, PValue, P.IterativeParse, Events, DocumentRun, IsGap, IsValue;
    P.IterativeIsRecursive(c, s);
    var a := Skip(c, s, 0, []).pos;
    SkippedGap(c, s, 0, []);
    v := ValueSends(c, s, a, []);
    var r := PValue(c, s, a, []);
    if c.stopWhenDone { EmptyGap(c, s, r.pos); } else { SkippedGap(c, s, r.pos, r.log); }
    assert [] + Events(v, FromText) == Events(v, FromText);
    DocumentPlained([], PDocument(c, s).log);
    DocumentRebuilds([], v, FromText);
    assert [] + [v] == [v];
  }

  /** A tree without doubles that the reader sent can be printed exactly. */
  lemma {:induction false} RangedExact(v: Value)
    requires Ranged(v) && W.NoDoubles(v)
    ensures R.Exact(W.Utf8, v)
    decreases v
  {
    match v {
      case ArrayValue(vs) => forall k | 0 <= k < |vs| ensures R.Exact(W.Utf8, vs[k]) { RangedExact(vs[k]); }
      case ObjectValue(ms) =>
        forall k | 0 <= k < |ms| ensures R.Exact(W.Utf8, ms[k].value) { RangedExact(ms[k].value); }
      case _ =>
    }
  }

  /**
   Reading any accepted text without doubles, printing the tree in any style and reading that again gives the same
   tree: printing is a normal form.
   */
  lemma PrintIsNormalForm(c: Config, s: bytes, style: W.Style, again: Config) returns (v: Value)
    requires PDocument(c, s).Ok? && R.White(style) && R.Willing(again)
    ensures DocumentRun([], PDocument(c, s).log) == Some([v])
    ensures W.NoDoubles(v) ==>
              var r := PDocument(again, W.Print(style, W.Utf8, 0, v));
              r.Ok? && r.log == Events(v, FromText) && DocumentRun([], r.log) == Some([v])
  {
    hide PDocument, W.Print, DocumentRun, R.Exact;
    v := AcceptedSendsTree(c, s);
    if W.NoDoubles(v) {
      RangedExact(v);
      R.DocumentRead(style, W.Utf8, v, again);
      DocumentRebuilds([], v, FromText);
      assert [] + [v] == [v];
    }
  }
}
