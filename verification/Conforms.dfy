/** Every JSON text is accepted, for the tree that it spells; with `Accepted`, the parsers accept exactly these. */
module Conforms {
  import opened Accepted
  import opened Bytes
  import opened Characters
  import opened Dom
  import opened Grammar
  import opened JsonText
  import opened Lexemes
  import opened Sax
  import P = Pushdown
  import R = RoundTrip

  // ---------- What may follow and what may start a value ----------

  lemma GapEnds(c: Config, s: bytes, i: nat, j: nat)
    requires IsGap(c, s, i, j) && Ends(At(s, j))
    ensures Ends(At(s, i))
  {
    hide IsGap;
    if i < j { GapStarts(c, s, i, j); } else { GapForward(c, s, i, j); }
  }

  lemma GapStarts(c: Config, s: bytes, i: nat, j: nat)
    requires IsGap(c, s, i, j) && i < j
    ensures i < |s| && (IsSpace(s[i]) || s[i] == SLASH)
  {
    var k :| i < k <= j && IsFiller(c, s, i, k) && IsGap(c, s, k, j);
  }

  /** A value starts with a character that is no filler and closes nothing. */
  lemma ValueStarts(c: Config, s: bytes, i: nat, j: nat, v: Value)
    requires IsValue(c, s, i, j, v)
    ensures Stops(c, s, i) && s[i] !in {RIGHT_BRACKET, RIGHT_BRACE, COMMA, NUL}
    ensures v.NumberValue? || v.DoubleValue? ==> s[i] == MINUS || IsDigit(s[i])
  {
    hide IsGap, IsElements, IsMembers, IsBody;
    match v {
      case NullValue => assert s[i..j][0] == s[i];
      case BoolValue(_) => assert s[i..j][0] == s[i];
      case NumberValue(_) => NumberStarts(c, s, i, j, v);
      case DoubleValue(_) => NumberStarts(c, s, i, j, v);
      case _ =>
    }
  }

  lemma NumberStarts(c: Config, s: bytes, i: nat, j: nat, v: Value)
    requires IsNumber(c, s, i, j, v)
    ensures s[i] == MINUS || IsDigit(s[i])
  {
    hide IsFraction, IsExponent;
  }

  // ---------- Separators ----------

  lemma EndTaken(c: Config, s: bytes, i: nat, j: nat, close: byte, end: Event, log: Log)
    requires IsEnd(c, s, i, j) && j < |s| && s[j] == close && close in {RIGHT_BRACKET, RIGHT_BRACE}
    ensures PSeparator(c, s, i, close, end, log) == Done(Emit(c, j + 1, log, end)) && Ends(At(s, i))
  {
    hide Skip, IsGap, Emit;
    if IsGap(c, s, i, j) {
      GapSkipped(c, s, i, j, log);
      GapEnds(c, s, i, j);
    } else {
      var m: nat :| IsComma(c, s, i, m) && IsGap(c, s, m + 1, j);
      GapSkipped(c, s, i, m, log);
      GapSkipped(c, s, m + 1, j, log);
      GapEnds(c, s, i, m);
    }
  }

  lemma CommaTaken(c: Config, s: bytes, i: nat, m: nat, a: nat, close: byte, end: Event, log: Log)
    requires IsComma(c, s, i, m) && IsGap(c, s, m + 1, a) && Stops(c, s, a) && At(s, a) != close
    requires close in {RIGHT_BRACKET, RIGHT_BRACE} && a <= |s|
    ensures PSeparator(c, s, i, close, end, log) == More(a, log) && Ends(At(s, i))
  {
    hide Skip, IsGap;
    GapSkipped(c, s, i, m, log);
    GapSkipped(c, s, m + 1, a, log);
    GapEnds(c, s, i, m);
  }

  // ---------- Values ----------

  /** The parser is at this position, and these events have been sent. */
  predicate Comes(r: Outcome, pos: nat, log: Log, events: Log) { r.Ok? && r.pos == pos && Sends(log, r.log, events) }

  lemma EmitComes(c: Config, pos: nat, log: Log, e: Event)
    requires R.Willing(c)
    ensures Comes(Emit(c, pos, log, e), pos, log, [Plain(e)])
  {
    SendsOne(log, e);
  }

  lemma LiteralComes(c: Config, s: bytes, i: nat, j: nat, text: bytes, e: Event, log: Log)
    requires R.Willing(c) && i < j <= |s| && s[i..j] == text && e != Int(0)
    ensures s[i] == text[0] && Comes(PLiteral(c, s, i, text, e, log), j, log, [e])
  {
    hide R.Willing;
    EmitComes(c, j, log, e);
    assert s[i..j][0] == s[i];
  }

  lemma StringComes(c: Config, s: bytes, i: nat, j: nat, text: bytes, isKey: bool, log: Log)
    requires R.Willing(c) && IsString(s, i, j, text)
    ensures At(s, i) == QUOTE
    ensures Comes(PString(c, s, i, log, isKey), j, log, [if isKey then Key(text) else String(text)])
  {
    hide R.Willing, IsBody, StringBody;
    StringExactly(s, i + 1, j, text);
    EmitComes(c, j, log, if isKey then Key(text) else String(text));
  }

  lemma NumberComes(c: Config, s: bytes, i: nat, j: nat, v: Value, log: Log)
    requires R.Willing(c) && IsNumber(c, s, i, j, v) && (v.NumberValue? || v.DoubleValue?) && Ends(At(s, j))
    ensures Comes(PNumber(c, s, i, log), j, log, Events(v, FromText))
  {
    hide R.Willing, PNumber, NumberSent;
    NumberTaken(c, s, i, j, v, log);
    EmitComes(c, j, log, NumberSent(s[i] == MINUS, v));
    NumberSentPlain(s[i] == MINUS, v);
  }

  lemma {:induction false} ValueComes(c: Config, s: bytes, i: nat, j: nat, v: Value, log: Log)
    requires R.Willing(c) && IsValue(c, s, i, j, v) && Ends(At(s, j))
    ensures Comes(PValue(c, s, i, log), j, log, Events(v, FromText))
    decreases j - i, 3
  {
    hide R.Willing, Comes, PLiteral, PString, PNumber, PObject, PArray, IsElements, IsMembers, IsNumber, IsGap,
      IsString;
    ValueStarts(c, s, i, j, v);
    match v {
      case NullValue => LiteralComes(c, s, i, j, NULL_TEXT, Null, log);
      case BoolValue(b) => LiteralComes(c, s, i, j, if b then TRUE_TEXT else FALSE_TEXT, Bool(b), log);
      case NumberValue(_) => NumberComes(c, s, i, j, v, log);
      case DoubleValue(_) => NumberComes(c, s, i, j, v, log);
      case StringValue(text) => StringComes(c, s, i, j, text, false, log);
      case ArrayValue(vs) => ArrayComes(c, s, i, j, vs, log);
      case ObjectValue(ms) => ObjectComes(c, s, i, j, ms, log);
    }
  }

  lemma Bracketed(log: Log, log1: Log, log2: Log, open: Event, body: Log)
    requires Sends(log, log1, [open]) && Sends(log1, log2, body)
    ensures Sends(log, log2, [open] + body)
  {
    SendsBoth(log, log1, log2, [open], body);
  }

  lemma {:induction false} ArrayComes(c: Config, s: bytes, i: nat, j: nat, vs: seq<Value>, log: Log)
    requires R.Willing(c) && IsValue(c, s, i, j, ArrayValue(vs))
    ensures At(s, i) == LEFT_BRACKET && Comes(PArray(c, s, i, log), j, log, Events(ArrayValue(vs), FromText))
    decreases j - i, 2
  {
    hide R.Willing, PElements, Skip, Sends, IsGap, IsValue, IsMoreElements;
    ArrayMeaning(c, s, i, j, vs);
    var log1 := log + [StartArray];
    R.ArrayStep(c, s, i, log);
    SendsOne(log, StartArray);
    if vs == [] {
      GapSkipped(c, s, i + 1, j - 1, log1);
      EmptyContainers();
      SendsOne(log1, EndArray(0));
      Bracketed(log, log1, log1 + [EndArray(0)], StartArray, [EndArray(0)]);
      assert [StartArray] + [] + [EndArray(0)] == [StartArray] + [EndArray(0)];
    } else {
      var a, b := ElementsMeaning(c, s, i + 1, j - 1, vs);
      ValueStarts(c, s, a, b, vs[0]);
      GapSkipped(c, s, i + 1, a, log1);
      ElementsCome(c, s, a, b, j - 1, vs, 0, log1);
      var body := ElementEvents(vs, FromText) + [EndArray(|vs|)];
      Bracketed(log, log1, PElements(c, s, a, 0, log1).log, StartArray, body);
      assert [StartArray] + ElementEvents(vs, FromText) + [EndArray(|vs|)] == [StartArray] + body;
    }
  }

  lemma ArrayMeaning(c: Config, s: bytes, i: nat, j: nat, vs: seq<Value>)
    requires IsValue(c, s, i, j, ArrayValue(vs))
    ensures i + 2 <= j <= |s| && s[i] == LEFT_BRACKET && s[j - 1] == RIGHT_BRACKET
    ensures if vs == [] then IsGap(c, s, i + 1, j - 1) else IsElements(c, s, i + 1, j - 1, vs)
  {
    hide IsGap, IsElements;
  }

  lemma ElementsMeaning(c: Config, s: bytes, i: nat, j: nat, vs: seq<Value>) returns (a: nat, b: nat)
    requires IsElements(c, s, i, j, vs)
    ensures vs != [] && i <= a < b <= j && IsGap(c, s, i, a) && IsValue(c, s, a, b, vs[0])
    ensures IsMoreElements(c, s, b, j, vs[1..])
  {
    hide IsGap, IsValue, IsMoreElements;
    a, b :| i <= a < b <= j && IsGap(c, s, i, a) && IsValue(c, s, a, b, vs[0]) && IsMoreElements(c, s, b, j, vs[1..]);
  }

  lemma {:induction false} ElementsCome(
    c: Config, s: bytes, a: nat, b: nat, j: nat, vs: seq<Value>, count: nat, log: Log)
    requires R.Willing(c) && vs != [] && a < b <= j < |s| && s[j] == RIGHT_BRACKET
    requires IsValue(c, s, a, b, vs[0]) && IsMoreElements(c, s, b, j, vs[1..])
    ensures Comes(PElements(c, s, a, count, log), j + 1, log, ElementEvents(vs, FromText) + [EndArray(count + |vs|)])
    decreases j - a, 4
  {
    hide R.Willing, PValue, PSeparator, Sends, IsGap, IsValue, Events, ElementEvents, IsComma, IsEnd;
    var v, rest := vs[0], vs[1..];
    assert vs == [v] + rest;
    ElementsMore(v, rest);
    var r := PValue(c, s, a, log);
    var end := EndArray(count + 1);
    if rest == [] {
      EndTaken(c, s, b, j, RIGHT_BRACKET, end, r.log);
      ValueComes(c, s, a, b, v, log);
      EmitComes(c, j + 1, r.log, end);
      EmptyContainers();
      SendsBoth(log, r.log, Emit(c, j + 1, r.log, end).log, Events(v, FromText), [end]);
      assert Events(v, FromText) + [] == Events(v, FromText);
    } else {
      var m :| b <= m < j && IsComma(c, s, b, m) && IsElements(c, s, m + 1, j, rest);
      var a', b' := ElementsMeaning(c, s, m + 1, j, rest);
      ValueStarts(c, s, a', b', rest[0]);
      CommaTaken(c, s, b, m, a', RIGHT_BRACKET, end, r.log);
      ValueComes(c, s, a, b, v, log);
      ElementsCome(c, s, a', b', j, rest, count + 1, r.log);
      var tail := ElementEvents(rest, FromText) + [EndArray(count + |vs|)];
      SendsBoth(log, r.log, PElements(c, s, a', count + 1, r.log).log, Events(v, FromText), tail);
      assert Events(v, FromText) + tail == ElementEvents(vs, FromText) + [EndArray(count + |vs|)];
    }
  }

  lemma {:induction false} ObjectComes(c: Config, s: bytes, i: nat, j: nat, ms: seq<Member>, log: Log)
    requires R.Willing(c) && IsValue(c, s, i, j, ObjectValue(ms))
    ensures At(s, i) == LEFT_BRACE && Comes(PObject(c, s, i, log), j, log, Events(ObjectValue(ms), FromText))
    decreases j - i, 2
  {
    hide R.Willing, PMembers, Skip, Sends, IsGap, IsValue, IsMoreMembers, IsString;
    ObjectMeaning(c, s, i, j, ms);
    var log1 := log + [StartObject];
    R.ObjectStep(c, s, i, log);
    SendsOne(log, StartObject);
    if ms == [] {
      GapSkipped(c, s, i + 1, j - 1, log1);
      EmptyContainers();
      SendsOne(log1, EndObject(0));
      Bracketed(log, log1, log1 + [EndObject(0)], StartObject, [EndObject(0)]);
      assert [StartObject] + [] + [EndObject(0)] == [StartObject] + [EndObject(0)];
    } else {
      var p, b := MembersMeaning(c, s, i + 1, j - 1, ms);
      var a := NameStarts(c, s, i + 1, p, ms[0].name);
      GapSkipped(c, s, i + 1, a, log1);
      MembersCome(c, s, a, p, b, j - 1, ms, 0, log1);
      var body := MemberEvents(ms, FromText) + [EndObject(|ms|)];
      Bracketed(log, log1, PMembers(c, s, a, 0, log1).log, StartObject, body);
      assert [StartObject] + MemberEvents(ms, FromText) + [EndObject(|ms|)] == [StartObject] + body;
    }
  }

  lemma ObjectMeaning(c: Config, s: bytes, i: nat, j: nat, ms: seq<Member>)
    requires IsValue(c, s, i, j, ObjectValue(ms))
    ensures i + 2 <= j <= |s| && s[i] == LEFT_BRACE && s[j - 1] == RIGHT_BRACE
    ensures if ms == [] then IsGap(c, s, i + 1, j - 1) else IsMembers(c, s, i + 1, j - 1, ms)
  {
    hide IsGap, IsMembers;
  }

  lemma MembersMeaning(c: Config, s: bytes, i: nat, j: nat, ms: seq<Member>) returns (p: nat, b: nat)
    requires IsMembers(c, s, i, j, ms)
    ensures ms != [] && i < p < b <= j && IsName(c, s, i, p, ms[0].name) && IsValue(c, s, p, b, ms[0].value)
    ensures IsMoreMembers(c, s, b, j, ms[1..])
  {
    hide IsName, IsValue, IsMoreMembers;
    p, b :|
      i < p < b <= j && IsName(c, s, i, p, ms[0].name) && IsValue(c, s, p, b, ms[0].value)
      && IsMoreMembers(c, s, b, j, ms[1..]);
  }

  lemma NameMeaning(c: Config, s: bytes, i: nat, p: nat, name: bytes) returns (a: nat, b: nat, m: nat)
    requires IsName(c, s, i, p, name)
    ensures i <= a < b <= m < p && m < |s| && s[m] == COLON
    ensures IsGap(c, s, i, a) && IsString(s, a, b, name) && IsGap(c, s, b, m) && IsGap(c, s, m + 1, p)
  {
    hide IsGap, IsString, IsKey;
    m :| i < m < p && m < |s| && s[m] == 0x3A && IsKey(c, s, i, m, name) && IsGap(c, s, m + 1, p);
    a, b := KeyMeaning(c, s, i, m, name);
  }

  lemma KeyMeaning(c: Config, s: bytes, i: nat, j: nat, name: bytes) returns (a: nat, b: nat)
    requires IsKey(c, s, i, j, name)
    ensures i <= a < b <= j && IsGap(c, s, i, a) && IsString(s, a, b, name) && IsGap(c, s, b, j)
  {
    hide IsGap, IsString;
    a, b :| i <= a < b <= j && IsGap(c, s, i, a) && IsString(s, a, b, name) && IsGap(c, s, b, j);
  }

  lemma StringStarts(s: bytes, i: nat, j: nat, text: bytes)
    requires IsString(s, i, j, text)
    ensures i < |s| && s[i] == QUOTE
  {
    hide IsBody;
  }

  /** Where the name itself starts, behind the gap in front of it. */
  lemma NameStarts(c: Config, s: bytes, i: nat, p: nat, name: bytes) returns (a: nat)
    requires IsName(c, s, i, p, name)
    ensures i <= a < p && a < |s| && IsGap(c, s, i, a) && s[a] == QUOTE && Stops(c, s, a) && IsName(c, s, a, p, name)
  {
    hide IsGap, IsString;
    var b, m;
    a, b, m := NameMeaning(c, s, i, p, name);
    StringStarts(s, a, b, name);
    EmptyGap(c, s, a);
  }

  lemma NameComes(c: Config, s: bytes, a: nat, p: nat, name: bytes, log: Log)
    requires R.Willing(c) && IsName(c, s, a, p, name) && a < |s| && s[a] == QUOTE && Stops(c, s, p)
    ensures Comes(PName(c, s, a, log), p, log, [Key(name)])
  {
    hide R.Willing, PString, Skip, IsGap, IsString, IsName, Sends;
    var a', b, m := NameMeaning(c, s, a, p, name);
    if a < a' { GapStarts(c, s, a, a'); }
    GapForward(c, s, m + 1, p);
    StringComes(c, s, a, b, name, true, log);
    var log1 := PString(c, s, a, log, true).log;
    GapSkipped(c, s, b, m, log1);
    GapSkipped(c, s, m + 1, p, log1);
  }

  lemma {:induction false} MembersCome(
    c: Config, s: bytes, a: nat, p: nat, b: nat, j: nat, ms: seq<Member>, count: nat, log: Log)
    requires R.Willing(c) && ms != [] && a < p < b <= j < |s| && s[j] == RIGHT_BRACE && s[a] == QUOTE
    requires IsName(c, s, a, p, ms[0].name) && IsValue(c, s, p, b, ms[0].value) && IsMoreMembers(c, s, b, j, ms[1..])
    ensures Comes(PMembers(c, s, a, count, log), j + 1, log, MemberEvents(ms, FromText) + [EndObject(count + |ms|)])
    decreases j - a, 4
  {
    hide R.Willing, PName, PValue, PSeparator, Sends, IsGap, IsValue, IsName, Events, MemberEvents, IsComma, IsEnd;
    var m0, rest := ms[0], ms[1..];
    assert ms == [m0] + rest;
    MembersMore(m0, rest);
    ValueStarts(c, s, p, b, m0.value);
    NameComes(c, s, a, p, m0.name, log);
    var r1 := PName(c, s, a, log);
    var r2 := PValue(c, s, p, r1.log);
    var end, first := EndObject(count + 1), [Key(m0.name)] + Events(m0.value, FromText);
    if rest == [] {
      EndTaken(c, s, b, j, RIGHT_BRACE, end, r2.log);
      ValueComes(c, s, p, b, m0.value, r1.log);
      EmitComes(c, j + 1, r2.log, end);
      EmptyContainers();
      SendsBoth(log, r1.log, r2.log, [Key(m0.name)], Events(m0.value, FromText));
      SendsBoth(log, r2.log, Emit(c, j + 1, r2.log, end).log, first, [end]);
      assert first + [] == first;
    } else {
      var m :| b <= m < j && IsComma(c, s, b, m) && IsMembers(c, s, m + 1, j, rest);
      var p', b' := MembersMeaning(c, s, m + 1, j, rest);
      var a' := NameStarts(c, s, m + 1, p', rest[0].name);
      CommaTaken(c, s, b, m, a', RIGHT_BRACE, end, r2.log);
      ValueComes(c, s, p, b, m0.value, r1.log);
      MembersCome(c, s, a', p', b', j, rest, count + 1, r2.log);
      SendsBoth(log, r1.log, r2.log, [Key(m0.name)], Events(m0.value, FromText));
      var tail := MemberEvents(rest, FromText) + [EndObject(count + |ms|)];
      SendsBoth(log, r2.log, PMembers(c, s, a', count + 1, r2.log).log, first, tail);
      assert first + tail == MemberEvents(ms, FromText) + [EndObject(count + |ms|)];
    }
  }

  // ---------- Documents ----------

  /** A JSON text is accepted, and its tree's events are sent. */
  lemma DocumentComes(c: Config, s: bytes, n: nat, v: Value)
    requires R.Willing(c) && IsDocument(c, s, n, v) && At(s, n) == NUL
    ensures var r := PDocument(c, s);
      r.Ok? && Plained(r.log) == Events(v, FromText) && (!c.stopWhenDone ==> r.pos == n)
  {
    hide R.Willing, Skip, PValue, IsGap, IsValue, Events;
    var a: nat, b: nat :| a < b <= n && IsGap(c, s, 0, a) && IsValue(c, s, a, b, v) && IsGap(c, s, b, n);
    ValueStarts(c, s, a, b, v);
    GapSkipped(c, s, 0, a, []);
    GapEnds(c, s, b, n);
    ValueComes(c, s, a, b, v, []);
    var r := PValue(c, s, a, []);
    GapSkipped(c, s, b, n, r.log);
    assert [] + Events(v, FromText) == Events(v, FromText);
  }

  /**
   Both parsers accept exactly the JSON texts: up to its first NUL a text is JSON and spells a tree if and only if it is
   accepted with the events of that tree, up to the sign of a zero.
   */
  lemma ParsesExactlyJson(c: Config, s: bytes, n: nat, v: Value)
    requires R.Willing(c) && !c.stopWhenDone
    ensures IsDocument(c, s, n, v) && At(s, n) == NUL
       <==> var r := PDocument(c, s); r.Ok? && r.pos == n && Plained(r.log) == Events(v, FromText)
    ensures P.IterativeParse(c, s) == PDocument(c, s)
  {
    hide R.Willing, PDocument, IsDocument, Events, DocumentRun, P.IterativeParse;
    P.IterativeIsRecursive(c, s);
    if IsDocument(c, s, n, v) && At(s, n) == NUL { DocumentComes(c, s, n, v); }
    if PDocument(c, s).Ok? {
      var w := AcceptedSendsTree(c, s);
      if Events(w, FromText) == Events(v, FromText) { SameTree(v, w); }
    }
  }

  lemma SameTree(v: Value, w: Value)
    requires Events(v, FromText) == Events(w, FromText)
    ensures v == w
  {
    hide Events, DocumentRun;
    DocumentRebuilds([], v, FromText);
    DocumentRebuilds([], w, FromText);
    assert [] + [v] == [v] && [] + [w] == [w];
    assert [v][0] == v && [w][0] == w;
  }
}
