/**
 Writer and PrettyWriter.  The machine that puts separators from its level stack is proved to print,
 for the events of a tree, the text that the recursive `Print` functions give.
 */
module Writer {
  import opened Bytes
  import opened Characters
  import opened Dom
  import opened Sax
  import Unicode

  /** Writer, or PrettyWriter with its indentation and array format option. */
  datatype Style = Compact | Pretty(indentChar: byte, indentCharCount: nat, singleLineArrays: bool)

  /** The target encoding: UTF8 copies code units, ASCII has no Unicode and escapes. */
  datatype Target = Utf8 | Ascii

  datatype Level = Level(valueCount: nat, inArray: bool)

  // ---------- Layout ----------

  function Indent(style: Style, depth: nat): bytes {
    if style.Compact? then [] else seq(depth * style.indentCharCount, _ => style.indentChar)
  }

  /** What Prefix or PrettyPrefix puts before the next value of a level, `depth` levels being open. */
  function PlaceText(style: Style, depth: nat, level: Level): bytes {
    var n := level.valueCount;
    if style.Compact? then
      if n == 0 then [] else if level.inArray || n % 2 == 0 then [COMMA] else [COLON]
    else if level.inArray then
      (if n > 0 then [COMMA] else [])
      + (if style.singleLineArrays then (if n > 0 then [SPACE] else []) else [NEWLINE] + Indent(style, depth))
    else if n % 2 == 1 then [COLON, SPACE]
    else (if n > 0 then [COMMA] else []) + [NEWLINE] + Indent(style, depth)
  }

  /** What EndObject or EndArray puts before the bracket, `depth` levels being open once it is popped. */
  function CloseText(style: Style, depth: nat, level: Level): bytes {
    if style.Compact? || level.valueCount == 0 || (level.inArray && style.singleLineArrays) then []
    else [NEWLINE] + Indent(style, depth)
  }

  // ---------- Scalars ----------

  function Digits(n: nat): bytes {
    if n < 10 then [0x30 + n] else Digits(n / 10) + [0x30 + n % 10]
  }

  /** The text of an integer, as internal::i64toa and its siblings print it. */
  function Decimal(n: int): bytes {
    if n < 0 then [0x2D] + Digits(-n) else Digits(n)
  }

  function HexText(unit: nat): (r: bytes)
    requires unit <= 0xFFFF
    ensures |r| == 4
  {
    [HexDigit(unit / 4096), HexDigit(unit / 256 % 16), HexDigit(unit / 16 % 16), HexDigit(unit % 16)]
  }

  /** A code point as one `\u` escape, or as the two of a surrogate pair. */
  function CodePointText(cp: nat): bytes
    requires Unicode.Scalar(cp)
  {
    if cp <= 0xFFFF then UNICODE_ESCAPE + HexText(cp)
    else
      var v := cp - 0x1_0000;
      UNICODE_ESCAPE + HexText(v / 0x400 + 0xD800) + (UNICODE_ESCAPE + HexText(v % 0x400 + 0xDC00))
  }

  /** The escape table of WriteString: 0 where a code unit needs no escape. */
  function EscapeOf(c: byte): byte {
    if c == 0x08 then 0x62
    else if c == 0x09 then 0x74
    else if c == 0x0A then 0x6E
    else if c == 0x0C then 0x66
    else if c == 0x0D then 0x72
    else if c < 0x20 then 0x75
    else if c == QUOTE || c == BACKSLASH then c
    else 0
  }

  function EscapeText(c: byte): bytes
    requires EscapeOf(c) != 0
  {
    [BACKSLASH, EscapeOf(c)]
    + if EscapeOf(c) == 0x75 then [0x30, 0x30, HexDigit(c / 16), HexDigit(c % 16)] else []
  }

  predicate NeedsUnicode(target: Target, c: byte) { target.Ascii? && c >= 0x80 }

  /** The body of a string literal from code unit `i` on; for ASCII it ends at the first ill-formed character. */
  function StringText(target: Target, text: bytes, i: nat): bytes
    decreases |text| - i
  {
    if i >= |text| then []
    else if NeedsUnicode(target, text[i]) then
      var d := Unicode.Decode(text, i);
      if !d.ok then []
      else
        Unicode.DecodeIsRfc3629(text, i);
        CodePointText(d.cp) + StringText(target, text, d.next)
    else if EscapeOf(text[i]) != 0 then EscapeText(text[i]) + StringText(target, text, i + 1)
    else [text[i]] + StringText(target, text, i + 1)
  }

  function Quoted(target: Target, text: bytes): bytes {
    [QUOTE] + StringText(target, text, 0) + [QUOTE]
  }

  /** WriteString succeeds: every string with the UTF8 target, the well-formed ones with ASCII. */
  predicate Writable(target: Target, text: bytes) {
    target.Utf8? || Unicode.WellFormed(text)
  }

  /** Every string of a tree, names included, can be written. */
  predicate AllWritable(target: Target, v: Value)
    decreases v
  {
    match v
    case StringValue(text) => Writable(target, text)
    case ArrayValue(vs) => forall k :: 0 <= k < |vs| ==> AllWritable(target, vs[k])
    case ObjectValue(ms) =>
      forall k :: 0 <= k < |ms| ==> Writable(target, ms[k].name) && AllWritable(target, ms[k].value)
    case _ => true
  }

  predicate ElementsWritable(target: Target, vs: seq<Value>) {
    forall k :: 0 <= k < |vs| ==> AllWritable(target, vs[k])
  }

  predicate MembersWritable(target: Target, ms: seq<Member>) {
    forall k :: 0 <= k < |ms| ==> Writable(target, ms[k].name) && AllWritable(target, ms[k].value)
  }

  // ---------- The text of a tree ----------

  function Print(style: Style, target: Target, depth: nat, v: Value): bytes
    decreases v
  {
    match v
    case NullValue => NULL_TEXT
    case BoolValue(b) => if b then TRUE_TEXT else FALSE_TEXT
    case NumberValue(n) => Decimal(n)
    case DoubleValue(lexeme) => lexeme
    case StringValue(text) => Quoted(target, text)
    case ArrayValue(vs) =>
      [0x5B] + PrintElements(style, target, depth + 1, vs, 0)
      + CloseText(style, depth, Level(|vs|, true)) + [0x5D]
    case ObjectValue(ms) =>
      [0x7B] + PrintMembers(style, target, depth + 1, ms, 0)
      + CloseText(style, depth, Level(2 * |ms|, false)) + [0x7D]
  }

  /** The elements after the first `k`. */
  function PrintElements(style: Style, target: Target, depth: nat, vs: seq<Value>, k: nat): bytes
    decreases vs
  {
    if vs == [] then []
    else
      PlaceText(style, depth, Level(k, true)) + Print(style, target, depth, vs[0])
      + PrintElements(style, target, depth, vs[1..], k + 1)
  }

  function PrintMembers(style: Style, target: Target, depth: nat, ms: seq<Member>, k: nat): bytes
    decreases ms
  {
    if ms == [] then []
    else
      PlaceText(style, depth, Level(2 * k, false)) + Quoted(target, ms[0].name)
      + PlaceText(style, depth, Level(2 * k + 1, false)) + Print(style, target, depth, ms[0].value)
      + PrintMembers(style, target, depth, ms[1..], k + 1)
  }

  // ---------- The machine ----------

  datatype State = State(os: bytes, levels: seq<Level>, hasRoot: bool)

  /** Prefix or PrettyPrefix. */
  function Placed(style: Style, st: State): (p: State)
    ensures |p.levels| == |st.levels|
  {
    if st.levels == [] then st.(hasRoot := true)
    else
      var last := |st.levels| - 1;
      var top := st.levels[last];
      State(st.os + PlaceText(style, |st.levels|, top),
            st.levels[last := top.(valueCount := top.valueCount + 1)],
            st.hasRoot)
  }

  function Put(st: State, text: bytes): State { st.(os := st.os + text) }

  function Pushed(st: State, inArray: bool): State { st.(levels := st.levels + [Level(0, inArray)]) }

  function Popped(style: Style, st: State): State
    requires st.levels != []
  {
    var last := |st.levels| - 1;
    State(st.os + CloseText(style, last, st.levels[last]), st.levels[..last], st.hasRoot)
  }

  /** The assertions of the source that must hold when an event arrives. */
  predicate Accepts(st: State, e: Event) {
    match e
    case EndObject(_) =>
      st.levels != [] && !st.levels[|st.levels| - 1].inArray && st.levels[|st.levels| - 1].valueCount % 2 == 0
    case EndArray(_) => st.levels != [] && st.levels[|st.levels| - 1].inArray
    case Double(_) => false
    case String(_) => st.levels == [] ==> !st.hasRoot
    case Key(_) => st.levels == [] ==> !st.hasRoot
    case _ => AcceptsValue(st)
  }

  /** A value that is not a string may come: at the root, in an array, or after a name. */
  predicate AcceptsValue(st: State) {
    if st.levels == [] then !st.hasRoot
    else st.levels[|st.levels| - 1].inArray || st.levels[|st.levels| - 1].valueCount % 2 == 1
  }

  /** WriteString fails on the text of this event. */
  predicate Refuses(target: Target, e: Event) { (e.String? || e.Key?) && !Writable(target, e.text) }

  /** What is written when it fails: no closing quotation mark. */
  function Broken(style: Style, target: Target, st: State, text: bytes): bytes {
    Placed(style, st).os + ([QUOTE] + StringText(target, text, 0))
  }

  function Step(style: Style, target: Target, st: State, e: Event): State
    requires Accepts(st, e) && !Refuses(target, e)
  {
    match e
    case Null => Put(Placed(style, st), NULL_TEXT)
    case Bool(b) => Put(Placed(style, st), if b then TRUE_TEXT else FALSE_TEXT)
    case Int(n) => Put(Placed(style, st), Decimal(n))
    case Uint(n) => Put(Placed(style, st), Decimal(n))
    case Int64(n) => Put(Placed(style, st), Decimal(n))
    case Uint64(n) => Put(Placed(style, st), Decimal(n))
    case String(text) => Put(Placed(style, st), Quoted(target, text))
    case Key(text) => Put(Placed(style, st), Quoted(target, text))
    case StartObject => Put(Pushed(Placed(style, st), false), [0x7B])
    case StartArray => Put(Pushed(Placed(style, st), true), [0x5B])
    case EndObject(_) => Put(Popped(style, st), [0x7D])
    case EndArray(_) => Put(Popped(style, st), [0x5D])
  }

  /** How a run ends: after the last event, at a string that cannot be written, or at a failing assertion. */
  datatype Written = Done(state: State) | Refused(os: bytes) | Misused

  /** The machine over a sequence of events; whoever sends them stops at the first that is refused. */
  function Run(style: Style, target: Target, st: State, log: Log): Written
    decreases |log|
  {
    if log == [] then Done(st)
    else if !Accepts(st, log[0]) then Misused
    else if Refuses(target, log[0]) then Refused(Broken(style, target, st, log[0].text))
    else Run(style, target, Step(style, target, st, log[0]), log[1..])
  }

  lemma {:induction false} RunConcat(style: Style, target: Target, st: State, a: Log, b: Log)
    ensures Run(style, target, st, a + b)
         == match Run(style, target, st, a)
            case Done(st') => Run(style, target, st', b)
            case other => other
    decreases |a|
  {
    hide Step, Accepts, Refuses, Broken;
    if a == [] {
      assert a + b == b;
    } else {
      assert (a + b)[0] == a[0] && (a + b)[1..] == a[1..] + b;
      if Accepts(st, a[0]) && !Refuses(target, a[0]) {
        RunConcat(style, target, Step(style, target, st, a[0]), a[1..], b);
      }
    }
  }

  /** The run comes to this state if nothing is refused, and otherwise stops with a prefix of its text. */
  predicate Comes(w: Written, ok: bool, full: State) {
    if ok then w == Done(full) else w.Refused? && w.os <= full.os
  }

  lemma RunOne(style: Style, target: Target, st: State, e: Event)
    requires Accepts(st, e) && !Refuses(target, e)
    ensures Run(style, target, st, [e]) == Done(Step(style, target, st, e))
  {
    assert [e][1..] == [];
  }

  /** A name or a string is placed and quoted, or refused before its closing quotation mark. */
  lemma RunText(style: Style, target: Target, st: State, e: Event)
    requires Accepts(st, e) && (e.String? || e.Key?)
    ensures Comes(Run(style, target, st, [e]), Writable(target, e.text),
                  Put(Placed(style, st), Quoted(target, e.text)))
  {
    hide Placed, StringText;
    assert [e][1..] == [];
    var p := Placed(style, st);
    assert p.os + Quoted(target, e.text) == Broken(style, target, st, e.text) + [QUOTE];
  }

  lemma RunSequence(style: Style, target: Target, st: State, a: Log, ok1: bool, s1: State, b: Log, ok2: bool, s2: State)
    requires Comes(Run(style, target, st, a), ok1, s1) && Comes(Run(style, target, s1, b), ok2, s2) && s1.os <= s2.os
    ensures Comes(Run(style, target, st, a + b), ok1 && ok2, s2)
  {
    hide Run;
    RunConcat(style, target, st, a, b);
  }

  lemma RunBracket(
    style: Style, target: Target, st: State, open: Event, body: Log, close: Event, ok: bool, s1: State, s2: State)
    requires Accepts(st, open) && !Refuses(target, open) && Step(style, target, st, open) == s1
    requires Comes(Run(style, target, s1, body), ok, s2) && s1.os <= s2.os
    requires Accepts(s2, close) && !Refuses(target, close) && s2.os <= Step(style, target, s2, close).os
    ensures Comes(Run(style, target, st, [open] + body + [close]), ok, Step(style, target, s2, close))
  {
    hide Step, Accepts, Run, Refuses;
    RunOne(style, target, st, open);
    RunSequence(style, target, st, [open], true, s1, body, ok, s2);
    RunOne(style, target, s2, close);
    RunSequence(style, target, st, [open] + body, ok, s2, [close], true, Step(style, target, s2, close));
  }

  predicate NoDoubles(v: Value)
    decreases v
  {
    match v
    case DoubleValue(_) => false
    case ArrayValue(vs) => forall k :: 0 <= k < |vs| ==> NoDoubles(vs[k])
    case ObjectValue(ms) => forall k :: 0 <= k < |ms| ==> NoDoubles(ms[k].value)
    case _ => true
  }

  /** The state with its open level counting `n` values and `text` put. */
  function Counted(st: State, n: nat, text: bytes): State
    requires st.levels != []
  {
    var last := |st.levels| - 1;
    State(st.os + text, st.levels[..last] + [Level(n, st.levels[last].inArray)], st.hasRoot)
  }

  /**
   Whatever the events of a tree find on the level stack, they put the separator and the printed tree, and count one
   value, if every string of the tree can be written; if not, the run is refused with a prefix of that text.
   */
  lemma {:induction false} WriterPrints(style: Style, target: Target, st: State, v: Value, o: Origin)
    requires AcceptsValue(st) && NoDoubles(v)
    ensures Comes(Run(style, target, st, Events(v, o)), AllWritable(target, v),
                  Put(Placed(style, st), Print(style, target, |st.levels|, v)))
    decreases v
  {
    match v {
      case ArrayValue(vs) => WriterArray(style, target, st, vs, o);
      case ObjectValue(ms) => WriterObject(style, target, st, ms, o);
      case NullValue => RunOne(style, target, st, Null);
      case BoolValue(b) => RunOne(style, target, st, Bool(b));
      case NumberValue(n) => RunOne(style, target, st, if o == FromTree then NumberEvent(n) else ReaderEvent(n));
      case StringValue(text) => RunText(style, target, st, String(text));
      case DoubleValue(_) => assert false;
    }
  }

  /** The bracket events of a container are accepted where its value is, and only add text. */
  lemma Brackets(style: Style, target: Target, st: State, inArray: bool, count: nat, body: bytes)
    requires AcceptsValue(st)
    ensures var open := if inArray then StartArray else StartObject;
            var close := if inArray then EndArray(count) else EndObject(count);
            var s1 := Put(Pushed(Placed(style, st), inArray), if inArray then [0x5B] else [0x7B]);
            var s2 := Counted(s1, if inArray then count else 2 * count, body);
            && Accepts(st, open) && !Refuses(target, open) && Step(style, target, st, open) == s1
            && |s1.levels| == |st.levels| + 1 && s1.levels[|st.levels|] == Level(0, inArray)
            && s1.os <= s2.os && Accepts(s2, close) && !Refuses(target, close)
            && Step(style, target, s2, close) == Put(Popped(style, s2), if inArray then [0x5D] else [0x7D])
            && s2.os <= Step(style, target, s2, close).os
  {
    hide Placed, CloseText;
  }

  lemma {:induction false} WriterArray(style: Style, target: Target, st: State, vs: seq<Value>, o: Origin)
    requires AcceptsValue(st) && NoDoubles(ArrayValue(vs))
    ensures Comes(Run(style, target, st, Events(ArrayValue(vs), o)), AllWritable(target, ArrayValue(vs)),
                  Put(Placed(style, st), Print(style, target, |st.levels|, ArrayValue(vs))))
    decreases vs, 2
  {
    hide Placed, CloseText, Run, PrintElements, ElementEvents, Step, Accepts, Refuses, Counted, Popped, Pushed, Put;
    var p := Placed(style, st);
    var s1 := Put(Pushed(p, true), [0x5B]);
    var body := PrintElements(style, target, |st.levels| + 1, vs, 0);
    Brackets(style, target, st, true, |vs|, body);
    WriterElements(style, target, s1, vs, 0, o);
    var s2 := Counted(s1, |vs|, body);
    RunBracket(style, target, st, StartArray, ElementEvents(vs, o), EndArray(|vs|),
               ElementsWritable(target, vs), s1, s2);
    ClosedText(style, p, [0x5B], body, |vs|, true, [0x5D]);
  }

  lemma {:induction false} WriterObject(style: Style, target: Target, st: State, ms: seq<Member>, o: Origin)
    requires AcceptsValue(st) && NoDoubles(ObjectValue(ms))
    ensures Comes(Run(style, target, st, Events(ObjectValue(ms), o)), AllWritable(target, ObjectValue(ms)),
                  Put(Placed(style, st), Print(style, target, |st.levels|, ObjectValue(ms))))
    decreases ms, 2
  {
    hide Placed, CloseText, Run, PrintMembers, MemberEvents, Step, Accepts, Refuses, Counted, Popped, Pushed, Put;
    var p := Placed(style, st);
    var s1 := Put(Pushed(p, false), [0x7B]);
    var body := PrintMembers(style, target, |st.levels| + 1, ms, 0);
    Brackets(style, target, st, false, |ms|, body);
    WriterMembers(style, target, s1, ms, 0, o);
    var s2 := Counted(s1, 2 * |ms|, body);
    RunBracket(style, target, st, StartObject, MemberEvents(ms, o), EndObject(|ms|),
               MembersWritable(target, ms), s1, s2);
    ClosedText(style, p, [0x7B], body, 2 * |ms|, false, [0x7D]);
  }

  /** Opening bracket, body and closing bracket of a container add up. */
  lemma ClosedText(style: Style, p: State, open: bytes, body: bytes, n: nat, inArray: bool, close: bytes)
    ensures Put(Popped(style, Counted(Put(Pushed(p, inArray), open), n, body)), close)
         == Put(p, open + body + CloseText(style, |p.levels|, Level(n, inArray)) + close)
  {
    hide CloseText;
    var gap := CloseText(style, |p.levels|, Level(n, inArray));
    var s1 := Put(Pushed(p, inArray), open);
    assert s1.levels[..|p.levels|] == p.levels;
    var s2 := Counted(s1, n, body);
    assert s2.levels == p.levels + [Level(n, inArray)];
    assert s2.levels[..|p.levels|] == p.levels;
    Concat4(p.os, open, body, gap, close);
  }

  lemma Concat4(a: bytes, b: bytes, c: bytes, d: bytes, e: bytes)
    ensures a + b + c + d + e == a + (b + c + d + e)
  {
  }

  /** An element is placed and printed, and the level counts one more. */
  lemma PlacedText(style: Style, st: State, text: bytes, n: nat, more: bytes)
    requires st.levels != []
    ensures var last := |st.levels| - 1;
            var placed := Put(Placed(style, st), text);
            && placed.levels != [] && |placed.levels| == |st.levels|
            && placed.levels[last] == Level(st.levels[last].valueCount + 1, st.levels[last].inArray)
            && Counted(placed, n, more)
            == Counted(st, n, PlaceText(style, |st.levels|, st.levels[last]) + text + more)
  {
    hide PlaceText;
    var last := |st.levels| - 1;
    var gap := PlaceText(style, |st.levels|, st.levels[last]);
    assert Placed(style, st).levels[..last] == st.levels[..last];
    assert st.os + gap + text + more == st.os + (gap + text + more);
  }

  lemma ElementsWritableOf(target: Target, vs: seq<Value>)
    ensures vs == [] ==> ElementsWritable(target, vs)
    ensures vs != [] ==> ElementsWritable(target, vs)
                         == (AllWritable(target, vs[0]) && ElementsWritable(target, vs[1..]))
  {
    hide AllWritable;
    assert forall k :: 0 < k < |vs| ==> vs[k] == vs[1..][k - 1];
  }

  lemma {:induction false} WriterElements(style: Style, target: Target, st: State, vs: seq<Value>, k: nat, o: Origin)
    requires st.levels != [] && st.levels[|st.levels| - 1] == Level(k, true)
    requires forall j :: 0 <= j < |vs| ==> NoDoubles(vs[j])
    ensures Comes(Run(style, target, st, ElementEvents(vs, o)), ElementsWritable(target, vs),
                  Counted(st, k + |vs|, PrintElements(style, target, |st.levels|, vs, k)))
    decreases vs, 1
  {
    hide PlaceText, Step, ElementsWritable, AllWritable;
    ElementsWritableOf(target, vs);
    if vs == [] {
      assert Counted(st, k, []) == st;
    } else {
      var text := Print(style, target, |st.levels|, vs[0]);
      var more := PrintElements(style, target, |st.levels|, vs[1..], k + 1);
      WriterPrints(style, target, st, vs[0], o);
      var s1 := Put(Placed(style, st), text);
      PlacedText(style, st, text, k + |vs|, more);
      hide Placed, Run;
      WriterElements(style, target, s1, vs[1..], k + 1, o);
      RunSequence(style, target, st, Events(vs[0], o), AllWritable(target, vs[0]), s1,
                  ElementEvents(vs[1..], o), ElementsWritable(target, vs[1..]), Counted(s1, k + |vs|, more));
    }
  }

  lemma NothingCounted(st: State, n: nat)
    requires st.levels != [] && st.levels[|st.levels| - 1].valueCount == n
    ensures Counted(st, n, []) == st
  {
  }

  lemma MembersWritableOf(target: Target, ms: seq<Member>)
    ensures ms == [] ==> MembersWritable(target, ms)
    ensures ms != [] ==> MembersWritable(target, ms)
                         == (Writable(target, ms[0].name) && AllWritable(target, ms[0].value)
                             && MembersWritable(target, ms[1..]))
  {
    hide AllWritable, Writable;
    assert forall k :: 0 < k < |ms| ==> ms[k] == ms[1..][k - 1];
  }

  /** A name and a value are placed one after the other, and the level counts two more. */
  lemma MemberPlaced(style: Style, st: State, name: bytes, text: bytes, k: nat, n: nat, more: bytes)
    requires st.levels != [] && st.levels[|st.levels| - 1] == Level(2 * k, false)
    ensures var s1 := Put(Placed(style, st), name);
            var s2 := Put(Placed(style, s1), text);
            && AcceptsValue(s1) && |s1.levels| == |st.levels| == |s2.levels|
            && s2.levels[|st.levels| - 1] == Level(2 * (k + 1), false)
            && Counted(s2, n, more)
            == Counted(st, n, PlaceText(style, |st.levels|, Level(2 * k, false)) + name
                              + PlaceText(style, |st.levels|, Level(2 * k + 1, false)) + text + more)
  {
    hide PlaceText, Placed, Counted;
    var s1 := Put(Placed(style, st), name);
    PlacedText(style, s1, text, n, more);
    PlacedText(style, st, name, n, PlaceText(style, |st.levels|, Level(2 * k + 1, false)) + text + more);
    MemberText(PlaceText(style, |st.levels|, Level(2 * k, false)), name,
               PlaceText(style, |st.levels|, Level(2 * k + 1, false)), text, more);
  }

  lemma {:induction false} WriterMembers(style: Style, target: Target, st: State, ms: seq<Member>, k: nat, o: Origin)
    requires st.levels != [] && st.levels[|st.levels| - 1] == Level(2 * k, false)
    requires forall j :: 0 <= j < |ms| ==> NoDoubles(ms[j].value)
    ensures Comes(Run(style, target, st, MemberEvents(ms, o)), MembersWritable(target, ms),
                  Counted(st, 2 * (k + |ms|), PrintMembers(style, target, |st.levels|, ms, k)))
    decreases ms, 1
  {
    hide PlaceText, Quoted, Placed, Step, Print, Counted, MembersWritable, AllWritable, Writable;
    MembersWritableOf(target, ms);
    if ms == [] {
      NothingCounted(st, 2 * k);
    } else {
      hide Run;
      var m, n := ms[0], 2 * (k + |ms|);
      var name, text := Quoted(target, m.name), Print(style, target, |st.levels|, m.value);
      var more := PrintMembers(style, target, |st.levels|, ms[1..], k + 1);
      var s1 := Put(Placed(style, st), name);
      var s2 := Put(Placed(style, s1), text);
      RunText(style, target, st, Key(m.name));
      MemberPlaced(style, st, name, text, k, n, more);
      WriterPrints(style, target, s1, m.value, o);
      WriterMembers(style, target, s2, ms[1..], k + 1, o);
      PlacedGrows(style, s1, text);
      CountedGrows(s2, n, more);
      RunSequence(style, target, st, [Key(m.name)], Writable(target, m.name), s1,
                  Events(m.value, o), AllWritable(target, m.value), s2);
      RunSequence(style, target, st, [Key(m.name)] + Events(m.value, o),
                  Writable(target, m.name) && AllWritable(target, m.value), s2,
                  MemberEvents(ms[1..], o), MembersWritable(target, ms[1..]), Counted(s2, n, more));
    }
  }

  lemma PlacedGrows(style: Style, st: State, text: bytes)
    ensures st.os <= Put(Placed(style, st), text).os
  {
    hide PlaceText;
  }

  lemma CountedGrows(st: State, n: nat, text: bytes)
    requires st.levels != []
    ensures st.os <= Counted(st, n, text).os
  {
  }

  lemma MemberText(a: bytes, b: bytes, c: bytes, d: bytes, e: bytes)
    ensures a + b + (c + d + e) == a + b + c + d + e
  {
  }
}
