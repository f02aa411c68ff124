/** GenericValue, the events it sends from Accept, and GenericDocument, which builds it back on a stack. */
module Dom {
  import opened Bytes
  import opened Sax
  import opened Wrappers

  datatype Member = Member(name: bytes, value: Value)

  datatype Value =
    | NullValue
    | BoolValue(b: bool)
    | NumberValue(n: int)
    | DoubleValue(lexeme: bytes)
    | StringValue(text: bytes)
    | ArrayValue(elements: seq<Value>)
    | ObjectValue(members: seq<Member>)

  /** Accept on a number: the flags of a GenericValue follow from its value alone. */
  function NumberEvent(n: int): Event {
    if -0x8000_0000 <= n < 0x8000_0000 then Int(n)
    else if 0 <= n <= 0xFFFF_FFFF then Uint(n)
    else if n < 0x8000_0000_0000_0000 then Int64(n)
    else Uint64(n)
  }

  /** The event that the reader sends for the same number. */
  function ReaderEvent(n: int): Event {
    if n < 0 then
      if n >= -0x8000_0000 then Int(n) else Int64(n)
    else
      if n <= 0xFFFF_FFFF then Uint(n) else Uint64(n)
  }

  /** The number is one of the type of the handler's argument. */
  predicate InRange(e: Event) {
    match e
    case Int(n) => -2147483648 <= n <= 2147483647
    case Uint(n) => 0 <= n <= 4294967295
    case Int64(n) => -9223372036854775808 <= n <= 9223372036854775807
    case Uint64(n) => 0 <= n <= 18446744073709551615
    case _ => true
  }

  /**
   A tree sends a number as the first of Int, Uint, Int64 and Uint64 that can hold it; the reader as the first of Uint
   and Uint64, or behind a minus sign of Int and Int64.
   */
  lemma EventClasses(n: int)
    requires -9223372036854775808 <= n <= 18446744073709551615
    ensures NumberEvent(n) == if InRange(Int(n)) then Int(n) else if InRange(Uint(n)) then Uint(n)
                              else if InRange(Int64(n)) then Int64(n) else Uint64(n)
    ensures n >= 0 ==> ReaderEvent(n) == if InRange(Uint(n)) then Uint(n) else Uint64(n)
    ensures n < 0 ==> ReaderEvent(n) == if InRange(Int(n)) then Int(n) else Int64(n)
    ensures InRange(NumberEvent(n)) && InRange(ReaderEvent(n))
  {
  }

  datatype Origin = FromTree | FromText

  /** The events of a tree, as Accept sends them or as the reader sends them for its text. */
  function Events(v: Value, o: Origin): Log
    decreases v
  {
    match v
    case NullValue => [Null]
    case BoolValue(b) => [Bool(b)]
    case NumberValue(n) => [if o == FromTree then NumberEvent(n) else ReaderEvent(n)]
    case DoubleValue(lexeme) => [Double(lexeme)]
    case StringValue(text) => [String(text)]
    case ArrayValue(elements) => [StartArray] + ElementEvents(elements, o) + [EndArray(|elements|)]
    case ObjectValue(members) => [StartObject] + MemberEvents(members, o) + [EndObject(|members|)]
  }

  function ElementEvents(vs: seq<Value>, o: Origin): Log
    decreases vs
  {
    if vs == [] then [] else Events(vs[0], o) + ElementEvents(vs[1..], o)
  }

  function MemberEvents(ms: seq<Member>, o: Origin): Log
    decreases ms
  {
    if ms == [] then [] else [Key(ms[0].name)] + Events(ms[0].value, o) + MemberEvents(ms[1..], o)
  }

  // ---------- GenericDocument ----------

  /** Reads a stretch of the stack as Members: names at even places, which must be strings. */
  function Pairs(vs: seq<Value>): Option<seq<Member>> {
    if vs == [] then Some([])
    else if |vs| == 1 || !vs[0].StringValue? then None
    else
      match Pairs(vs[2..])
      case None => None
      case Some(ms) => Some([Member(vs[0].text, vs[1])] + ms)
  }

  /** What a handler method does to stack_; None where an assertion of the source fails. */
  function DocumentStep(stack: seq<Value>, e: Event): Option<seq<Value>> {
    match e
    case Null => Some(stack + [NullValue])
    case Bool(b) => Some(stack + [BoolValue(b)])
    case Int(n) => Some(stack + [NumberValue(n)])
    case Uint(n) => Some(stack + [NumberValue(n)])
    case Int64(n) => Some(stack + [NumberValue(n)])
    case Uint64(n) => Some(stack + [NumberValue(n)])
    case Double(lexeme) => Some(stack + [DoubleValue(lexeme)])
    case String(text) => Some(stack + [StringValue(text)])
    case Key(text) => Some(stack + [StringValue(text)])
    case StartObject => Some(stack + [ObjectValue([])])
    case StartArray => Some(stack + [ArrayValue([])])
    case EndObject(count) => CloseObject(stack, count)
    case EndArray(count) => CloseArray(stack, count)
  }

  function CloseObject(stack: seq<Value>, count: nat): Option<seq<Value>> {
    if |stack| < 2 * count + 1 then None
    else
      var base := |stack| - 2 * count;
      match Pairs(stack[base..])
      case None => None
      case Some(ms) => Some(stack[..base - 1] + [ObjectValue(ms)])
  }

  function CloseArray(stack: seq<Value>, count: nat): Option<seq<Value>> {
    if |stack| < count + 1 then None
    else
      var base := |stack| - count;
      Some(stack[..base - 1] + [ArrayValue(stack[base..])])
  }

  function DocumentRun(stack: seq<Value>, log: Log): Option<seq<Value>>
    decreases |log|
  {
    if log == [] then Some(stack)
    else
      match DocumentStep(stack, log[0])
      case None => None
      case Some(stack') => DocumentRun(stack', log[1..])
  }

  lemma {:induction false} DocumentRunConcat(stack: seq<Value>, a: Log, b: Log)
    requires DocumentRun(stack, a).Some?
    ensures DocumentRun(stack, a + b) == DocumentRun(DocumentRun(stack, a).value, b)
    decreases |a|
  {
    if a == [] {
      assert a + b == b;
    } else {
      assert (a + b)[0] == a[0] && (a + b)[1..] == a[1..] + b;
      DocumentRunConcat(DocumentStep(stack, a[0]).value, a[1..], b);
    }
  }

  lemma DocumentRunOne(stack: seq<Value>, e: Event)
    ensures DocumentRun(stack, [e]) == DocumentStep(stack, e)
  {
    assert [e][1..] == [];
  }

  /** Names and values alternating, as the handler leaves the members of an open object on the stack. */
  function Flat(ms: seq<Member>): seq<Value> {
    if ms == [] then [] else [StringValue(ms[0].name), ms[0].value] + Flat(ms[1..])
  }

  lemma {:induction false} PairsFlat(ms: seq<Member>)
    ensures |Flat(ms)| == 2 * |ms| && Pairs(Flat(ms)) == Some(ms)
  {
    if ms != [] {
      PairsFlat(ms[1..]);
      assert Flat(ms)[2..] == Flat(ms[1..]);
      assert [ms[0]] + ms[1..] == ms;
    }
  }

  /** An opening event, the events in between, and a closing event, run one after the other. */
  lemma DocumentBracket(stack: seq<Value>, open: Event, body: Log, close: Event, s1: seq<Value>, s2: seq<Value>)
    requires DocumentStep(stack, open) == Some(s1) && DocumentRun(s1, body) == Some(s2)
    ensures DocumentRun(stack, [open] + body + [close]) == DocumentStep(s2, close)
  {
    hide DocumentStep;
    DocumentRunOne(stack, open);
    DocumentRunConcat(stack, [open], body);
    DocumentRunConcat(stack, [open] + body, [close]);
    DocumentRunOne(s2, close);
  }

  lemma CloseArrayOf(stack: seq<Value>, vs: seq<Value>)
    ensures CloseArray(stack + [ArrayValue([])] + vs, |vs|) == Some(stack + [ArrayValue(vs)])
  {
    var full := stack + [ArrayValue([])] + vs;
    assert full[..|stack|] == stack && full[|stack| + 1..] == vs;
  }

  lemma CloseObjectOf(stack: seq<Value>, ms: seq<Member>)
    ensures CloseObject(stack + [ObjectValue([])] + Flat(ms), |ms|) == Some(stack + [ObjectValue(ms)])
  {
    PairsFlat(ms);
    hide Pairs, Flat;
    var full := stack + [ObjectValue([])] + Flat(ms);
    assert full[..|stack|] == stack && full[|stack| + 1..] == Flat(ms);
  }

  /** The events of a tree push exactly that tree, whichever way its numbers were announced. */
  lemma {:induction false} DocumentRebuilds(stack: seq<Value>, v: Value, o: Origin)
    ensures DocumentRun(stack, Events(v, o)) == Some(stack + [v])
    decreases v
  {
    hide DocumentRun, CloseArray, CloseObject, Flat;
    match v {
      case ArrayValue(elements) =>
        var inner := stack + [ArrayValue([])];
        DocumentElements(inner, elements, o);
        DocumentBracket(stack, StartArray, ElementEvents(elements, o), EndArray(|elements|), inner, inner + elements);
        CloseArrayOf(stack, elements);
      case ObjectValue(members) =>
        var inner := stack + [ObjectValue([])];
        DocumentMembers(inner, members, o);
        DocumentBracket(stack, StartObject, MemberEvents(members, o), EndObject(|members|),
                        inner, inner + Flat(members));
        CloseObjectOf(stack, members);
      case _ =>
        DocumentRunOne(stack, Events(v, o)[0]);
    }
  }

  lemma {:induction false} DocumentElements(stack: seq<Value>, vs: seq<Value>, o: Origin)
    ensures DocumentRun(stack, ElementEvents(vs, o)) == Some(stack + vs)
    decreases vs
  {
    if vs == [] {
      assert stack + vs == stack;
    } else {
      DocumentRebuilds(stack, vs[0], o);
      DocumentElements(stack + [vs[0]], vs[1..], o);
      DocumentRunConcat(stack, Events(vs[0], o), ElementEvents(vs[1..], o));
      assert stack + [vs[0]] + vs[1..] == stack + vs;
    }
  }

  lemma {:induction false} DocumentMembers(stack: seq<Value>, ms: seq<Member>, o: Origin)
    ensures DocumentRun(stack, MemberEvents(ms, o)) == Some(stack + Flat(ms))
    decreases ms
  {
    hide CloseArray, CloseObject;
    if ms == [] {
      assert stack + Flat(ms) == stack;
    } else {
      var key, rest := [Key(ms[0].name)], MemberEvents(ms[1..], o);
      var named := stack + [StringValue(ms[0].name)];
      DocumentRunOne(stack, Key(ms[0].name));
      DocumentRebuilds(named, ms[0].value, o);
      DocumentMembers(named + [ms[0].value], ms[1..], o);
      DocumentRunConcat(stack, key, Events(ms[0].value, o));
      DocumentRunConcat(stack, key + Events(ms[0].value, o), rest);
      assert named + [ms[0].value] + Flat(ms[1..]) == stack + Flat(ms);
    }
  }

  /** The handler: every method leaves stack_ as DocumentStep says. */
  class GenericDocument {
    var stack: seq<Value>

    constructor ()
      ensures stack == []
    {
      stack := [];
    }

    /** Null, Bool, Int, Uint, Int64, Uint64, Double and String. */
    method Scalar(e: Event)
      requires !e.Key? && !e.StartObject? && !e.EndObject? && !e.StartArray? && !e.EndArray?
      modifies this
      ensures Some(stack) == DocumentStep(old(stack), e)
    {
      var v: Value;
      match e {
        case Null => v := NullValue;
        case Bool(b) => v := BoolValue(b);
        case Int(n) => v := NumberValue(n);
        case Uint(n) => v := NumberValue(n);
        case Int64(n) => v := NumberValue(n);
        case Uint64(n) => v := NumberValue(n);
        case Double(lexeme) => v := DoubleValue(lexeme);
        case String(text) => v := StringValue(text);
      }
      stack := stack + [v];
    }

    method Key(text: bytes)
      modifies this
      ensures Some(stack) == DocumentStep(old(stack), Event.Key(text))
    {
      stack := stack + [StringValue(text)];
    }

    method StartObject()
      modifies this
      ensures Some(stack) == DocumentStep(old(stack), Event.StartObject)
    {
      stack := stack + [ObjectValue([])];
    }

    method StartArray()
      modifies this
      ensures Some(stack) == DocumentStep(old(stack), Event.StartArray)
    {
      stack := stack + [ArrayValue([])];
    }

    /** Pops the members as pairs and stores them in the object below them. */
    method EndObject(memberCount: nat)
      requires DocumentStep(stack, Event.EndObject(memberCount)).Some?
      modifies this
      ensures Some(stack) == DocumentStep(old(stack), Event.EndObject(memberCount))
    {
      var base := |stack| - 2 * memberCount;
      var raw := stack[base..];
      stack := stack[..base];
      var members: seq<Member> := [];
      var k := memberCount;
      while k > 0
        invariant 0 <= k <= memberCount
        invariant Pairs(raw[2 * k..]) == Some(members)
        invariant Pairs(raw).Some? && stack == old(stack)[..base]
      {
        k := k - 1;
        PairsSuffix(raw, k);
        assert raw[2 * k..][2..] == raw[2 * (k + 1)..];
        members := [Member(raw[2 * k].text, raw[2 * k + 1])] + members;
      }
      assert raw[0..] == raw;
      assert stack[..base - 1] == old(stack)[..base - 1];
      stack := stack[..|stack| - 1] + [ObjectValue(members)];
    }

    method EndArray(elementCount: nat)
      requires DocumentStep(stack, Event.EndArray(elementCount)).Some?
      modifies this
      ensures Some(stack) == DocumentStep(old(stack), Event.EndArray(elementCount))
    {
      var base := |stack| - elementCount;
      var elements := stack[base..];
      stack := stack[..base];
      assert stack[..base - 1] == old(stack)[..base - 1];
      stack := stack[..|stack| - 1] + [ArrayValue(elements)];
    }
  }

  lemma {:induction false} PairsSuffix(vs: seq<Value>, k: nat)
    requires Pairs(vs).Some? && 2 * k < |vs|
    ensures 2 * k + 1 < |vs| && vs[2 * k].StringValue? && Pairs(vs[2 * k..]).Some?
  {
    if k == 0 {
      assert vs[0..] == vs;
    } else {
      PairsSuffix(vs[2..], k - 1);
      assert vs[2..][2 * (k - 1)..] == vs[2 * k..];
      assert vs[2..][2 * (k - 1)] == vs[2 * k];
    }
  }
}
