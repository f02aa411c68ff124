/**
 The table-driven pushdown parser of reader.h (Tokenize, Predict, Transit, IterativeParse)
 and its equivalence with the recursive-descent parser, for every text, flag and handler.
 */
module Pushdown {
  import opened Bytes
  import opened Characters
  import opened Grammar
  import opened Sax

  datatype State =
    | Finish
    | Error
    | Start
    | ObjectInitial
    | MemberKey
    | MemberValue
    | ObjectFinish
    | ArrayInitial
    | Element
    | ArrayFinish
    | SingleValue
    | ElementDelimiter
    | MemberDelimiter
    | KeyValueDelimiter

  datatype Token =
    | LeftBracketToken
    | RightBracketToken
    | LeftCurlyToken
    | RightCurlyToken
    | CommaToken
    | ColonToken
    | StringToken
    | FalseToken
    | TrueToken
    | NullToken
    | NumberToken
  {
    /** The tokens that start a value of one token. */
    predicate Scalar() {
      StringToken? || FalseToken? || TrueToken? || NullToken? || NumberToken?
    }
  }

  function Tokenize(b: byte): Token {
    if b == QUOTE then StringToken
    else if b == COMMA then CommaToken
    else if b == COLON then ColonToken
    else if b == LEFT_BRACKET then LeftBracketToken
    else if b == RIGHT_BRACKET then RightBracketToken
    else if b == LOWER_F then FalseToken
    else if b == LOWER_N then NullToken
    else if b == LOWER_T then TrueToken
    else if b == LEFT_BRACE then LeftCurlyToken
    else if b == RIGHT_BRACE then RightCurlyToken
    else NumberToken
  }

  /** The table G: current state and lookahead token to the next state. */
  function Predict(state: State, token: Token): State {
    match state
    case Start =>
      if token.LeftBracketToken? then ArrayInitial
      else if token.LeftCurlyToken? then ObjectInitial
      else if token.Scalar() then SingleValue
      else Error
    case ObjectInitial =>
      if token.RightCurlyToken? then ObjectFinish else if token.StringToken? then MemberKey else Error
    case MemberKey =>
      if token.ColonToken? then KeyValueDelimiter else Error
    case MemberValue =>
      if token.RightCurlyToken? then ObjectFinish else if token.CommaToken? then MemberDelimiter else Error
    case ArrayInitial =>
      if token.LeftBracketToken? then ArrayInitial
      else if token.RightBracketToken? then ArrayFinish
      else if token.LeftCurlyToken? then ObjectInitial
      else if token.Scalar() then Element
      else Error
    case Element =>
      if token.RightBracketToken? then ArrayFinish else if token.CommaToken? then ElementDelimiter else Error
    case ElementDelimiter =>
      if token.LeftBracketToken? then ArrayInitial
      else if token.RightBracketToken? then ArrayFinish
      else if token.LeftCurlyToken? then ObjectInitial
      else if token.Scalar() then Element
      else Error
    case MemberDelimiter =>
      if token.RightCurlyToken? then ObjectFinish else if token.StringToken? then MemberKey else Error
    case KeyValueDelimiter =>
      if token.LeftBracketToken? then ArrayInitial
      else if token.LeftCurlyToken? then ObjectInitial
      else if token.Scalar() then MemberValue
      else Error
    case _ => Error
  }

  /** Two entries of stack_: the state to restore when a container ends, and its count so far. */
  datatype Frame = Frame(resume: State, count: nat)

  /** The machine after one transition. */
  datatype Configuration =
    | Running(pos: nat, log: Log, state: State, stack: seq<Frame>)
    | Stopped(log: Log)

  function Advance(r: Outcome, state: State, stack: seq<Frame>): Configuration {
    match r
    case Ok(pos, log) => Running(pos, log, state, stack)
    case Err(log) => Stopped(log)
  }

  /** The state that the frame of a nested container will restore. */
  function Nested(src: State): State {
    if src == ArrayInitial || src == ElementDelimiter then Element
    else if src == KeyValueDelimiter then MemberValue
    else src
  }

  function Resumed(n: State): State { if n == Start then Finish else n }

  /** Transit: carries out the transition from `src` to the predicted state `dst`. */
  function Transit(c: Config, s: bytes, i: nat, log: Log, src: State, dst: State, stack: seq<Frame>): (r: Configuration)
    requires At(s, i) != NUL
    ensures r.Running? ==> i < r.pos <= |s|
  {
    match dst
    case ObjectInitial =>
      Advance(Emit(c, i + 1, log, StartObject), dst, stack + [Frame(Nested(src), 0)])
    case ArrayInitial =>
      Advance(Emit(c, i + 1, log, StartArray), dst, stack + [Frame(Nested(src), 0)])
    case MemberKey =>
      if At(s, i) == QUOTE then Advance(PString(c, s, i, log, true), dst, stack) else Stopped(log)
    case KeyValueDelimiter => Running(i + 1, log, dst, stack)
    case MemberValue => Advance(PValue(c, s, i, log), dst, stack)
    case Element => Advance(PValue(c, s, i, log), dst, stack)
    case MemberDelimiter => CountOne(i, log, dst, stack)
    case ElementDelimiter => CountOne(i, log, dst, stack)
    case ObjectFinish =>
      if (!c.trailingCommas && src == MemberDelimiter) || stack == [] then Stopped(log)
      else
        var top := stack[|stack| - 1];
        var count := if src == MemberValue then top.count + 1 else top.count;
        Advance(Emit(c, i + 1, log, EndObject(count)), Resumed(top.resume), stack[..|stack| - 1])
    case ArrayFinish =>
      if (!c.trailingCommas && src == ElementDelimiter) || stack == [] then Stopped(log)
      else
        var top := stack[|stack| - 1];
        var count := if src == Element then top.count + 1 else top.count;
        Advance(Emit(c, i + 1, log, EndArray(count)), Resumed(top.resume), stack[..|stack| - 1])
    case SingleValue => Advance(PValue(c, s, i, log), Finish, stack)
    case _ => Stopped(log)
  }

  function CountOne(i: nat, log: Log, dst: State, stack: seq<Frame>): Configuration {
    if stack == [] then Stopped(log)
    else
      var top := stack[|stack| - 1];
      Running(i + 1, log, dst, stack[|stack| - 1 := top.(count := top.count + 1)])
  }

  function CountTop(stack: seq<Frame>): seq<Frame>
    requires stack != []
  {
    var top := stack[|stack| - 1];
    stack[|stack| - 1 := top.(count := top.count + 1)]
  }

  /** The state resumed by a frame: Start at the bottom, else a value of the container below. */
  ghost predicate FramesNest(stack: seq<Frame>) {
    forall k :: 0 <= k < |stack| ==> stack[k].resume in if k == 0 then {Start} else {Element, MemberValue}
  }

  /** Inside a container there is a frame for it; at the root there is none. */
  ghost predicate Nesting(state: State, stack: seq<Frame>) {
    && FramesNest(stack)
    && state in {Start, Finish, ObjectInitial, MemberKey, MemberValue, ArrayInitial, Element, ElementDelimiter,
                 MemberDelimiter, KeyValueDelimiter}
    && (stack == [] <==> state == Start || state == Finish)
  }

  /** The loop of IterativeParse, entered with white space already skipped. */
  function Run(c: Config, s: bytes, i: nat, log: Log, state: State, stack: seq<Frame>): (r: Outcome)
    requires i <= |s|
    ensures r.Ok? ==> r.pos <= |s|
    decreases |s| - i, 1
  {
    if At(s, i) == NUL then
      if state == Finish then Ok(i, log) else Err(log)
    else
      match Transit(c, s, i, log, state, Predict(state, Tokenize(At(s, i))), stack)
      case Stopped(log) => Err(log)
      case Running(pos, log, state, stack) => Resume(c, s, pos, log, state, stack)
  }

  /** The end of a round of that loop. */
  function Resume(c: Config, s: bytes, i: nat, log: Log, state: State, stack: seq<Frame>): (r: Outcome)
    requires i <= |s|
    ensures r.Ok? ==> r.pos <= |s|
    decreases |s| - i, 2
  {
    if c.stopWhenDone && state == Finish then Ok(i, log)
    else
      var (j, log) :- Skip(c, s, i, log);
      Run(c, s, j, log, state, stack)
  }

  /** IterativeParse. */
  function IterativeParse(c: Config, s: bytes): (r: Outcome)
    ensures r.Ok? ==> r.pos <= |s|
  {
    var (i, log) :- Skip(c, s, 0, []);
    Run(c, s, i, log, Start, [])
  }

  // ---------- Simulation ----------

  /** What the machine does after a value parsed with outcome `r`, started in state `src`. */
  function AfterValue(c: Config, s: bytes, r: Outcome, src: State, stack: seq<Frame>): Outcome
    requires r.Ok? ==> r.pos <= |s|
  {
    match r
    case Err(log) => Err(log)
    case Ok(pos, log) => Resume(c, s, pos, log, Resumed(Nested(src)), stack)
  }

  /** One round of the loop. */
  lemma Round(c: Config, s: bytes, i: nat, log: Log, src: State, stack: seq<Frame>)
    requires i <= |s|
    ensures Run(c, s, i, log, src, stack) ==
      if At(s, i) == NUL then
        if src == Finish then Ok(i, log) else Err(log)
      else
        match Transit(c, s, i, log, src, Predict(src, Tokenize(At(s, i))), stack)
        case Stopped(log') => Err(log')
        case Running(pos, log', state, stack') => Resume(c, s, pos, log', state, stack')
  {
    hide Predict, Transit, Tokenize, Resume;
  }

  /** ParseValue rejects the text's end and the tokens that start no value without sending anything. */
  lemma NoValue(c: Config, s: bytes, i: nat, log: Log)
    requires i <= |s| && At(s, i) in {NUL, RIGHT_BRACKET, RIGHT_BRACE, COMMA, COLON}
    ensures PValue(c, s, i, log) == Err(log)
  {
    hide FractionEnd, ExponentEnd, PLiteral, PString;
  }

  predicate ExpectsValue(src: State) {
    src == Start || src == ArrayInitial || src == ElementDelimiter || src == KeyValueDelimiter
  }

  /** A value, met where a value may stand, is treated alike by the machine and by ParseValue. */
  lemma {:induction false} SimulateValue(c: Config, s: bytes, i: nat, log: Log, src: State, stack: seq<Frame>)
    requires i <= |s| && ExpectsValue(src)
    requires At(s, i) == RIGHT_BRACKET && c.trailingCommas ==> src == Start || src == KeyValueDelimiter
    requires At(s, i) == RIGHT_BRACKET ==> src != ArrayInitial
    ensures Run(c, s, i, log, src, stack) == AfterValue(c, s, PValue(c, s, i, log), src, stack)
    decreases |s| - i, 1
  {
    hide Skip, PString, PNumber, PLiteral, PObject, PArray, Resume, Run;
    Round(c, s, i, log, src, stack);
    if At(s, i) in {NUL, RIGHT_BRACKET, RIGHT_BRACE, COMMA, COLON} {
      NoValue(c, s, i, log);
    }
    if At(s, i) == LEFT_BRACE {
      SimulateObject(c, s, i, log, src, stack);
    } else if At(s, i) == LEFT_BRACKET {
      SimulateArray(c, s, i, log, src, stack);
    }
  }

  predicate InObject(at: State) { at in {ObjectInitial, MemberValue, MemberDelimiter} }

  predicate InArray(at: State) { at in {ArrayInitial, Element, ElementDelimiter} }

  /**
   The closing bracket of the container that `at` belongs to: the last value is counted here, a trailing comma
   refused.
   */
  lemma CloseContainer(c: Config, s: bytes, i: nat, log: Log, at: State, count: nat, src: State, stack: seq<Frame>)
    requires i <= |s| && ExpectsValue(src) && (InObject(at) || InArray(at))
    requires At(s, i) == if InObject(at) then RIGHT_BRACE else RIGHT_BRACKET
    ensures Run(c, s, i, log, at, stack + [Frame(Nested(src), count)]) ==
      var total := if at == MemberValue || at == Element then count + 1 else count;
      if !c.trailingCommas && (at == MemberDelimiter || at == ElementDelimiter) then Err(log)
      else AfterValue(c, s, Emit(c, i + 1, log, if InObject(at) then EndObject(total) else EndArray(total)), src, stack)
  {
    hide Run, Resume;
    var inner := stack + [Frame(Nested(src), count)];
    assert inner[..|inner| - 1] == stack;
    Round(c, s, i, log, at, inner);
  }

  /** The opening brace: the event, and a frame for the count. */
  lemma OpenObject(c: Config, s: bytes, i: nat, log: Log, src: State, stack: seq<Frame>)
    requires i <= |s| && ExpectsValue(src) && At(s, i) == LEFT_BRACE
    ensures Run(c, s, i, log, src, stack) ==
      match Emit(c, i + 1, log, StartObject)
      case Err(log') => Err(log')
      case Ok(pos, log') => Resume(c, s, pos, log', ObjectInitial, stack + [Frame(Nested(src), 0)])
  {
    hide Run, Resume;
    Round(c, s, i, log, src, stack);
  }

  lemma {:induction false} SimulateObject(c: Config, s: bytes, i: nat, log: Log, src: State, stack: seq<Frame>)
    requires i <= |s| && ExpectsValue(src) && At(s, i) == LEFT_BRACE
    ensures Run(c, s, i, log, src, stack) == AfterValue(c, s, PObject(c, s, i, log), src, stack)
    decreases |s| - i, 0
  {
    hide Skip, PString, PNumber, PLiteral, PMembers, PValue, Run, Transit;
    var inner := stack + [Frame(Nested(src), 0)];
    var r1 := Emit(c, i + 1, log, StartObject);
    OpenObject(c, s, i, log, src, stack);
    if r1.Ok? {
      var r2 := Skip(c, s, i + 1, r1.log);
      if r2.Ok? {
        if At(s, r2.pos) == RIGHT_BRACE {
          CloseContainer(c, s, r2.pos, r2.log, ObjectInitial, 0, src, stack);
        } else {
          SimulateMembers(c, s, r2.pos, 0, r2.log, src, stack, ObjectInitial);
        }
      }
    }
  }

  lemma {:induction false} SimulateMembers(
    c: Config, s: bytes, i: nat, count: nat, log: Log, src: State, stack: seq<Frame>, at: State)
    requires i <= |s| && ExpectsValue(src)
    requires at == ObjectInitial || at == MemberDelimiter
    requires At(s, i) == RIGHT_BRACE ==> at == MemberDelimiter && !c.trailingCommas
    ensures Run(c, s, i, log, at, stack + [Frame(Nested(src), count)])
         == AfterValue(c, s, PMembers(c, s, i, count, log), src, stack)
    decreases |s| - i, 2
  {
    hide Skip, PString, PNumber, PLiteral, PValue, PName, PSeparator, Run, Resume;
    var inner := stack + [Frame(Nested(src), count)];
    SimulateKey(c, s, i, log, inner, at);
    var r4 := PName(c, s, i, log);
    if r4.Err? { return; }
    SimulateValue(c, s, r4.pos, r4.log, KeyValueDelimiter, inner);
    var r5 := PValue(c, s, r4.pos, r4.log);
    if r5.Err? { return; }
    SimulateSeparator(c, s, r5.pos, count, r5.log, MemberValue, src, stack);
    var next := PSeparator(c, s, r5.pos, RIGHT_BRACE, EndObject(count + 1), r5.log);
    if next.More? {
      SimulateMembers(c, s, next.pos, count + 1, next.log, src, stack, MemberDelimiter);
    }
  }

  /** A key and its colon. */
  lemma SimulateKey(c: Config, s: bytes, i: nat, log: Log, inner: seq<Frame>, at: State)
    requires i <= |s| && (at == ObjectInitial || at == MemberDelimiter)
    requires At(s, i) == RIGHT_BRACE ==> at == MemberDelimiter && !c.trailingCommas
    ensures Run(c, s, i, log, at, inner) ==
      match PName(c, s, i, log)
      case Err(log') => Err(log')
      case Ok(pos, log') => Run(c, s, pos, log', KeyValueDelimiter, inner)
  {
    hide Skip, PString, PValue, Run, Transit, Predict, Tokenize;
    KeyStarts(c, s, i, log, at, inner);
    if At(s, i) == QUOTE {
      var r1 := PString(c, s, i, log, true);
      if r1.Ok? {
        var r2 := Skip(c, s, r1.pos, r1.log);
        if r2.Ok? { ColonFollows(c, s, r2.pos, r2.log, inner); }
      }
    }
  }

  lemma KeyStarts(c: Config, s: bytes, i: nat, log: Log, at: State, inner: seq<Frame>)
    requires i <= |s| && (at == ObjectInitial || at == MemberDelimiter)
    requires At(s, i) == RIGHT_BRACE ==> at == MemberDelimiter && !c.trailingCommas
    ensures At(s, i) != QUOTE ==> Run(c, s, i, log, at, inner) == Err(log)
    ensures At(s, i) == QUOTE ==>
      Run(c, s, i, log, at, inner) ==
        (match PString(c, s, i, log, true)
         case Err(log') => Err(log')
         case Ok(pos, log') => Resume(c, s, pos, log', MemberKey, inner))
  {
    hide PString, Run, Resume;
    Round(c, s, i, log, at, inner);
  }

  lemma ColonFollows(c: Config, s: bytes, i: nat, log: Log, inner: seq<Frame>)
    requires i <= |s|
    ensures Run(c, s, i, log, MemberKey, inner) ==
      if At(s, i) == COLON then Resume(c, s, i + 1, log, KeyValueDelimiter, inner) else Err(log)
  {
    hide Run, Resume;
    Round(c, s, i, log, MemberKey, inner);
  }

  /** From the end of a member or an element to the end of its container or to the next one. */
  lemma SimulateSeparator(c: Config, s: bytes, i: nat, count: nat, log: Log, at: State, src: State, stack: seq<Frame>)
    requires i <= |s| && ExpectsValue(src) && (at == MemberValue || at == Element)
    ensures var close := if at == MemberValue then RIGHT_BRACE else RIGHT_BRACKET;
      var end := if at == MemberValue then EndObject(count + 1) else EndArray(count + 1);
      var delimiter := if at == MemberValue then MemberDelimiter else ElementDelimiter;
      Resume(c, s, i, log, at, stack + [Frame(Nested(src), count)]) ==
      match PSeparator(c, s, i, close, end, log)
      case Done(outcome) => AfterValue(c, s, outcome, src, stack)
      case More(pos, log') => Run(c, s, pos, log', delimiter, stack + [Frame(Nested(src), count + 1)])
  {
    hide Skip, Run, Emit, Nested, Resumed, ExpectsValue;
    var inner := stack + [Frame(Nested(src), count)];
    var close := if at == MemberValue then RIGHT_BRACE else RIGHT_BRACKET;
    var delimiter := if at == MemberValue then MemberDelimiter else ElementDelimiter;
    var r1 := Skip(c, s, i, log);
    if r1.Err? { return; }
    if At(s, r1.pos) == close {
      CloseContainer(c, s, r1.pos, r1.log, at, count, src, stack);
    } else {
      NextInContainer(c, s, r1.pos, count, r1.log, at, src, stack);
      if At(s, r1.pos) != COMMA { return; }
      var r2 := Skip(c, s, r1.pos + 1, r1.log);
      if r2.Ok? && At(s, r2.pos) == close {
        CloseContainer(c, s, r2.pos, r2.log, delimiter, count + 1, src, stack);
      }
    }
  }

  /** Anything but the closing bracket after a value: a comma is counted, all else refused. */
  lemma NextInContainer(c: Config, s: bytes, i: nat, count: nat, log: Log, at: State, src: State, stack: seq<Frame>)
    requires i <= |s| && ExpectsValue(src) && (at == MemberValue || at == Element)
    requires At(s, i) != if at == MemberValue then RIGHT_BRACE else RIGHT_BRACKET
    ensures Run(c, s, i, log, at, stack + [Frame(Nested(src), count)]) ==
      if At(s, i) != COMMA then Err(log)
      else Resume(c, s, i + 1, log, if at == MemberValue then MemberDelimiter else ElementDelimiter,
                  stack + [Frame(Nested(src), count + 1)])
  {
    hide Run, Resume;
    var inner := stack + [Frame(Nested(src), count)];
    var next := stack + [Frame(Nested(src), count + 1)];
    assert inner[|inner| - 1 := Frame(Nested(src), count + 1)] == next;
    Round(c, s, i, log, at, inner);
  }

  /** The opening bracket: the event, and a frame for the count. */
  lemma OpenArray(c: Config, s: bytes, i: nat, log: Log, src: State, stack: seq<Frame>)
    requires i <= |s| && ExpectsValue(src) && At(s, i) == LEFT_BRACKET
    ensures Run(c, s, i, log, src, stack) ==
      match Emit(c, i + 1, log, StartArray)
      case Err(log') => Err(log')
      case Ok(pos, log') => Resume(c, s, pos, log', ArrayInitial, stack + [Frame(Nested(src), 0)])
  {
    hide Run, Resume;
    Round(c, s, i, log, src, stack);
  }

  lemma {:induction false} SimulateArray(c: Config, s: bytes, i: nat, log: Log, src: State, stack: seq<Frame>)
    requires i <= |s| && ExpectsValue(src) && At(s, i) == LEFT_BRACKET
    ensures Run(c, s, i, log, src, stack) == AfterValue(c, s, PArray(c, s, i, log), src, stack)
    decreases |s| - i, 0
  {
    hide Skip, PString, PNumber, PLiteral, PElements, PValue, Run, Transit;
    var inner := stack + [Frame(Nested(src), 0)];
    var r1 := Emit(c, i + 1, log, StartArray);
    OpenArray(c, s, i, log, src, stack);
    if r1.Ok? {
      var r2 := Skip(c, s, i + 1, r1.log);
      if r2.Ok? {
        if At(s, r2.pos) == RIGHT_BRACKET {
          CloseContainer(c, s, r2.pos, r2.log, ArrayInitial, 0, src, stack);
        } else {
          SimulateElements(c, s, r2.pos, 0, r2.log, src, stack, ArrayInitial);
        }
      }
    }
  }

  lemma {:induction false} SimulateElements(
    c: Config, s: bytes, i: nat, count: nat, log: Log, src: State, stack: seq<Frame>, at: State)
    requires i <= |s| && ExpectsValue(src)
    requires at == ArrayInitial || at == ElementDelimiter
    requires At(s, i) == RIGHT_BRACKET ==> at == ElementDelimiter && !c.trailingCommas
    ensures Run(c, s, i, log, at, stack + [Frame(Nested(src), count)])
         == AfterValue(c, s, PElements(c, s, i, count, log), src, stack)
    decreases |s| - i, 2
  {
    hide Skip, PString, PNumber, PLiteral, PValue, PSeparator, Run, Resume;
    var inner := stack + [Frame(Nested(src), count)];
    assert inner[..|inner| - 1] == stack;
    SimulateValue(c, s, i, log, at, inner);
    var r1 := PValue(c, s, i, log);
    if r1.Err? { return; }
    SimulateSeparator(c, s, r1.pos, count, r1.log, Element, src, stack);
    var next := PSeparator(c, s, r1.pos, RIGHT_BRACKET, EndArray(count + 1), r1.log);
    if next.More? {
      SimulateElements(c, s, next.pos, count + 1, next.log, src, stack, ElementDelimiter);
    }
  }

  /**
   The two parsers accept the same texts, stop at the same position, and send the same events with
   the same counts, those sent before a rejection included; the handler may stop either of them.
   */
  lemma IterativeIsRecursive(c: Config, s: bytes)
    ensures IterativeParse(c, s) == PDocument(c, s)
  {
    hide Skip, PValue, Run;
    var r1 := Skip(c, s, 0, []);
    if r1.Err? { return; }
    Round(c, s, r1.pos, r1.log, Start, []);
    if At(s, r1.pos) == NUL { return; }
    SimulateValue(c, s, r1.pos, r1.log, Start, []);
    var r2 := PValue(c, s, r1.pos, r1.log);
    if r2.Err? || c.stopWhenDone { return; }
    var r3 := Skip(c, s, r2.pos, r2.log);
    if r3.Ok? {
      Round(c, s, r3.pos, r3.log, Finish, []);
    }
  }
}
