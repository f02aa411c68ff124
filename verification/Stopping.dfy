/** What a handler that stops the parser changes: nothing but where the parse ends. */
module Stopping {
  import opened Bytes
  import opened Characters
  import opened Grammar
  import opened Sax
  import opened Wrappers

  /** The same parser with a handler that never stops it. */
  function Unstopped(c: Config): Config { c.(continues := (log: Log) => true) }

  /** The length of the first prefix of a log, longer than `n`, for whose last event the handler returns false. */
  function Refusal(c: Config, log: Log, n: nat): (r: Option<nat>)
    ensures r.Some? ==> n < r.value <= |log|
    decreases |log| - n
  {
    if n >= |log| then None
    else if !c.continues(log[..n + 1]) then Some(n + 1)
    else Refusal(c, log, n + 1)
  }

  /** An outcome broken off at the first event after `n` that the handler refuses. */
  function Cut(c: Config, n: nat, f: Outcome): Outcome {
    match Refusal(c, f.log, n)
    case None => f
    case Some(k) => Err(f.log[..k])
  }

  lemma {:induction false} RefusalIn(c: Config, log: Log, n: nat)
    ensures match Refusal(c, log, n)
            case None => forall k :: n < k <= |log| ==> c.continues(log[..k])
            case Some(k) => n < k <= |log| && !c.continues(log[..k]) && forall j :: n < j < k ==> c.continues(log[..j])
    decreases |log| - n
  {
    if n < |log| { RefusalIn(c, log, n + 1); }
  }

  /** Refusals in a prefix come first. */
  lemma {:induction false} RefusalSplit(c: Config, a: Log, f: Log, n: nat)
    requires n <= |a| && a <= f
    ensures Refusal(c, f, n) == match Refusal(c, a, n) case None => Refusal(c, f, |a|) case some => some
    decreases |a| - n
  {
    if n < |a| {
      assert a[..n + 1] == f[..n + 1];
      RefusalSplit(c, a, f, n + 1);
    }
  }

  /** One step after another: if the first is cut the whole is, at the same event. */
  lemma CutThen(c: Config, log: Log, a: Outcome, f: Outcome)
    requires log <= a.log <= f.log && (a.Err? ==> f == a)
    ensures Cut(c, |log|, f) == if Cut(c, |log|, a).Err? then Cut(c, |log|, a) else Cut(c, |a.log|, f)
    ensures Cut(c, |log|, a).Ok? ==> Cut(c, |log|, a) == a
  {
    RefusalSplit(c, a.log, f.log, |log|);
    RefusalIn(c, a.log, |log|);
    RefusalIn(c, f.log, |log|);
    match Refusal(c, a.log, |log|) {
      case None =>
      case Some(k) => assert a.log[..k] == f.log[..k];
    }
  }

  /** A step that sends nothing is not cut. */
  lemma CutNothing(c: Config, f: Outcome)
    ensures Cut(c, |f.log|, f) == f
  {
  }

  lemma EmitCut(c: Config, pos: nat, log: Log, e: Event)
    ensures Emit(c, pos, log, e) == Cut(c, |log|, Emit(Unstopped(c), pos, log, e))
    ensures Emit(Unstopped(c), pos, log, e) == Ok(pos, log + [e])
  {
    var full := log + [e];
    assert full[..|log| + 1] == full;
    assert Refusal(c, full, |log| + 1) == None;
  }

  lemma SkipUnstopped(c: Config, s: bytes, i: nat, log: Log)
    requires i <= |s|
    ensures Skip(Unstopped(c), s, i, log) == Skip(c, s, i, log)
  {
  }

  lemma NumberCut(c: Config, s: bytes, i: nat, log: Log)
    requires i <= |s|
    ensures PNumber(c, s, i, log) == Cut(c, |log|, PNumber(Unstopped(c), s, i, log))
    ensures log <= PNumber(Unstopped(c), s, i, log).log
  {
    hide DigitsEnd, DigitsValue, FractionEnd, ExponentEnd, FitsInteger, IntegerEvent, Cut, Emit;
    var minus := At(s, i) == MINUS;
    var a := if minus then i + 1 else i;
    var b := IntegerEnd(s, a);
    CutNothing(c, Err(log));
    if b != a {
      var f := FractionEnd(s, b);
      if f <= |s| {
        var e := ExponentEnd(s, f);
        if e <= |s| {
          EmitCut(c, e, log, IntegerEvent(minus, DigitsValue(s, a, b)));
          EmitCut(c, e, log, Double(s[i..e]));
        }
      }
    }
  }

  lemma StringCut(c: Config, s: bytes, i: nat, log: Log, isKey: bool)
    requires At(s, i) == QUOTE
    ensures PString(c, s, i, log, isKey) == Cut(c, |log|, PString(Unstopped(c), s, i, log, isKey))
    ensures log <= PString(Unstopped(c), s, i, log, isKey).log
  {
    hide StringBody, Cut, Emit;
    CutNothing(c, Err(log));
    match StringBody(s, i + 1, []) {
      case Malformed =>
      case Text(next, text) => EmitCut(c, next, log, if isKey then Key(text) else String(text));
    }
  }

  lemma LiteralCut(c: Config, s: bytes, i: nat, text: bytes, e: Event, log: Log)
    requires |text| > 0
    ensures PLiteral(c, s, i, text, e, log) == Cut(c, |log|, PLiteral(Unstopped(c), s, i, text, e, log))
    ensures log <= PLiteral(Unstopped(c), s, i, text, e, log).log
  {
    hide Stands, Cut, Emit;
    CutNothing(c, Err(log));
    EmitCut(c, i + |text|, log, e);
  }

  lemma NameCut(c: Config, s: bytes, i: nat, log: Log)
    requires i <= |s|
    ensures PName(c, s, i, log) == Cut(c, |log|, PName(Unstopped(c), s, i, log))
    ensures log <= PName(Unstopped(c), s, i, log).log
  {
    hide PString, Skip, Cut;
    var w := Unstopped(c);
    var f := PName(w, s, i, log);
    if At(s, i) != QUOTE {
      CutNothing(c, f);
    } else {
      var a := PString(w, s, i, log, true);
      StringCut(c, s, i, log, true);
      if a.Ok? {
        SkipUnstopped(c, s, a.pos, a.log);
        var b := Skip(w, s, a.pos, a.log);
        if b.Ok? && At(s, b.pos) == COLON { SkipUnstopped(c, s, b.pos + 1, a.log); }
        CutNothing(c, f);
      }
      CutThen(c, log, a, f);
    }
  }

  /** The closing event of a separator is cut like any other; going on sends nothing. */
  lemma SeparatorCut(c: Config, s: bytes, i: nat, close: byte, end: Event, log: Log)
    requires i <= |s| && close != NUL
    ensures match PSeparator(Unstopped(c), s, i, close, end, log)
            case Done(f) => PSeparator(c, s, i, close, end, log) == Done(Cut(c, |log|, f)) && log <= f.log
            case More(pos, log') => PSeparator(c, s, i, close, end, log) == More(pos, log') && log' == log
  {
    hide Skip, Cut, Emit;
    var w := Unstopped(c);
    SkipUnstopped(c, s, i, log);
    var a := Skip(w, s, i, log);
    CutNothing(c, Err(log));
    if a.Ok? {
      EmitCut(c, a.pos + 1, log, end);
      if At(s, a.pos) == COMMA {
        SkipUnstopped(c, s, a.pos + 1, log);
        var b := Skip(w, s, a.pos + 1, log);
        if b.Ok? { EmitCut(c, b.pos + 1, log, end); }
      }
    }
  }

  lemma {:induction false} ValueCut(c: Config, s: bytes, i: nat, log: Log)
    requires i <= |s|
    ensures PValue(c, s, i, log) == Cut(c, |log|, PValue(Unstopped(c), s, i, log))
    ensures log <= PValue(Unstopped(c), s, i, log).log
    decreases |s| - i, 1
  {
    hide PLiteral, PString, PNumber, PObject, PArray, Cut;
    var b := At(s, i);
    if b == LOWER_N {
      LiteralCut(c, s, i, NULL_TEXT, Null, log);
    } else if b == LOWER_T {
      LiteralCut(c, s, i, TRUE_TEXT, Bool(true), log);
    } else if b == LOWER_F {
      LiteralCut(c, s, i, FALSE_TEXT, Bool(false), log);
    } else if b == QUOTE {
      StringCut(c, s, i, log, false);
    } else if b == LEFT_BRACE {
      ObjectCut(c, s, i, log);
    } else if b == LEFT_BRACKET {
      ArrayCut(c, s, i, log);
    } else {
      NumberCut(c, s, i, log);
    }
  }

  lemma {:induction false} ObjectCut(c: Config, s: bytes, i: nat, log: Log)
    requires At(s, i) == LEFT_BRACE
    ensures PObject(c, s, i, log) == Cut(c, |log|, PObject(Unstopped(c), s, i, log))
    ensures log <= PObject(Unstopped(c), s, i, log).log
    decreases |s| - i, 0
  {
    hide PMembers, Skip, Cut, Emit;
    var w := Unstopped(c);
    var a, f := Emit(w, i + 1, log, StartObject), PObject(w, s, i, log);
    EmitCut(c, i + 1, log, StartObject);
    SkipUnstopped(c, s, i + 1, a.log);
    var b := Skip(w, s, i + 1, a.log);
    if b.Err? {
      CutNothing(c, f);
    } else if At(s, b.pos) == RIGHT_BRACE {
      EmitCut(c, b.pos + 1, a.log, EndObject(0));
    } else {
      MembersCut(c, s, b.pos, 0, a.log);
    }
    CutThen(c, log, a, f);
  }

  lemma {:induction false} MembersCut(c: Config, s: bytes, i: nat, count: nat, log: Log)
    requires i <= |s|
    ensures PMembers(c, s, i, count, log) == Cut(c, |log|, PMembers(Unstopped(c), s, i, count, log))
    ensures log <= PMembers(Unstopped(c), s, i, count, log).log
    decreases |s| - i, 2
  {
    hide PName, PValue, PSeparator, Cut;
    var w := Unstopped(c);
    var a, f := PName(w, s, i, log), PMembers(w, s, i, count, log);
    NameCut(c, s, i, log);
    if a.Ok? {
      var b := PValue(w, s, a.pos, a.log);
      ValueCut(c, s, a.pos, a.log);
      if b.Ok? {
        SeparatorCut(c, s, b.pos, RIGHT_BRACE, EndObject(count + 1), b.log);
        match PSeparator(w, s, b.pos, RIGHT_BRACE, EndObject(count + 1), b.log) {
          case Done(_) =>
          case More(next, _) => MembersCut(c, s, next, count + 1, b.log);
        }
      }
      CutThen(c, a.log, b, f);
    }
    CutThen(c, log, a, f);
  }

  lemma {:induction false} ArrayCut(c: Config, s: bytes, i: nat, log: Log)
    requires At(s, i) == LEFT_BRACKET
    ensures PArray(c, s, i, log) == Cut(c, |log|, PArray(Unstopped(c), s, i, log))
    ensures log <= PArray(Unstopped(c), s, i, log).log
    decreases |s| - i, 0
  {
    hide PElements, Skip, Cut, Emit;
    var w := Unstopped(c);
    var a, f := Emit(w, i + 1, log, StartArray), PArray(w, s, i, log);
    EmitCut(c, i + 1, log, StartArray);
    SkipUnstopped(c, s, i + 1, a.log);
    var b := Skip(w, s, i + 1, a.log);
    if b.Err? {
      CutNothing(c, f);
    } else if At(s, b.pos) == RIGHT_BRACKET {
      EmitCut(c, b.pos + 1, a.log, EndArray(0));
    } else {
      ElementsCut(c, s, b.pos, 0, a.log);
    }
    CutThen(c, log, a, f);
  }

  lemma {:induction false} ElementsCut(c: Config, s: bytes, i: nat, count: nat, log: Log)
    requires i <= |s|
    ensures PElements(c, s, i, count, log) == Cut(c, |log|, PElements(Unstopped(c), s, i, count, log))
    ensures log <= PElements(Unstopped(c), s, i, count, log).log
    decreases |s| - i, 2
  {
    hide PValue, PSeparator, Cut;
    var w := Unstopped(c);
    var a, f := PValue(w, s, i, log), PElements(w, s, i, count, log);
    ValueCut(c, s, i, log);
    if a.Ok? {
      SeparatorCut(c, s, a.pos, RIGHT_BRACKET, EndArray(count + 1), a.log);
      match PSeparator(w, s, a.pos, RIGHT_BRACKET, EndArray(count + 1), a.log) {
        case Done(_) =>
        case More(next, _) => ElementsCut(c, s, next, count + 1, a.log);
      }
    }
    CutThen(c, log, a, f);
  }

  /**
   Parsing with any handler is parsing with one that never stops, broken off at the first event for which the handler
   returns false: it has been sent those events and no other, and if there is none the outcome is the same.
   */
  lemma DocumentCut(c: Config, s: bytes)
    ensures PDocument(c, s) == Cut(c, 0, PDocument(Unstopped(c), s))
  {
    hide PValue, Skip, Cut;
    var w := Unstopped(c);
    var f := PDocument(w, s);
    SkipUnstopped(c, s, 0, []);
    var a := Skip(w, s, 0, []);
    CutNothing(c, Err([]));
    if a.Ok? && At(s, a.pos) != NUL {
      var b := PValue(w, s, a.pos, []);
      ValueCut(c, s, a.pos, []);
      if b.Ok? {
        SkipUnstopped(c, s, b.pos, b.log);
        CutNothing(c, f);
      }
      CutThen(c, [], b, f);
    }
  }
}
