/**
 ParseInsitu of a whole document: either parser over the buffer that its strings are decoded into.  Whatever has been
 overwritten, it does what the parsers do that leave the text alone.
 */
module InsituReader {
  import opened Bytes
  import opened Characters
  import opened Insitu
  import opened Sax
  import G = Grammar
  import P = Pushdown

  // ---------- The grammar looks at unread text only ----------

  lemma {:induction false} SkipSpaceLocal(s: bytes, t: bytes, i: nat, k: nat)
    requires SameFrom(s, t, i) && i <= k <= |s|
    ensures G.SkipSpace(s, k) == G.SkipSpace(t, k)
    decreases |s| - k
  {
    if G.IsSpace(At(s, k)) { SkipSpaceLocal(s, t, i, k + 1); }
  }

  lemma {:induction false} SkipBlockLocal(s: bytes, t: bytes, i: nat, k: nat)
    requires SameFrom(s, t, i) && i <= k <= |s|
    ensures G.SkipBlock(s, k) == G.SkipBlock(t, k)
    decreases |s| - k
  {
    SameAt(s, t, i, k);
    SameAt(s, t, i, k + 1);
    if At(s, k) != NUL { SkipBlockLocal(s, t, i, k + 1); }
  }

  lemma {:induction false} SkipLineLocal(s: bytes, t: bytes, i: nat, k: nat)
    requires SameFrom(s, t, i) && i <= k <= |s|
    ensures G.SkipLine(s, k) == G.SkipLine(t, k)
    decreases |s| - k
  {
    if At(s, k) != NUL { SkipLineLocal(s, t, i, k + 1); }
  }

  lemma {:induction false} SkipCommentsLocal(s: bytes, t: bytes, i: nat, k: nat, log: Log)
    requires SameFrom(s, t, i) && i <= k <= |s|
    ensures G.SkipComments(s, k, log) == G.SkipComments(t, k, log)
    decreases |s| - k
  {
    SameAt(s, t, i, k);
    SameAt(s, t, i, k + 1);
    if At(s, k) == SLASH && At(s, k + 1) == STAR {
      SkipBlockLocal(s, t, i, k + 2);
      var j := G.SkipBlock(s, k + 2);
      if j <= |s| {
        SkipSpaceLocal(s, t, i, j);
        SkipCommentsLocal(s, t, i, G.SkipSpace(s, j), log);
      }
    } else if At(s, k) == SLASH && At(s, k + 1) == SLASH {
      SkipLineLocal(s, t, i, k + 2);
      var j := G.SkipLine(s, k + 2);
      SkipSpaceLocal(s, t, i, j);
      SkipCommentsLocal(s, t, i, G.SkipSpace(s, j), log);
    }
  }

  lemma SkipLocal(c: G.Config, s: bytes, t: bytes, i: nat, log: Log)
    requires SameFrom(s, t, i) && i <= |s|
    ensures G.Skip(c, s, i, log) == G.Skip(c, t, i, log)
  {
    hide G.SkipSpace, G.SkipComments;
    SkipSpaceLocal(s, t, i, i);
    SkipCommentsLocal(s, t, i, G.SkipSpace(s, i), log);
  }

  lemma SameSlice(s: bytes, t: bytes, i: nat, j: nat, k: nat)
    requires SameFrom(s, t, i) && i <= j <= k <= |s|
    ensures s[j..k] == t[j..k]
  {
  }

  lemma {:induction false} DigitsEndLocal(s: bytes, t: bytes, i: nat, k: nat)
    requires SameFrom(s, t, i) && i <= k <= |s|
    ensures G.DigitsEnd(s, k) == G.DigitsEnd(t, k)
    decreases |s| - k
  {
    if IsDigit(At(s, k)) { DigitsEndLocal(s, t, i, k + 1); }
  }

  lemma {:induction false} DigitsValueLocal(s: bytes, t: bytes, i: nat, j: nat, k: nat)
    requires SameFrom(s, t, i) && i <= j <= k <= |s| && forall x :: j <= x < k ==> IsDigit(s[x])
    ensures G.DigitsValue(s, j, k) == G.DigitsValue(t, j, k)
    decreases k - j
  {
    if j < k { DigitsValueLocal(s, t, i, j, k - 1); }
  }

  lemma FractionEndLocal(s: bytes, t: bytes, i: nat, k: nat)
    requires SameFrom(s, t, i) && i <= k <= |s|
    ensures G.FractionEnd(s, k) == G.FractionEnd(t, k)
  {
    SameAt(s, t, i, k);
    SameAt(s, t, i, k + 1);
    if At(s, k) == DOT { DigitsEndLocal(s, t, i, k + 1); }
  }

  lemma ExponentEndLocal(s: bytes, t: bytes, i: nat, k: nat)
    requires SameFrom(s, t, i) && i <= k <= |s|
    ensures G.ExponentEnd(s, k) == G.ExponentEnd(t, k)
  {
    SameAt(s, t, i, k);
    SameAt(s, t, i, k + 1);
    SameAt(s, t, i, k + 2);
    if k + 1 <= |s| { DigitsEndLocal(s, t, i, k + 1); }
    if k + 2 <= |s| { DigitsEndLocal(s, t, i, k + 2); }
  }

  lemma NumberLocal(c: G.Config, s: bytes, t: bytes, i: nat, log: Log)
    requires SameFrom(s, t, i) && i <= |s|
    ensures G.PNumber(c, s, i, log) == G.PNumber(c, t, i, log)
  {
    hide G.DigitsEnd, G.DigitsValue, G.FractionEnd, G.ExponentEnd, G.FitsInteger, G.IntegerEvent, G.Emit;
    SameAt(s, t, i, i);
    var a := if At(s, i) == MINUS then i + 1 else i;
    SameAt(s, t, i, a);
    DigitsEndLocal(s, t, i, a);
    var b := G.IntegerEnd(s, a);
    assert G.IntegerEnd(t, a) == b;
    if b != a {
      DigitsValueLocal(s, t, i, a, b);
      FractionEndLocal(s, t, i, b);
      var f := G.FractionEnd(s, b);
      if f <= |s| {
        ExponentEndLocal(s, t, i, f);
        if G.ExponentEnd(s, f) <= |s| { SameSlice(s, t, i, i, G.ExponentEnd(s, f)); }
      }
    }
  }

  lemma LiteralLocal(c: G.Config, s: bytes, t: bytes, i: nat, text: bytes, e: Event, log: Log)
    requires SameFrom(s, t, i) && |text| > 0
    ensures G.PLiteral(c, s, i, text, e, log) == G.PLiteral(c, t, i, text, e, log)
  {
    if i + |text| <= |s| { SameSlice(s, t, i, i, i + |text|); }
  }

  // ---------- The strings of a log ----------

  /** The texts that the String and Key events of a log carry. */
  function Strings(log: Log): seq<bytes> {
    if log == [] then []
    else
      var e := log[|log| - 1];
      Strings(log[..|log| - 1]) + if e.String? || e.Key? then [e.text] else []
  }

  lemma StringsMore(log: Log, e: Event)
    ensures Strings(log + [e]) == Strings(log) + if e.String? || e.Key? then [e.text] else []
  {
    assert (log + [e])[..|log|] == log;
  }

  function Texts(hs: seq<Handed>): seq<bytes> { seq(|hs|, i requires 0 <= i < |hs| => hs[i].text) }

  lemma TextsMore(hs: seq<Handed>, h: Handed)
    ensures Texts(hs + [h]) == Texts(hs) + [h.text]
  {
  }

  class GenericReader {
    const cfg: G.Config
    const stream: InsituStream
    var log: Log
    var failed: bool

    /** What the handler has been given so far stands in the buffer, as it was given. */
    ghost predicate Valid()
      reads this, stream, stream.buffer
    {
      stream.Valid() && Texts(stream.strings) == Strings(log)
    }

    ghost predicate Running()
      reads this, stream, stream.buffer
    {
      Valid() && !failed && stream.src <= |stream.text|
    }

    /** The parser is where this outcome of the grammar says. */
    ghost predicate Agrees(r: G.Outcome)
      reads this, stream, stream.buffer
    {
      && Valid() && failed == r.Err? && log == r.log
      && (r.Ok? ==> stream.src == r.pos)
    }

    constructor (cfg: G.Config, a: array<byte>)
      requires a.Length > 0 && a[a.Length - 1] == NUL
      ensures this.cfg == cfg && stream.buffer == a && stream.text == a[..a.Length - 1] && fresh(stream)
      ensures Agrees(G.Ok(0, []))
    {
      this.cfg := cfg;
      stream := new InsituStream(a);
      log, failed := [], false;
    }

    /** The text from here on, as it was given. */
    lemma Unread()
      requires Valid()
      ensures |stream.text| == stream.buffer.Length - 1
      ensures SameFrom(stream.buffer[..stream.buffer.Length - 1], stream.text, stream.src)
      ensures stream.Peek() == At(stream.text, stream.src)
    {
    }

    /** Takes on what a function of the grammar found in the unread text. */
    method Follow(r: G.Outcome)
      requires Running() && (r.Ok? ==> stream.src <= r.pos <= |stream.text|)
      requires Strings(r.log) == Strings(log)
      modifies this, stream`src
      ensures Agrees(r)
    {
      log := r.log;
      match r {
        case Ok(pos, _) => stream.Advance(pos);
        case Err(_) => failed := true;
      }
    }

    /** Sets parseResult_. */
    method Fail()
      requires Running()
      modifies this`failed
      ensures Agrees(G.Err(log))
    {
      failed := true;
    }

    method Handle(e: Event)
      requires Running() && !e.String? && !e.Key?
      modifies this
      ensures stream.src == old(stream.src) && Agrees(G.Emit(cfg, stream.src, old(log), e))
    {
      hide Strings, Texts, InsituStream.Valid;
      StringsMore(log, e);
      log := log + [e];
      failed := !cfg.continues(log);
    }

    method SkipWhitespaceAndComments()
      requires Running()
      modifies this, stream
      ensures Agrees(G.Skip(cfg, stream.text, old(stream.src), old(log)))
    {
      hide G.Skip;
      Unread();
      var rest := stream.buffer[..stream.buffer.Length - 1];
      SkipLocal(cfg, rest, stream.text, stream.src, log);
      Follow(G.Skip(cfg, rest, stream.src, log));
    }

    method Consume(b: byte) returns (taken: bool)
      requires Running() && b != NUL
      modifies this, stream
      ensures taken == (At(stream.text, old(stream.src)) == b)
      ensures Running() && log == old(log) && stream.src == if taken then old(stream.src) + 1 else old(stream.src)
    {
      Unread();
      taken := stream.Peek() == b;
      if taken { stream.Advance(stream.src + 1); }
    }

    method ParseNumber()
      requires Running()
      modifies this, stream
      ensures Agrees(G.PNumber(cfg, stream.text, old(stream.src), old(log)))
    {
      hide G.PNumber;
      Unread();
      var rest := stream.buffer[..stream.buffer.Length - 1];
      NumberLocal(cfg, rest, stream.text, stream.src, log);
      NumberStrings(cfg, rest, stream.src, log);
      Follow(G.PNumber(cfg, rest, stream.src, log));
    }

    method ParseLiteral(text: bytes, e: Event)
      requires Running() && |text| > 0 && !e.String? && !e.Key?
      modifies this, stream
      ensures Agrees(G.PLiteral(cfg, stream.text, old(stream.src), text, e, old(log)))
    {
      hide G.PLiteral, Strings;
      Unread();
      var rest := stream.buffer[..stream.buffer.Length - 1];
      LiteralLocal(cfg, rest, stream.text, stream.src, text, e, log);
      LiteralStrings(cfg, rest, stream.src, text, e, log);
      Follow(G.PLiteral(cfg, rest, stream.src, text, e, log));
    }

    method ParseString(isKey: bool)
      requires Running() && At(stream.text, stream.src) == QUOTE
      modifies this, stream, stream.buffer
      ensures Agrees(G.PString(cfg, stream.text, old(stream.src), old(log), isKey))
    {
      hide G.StringBody, Strings, Texts, InsituStream.Valid;
      Unread();
      var ok, h := stream.ParseString();
      if !ok {
        failed := true;
        return;
      }
      var e := if isKey then Key(h.text) else String(h.text);
      StringsMore(log, e);
      TextsMore(old(stream.strings), h);
      log := log + [e];
      failed := !cfg.continues(log);
    }

    method ParseName()
      requires Running()
      modifies this, stream, stream.buffer
      ensures Agrees(G.PName(cfg, stream.text, old(stream.src), old(log)))
    {
      hide G.PString, G.Skip, Valid, InsituStream.Valid, Strings, Texts;
      Unread();
      if stream.Peek() != QUOTE {
        Fail();
        return;
      }
      ParseString(true);
      if failed { return; }
      SkipWhitespaceAndComments();
      if failed { return; }
      var colon := Consume(COLON);
      if !colon {
        Fail();
        return;
      }
      SkipWhitespaceAndComments();
    }

    /** The tail of a round of either loop: whether another member or element follows. */
    method ParseSeparator(close: byte, end: Event) returns (more: bool)
      requires Running() && close != NUL && !end.String? && !end.Key?
      modifies this, stream
      ensures match G.PSeparator(cfg, stream.text, old(stream.src), close, end, old(log))
              case Done(outcome) => !more && Agrees(outcome)
              case More(pos, log') => more && Agrees(G.Ok(pos, log'))
    {
      hide G.Skip, Valid, InsituStream.Valid, Strings, Texts;
      SkipWhitespaceAndComments();
      if failed { return false; }
      var closed := Consume(close);
      if closed {
        Handle(end);
        return false;
      }
      var comma := Consume(COMMA);
      if !comma {
        Fail();
        return false;
      }
      SkipWhitespaceAndComments();
      if failed { return false; }
      if cfg.trailingCommas {
        closed := Consume(close);
        if closed {
          Handle(end);
          return false;
        }
      }
      return true;
    }

    method ParseValue()
      requires Running()
      modifies this, stream, stream.buffer
      ensures Agrees(G.PValue(cfg, stream.text, old(stream.src), old(log)))
      decreases |stream.text| - stream.src, 1
    {
      hide G.PNumber, G.PString, G.PObject, G.PArray, G.PLiteral, Strings, Texts;
      Unread();
      var b := stream.Peek();
      if b == LOWER_N {
        ParseLiteral(NULL_TEXT, Null);
      } else if b == LOWER_T {
        ParseLiteral(TRUE_TEXT, Bool(true));
      } else if b == LOWER_F {
        ParseLiteral(FALSE_TEXT, Bool(false));
      } else if b == QUOTE {
        ParseString(false);
      } else if b == LEFT_BRACE {
        ParseObject();
      } else if b == LEFT_BRACKET {
        ParseArray();
      } else {
        ParseNumber();
      }
    }

    method ParseObject()
      requires Running() && At(stream.text, stream.src) == LEFT_BRACE
      modifies this, stream, stream.buffer
      ensures Agrees(G.PObject(cfg, stream.text, old(stream.src), old(log)))
      decreases |stream.text| - stream.src, 0
    {
      hide G.PSeparator, G.PName, G.PValue, G.Skip, Valid, InsituStream.Valid, Strings, Texts;
      var _ := Consume(LEFT_BRACE);
      Handle(StartObject);
      if failed { return; }
      SkipWhitespaceAndComments();
      if failed { return; }
      var empty := Consume(RIGHT_BRACE);
      if empty {
        Handle(EndObject(0));
        return;
      }
      var memberCount := 0;
      ghost var want := G.PMembers(cfg, stream.text, stream.src, 0, log);
      var more := true;
      while more
        invariant more ==> old(stream.src) < stream.src
        invariant if more then Running() && G.PMembers(cfg, stream.text, stream.src, memberCount, log) == want
                  else Agrees(want)
        decreases more, |stream.text| - stream.src
      {
        ParseName();
        if failed { return; }
        ParseValue();
        if failed { return; }
        memberCount := memberCount + 1;
        more := ParseSeparator(RIGHT_BRACE, EndObject(memberCount));
      }
    }

    method ParseArray()
      requires Running() && At(stream.text, stream.src) == LEFT_BRACKET
      modifies this, stream, stream.buffer
      ensures Agrees(G.PArray(cfg, stream.text, old(stream.src), old(log)))
      decreases |stream.text| - stream.src, 0
    {
      hide G.PSeparator, G.PValue, G.Skip, Valid, InsituStream.Valid, Strings, Texts;
      var _ := Consume(LEFT_BRACKET);
      Handle(StartArray);
      if failed { return; }
      SkipWhitespaceAndComments();
      if failed { return; }
      var empty := Consume(RIGHT_BRACKET);
      if empty {
        Handle(EndArray(0));
        return;
      }
      var elementCount := 0;
      ghost var want := G.PElements(cfg, stream.text, stream.src, 0, log);
      var more := true;
      while more
        invariant more ==> old(stream.src) < stream.src
        invariant if more then Running() && G.PElements(cfg, stream.text, stream.src, elementCount, log) == want
                  else Agrees(want)
        decreases more, |stream.text| - stream.src
      {
        ParseValue();
        if failed { return; }
        elementCount := elementCount + 1;
        more := ParseSeparator(RIGHT_BRACKET, EndArray(elementCount));
      }
    }

    /** Parse without kParseIterativeFlag. */
    method Parse()
      requires Agrees(G.Ok(0, []))
      modifies this, stream, stream.buffer
      ensures Agrees(G.PDocument(cfg, stream.text))
    {
      hide G.PValue, G.Skip;
      SkipWhitespaceAndComments();
      if failed { return; }
      Unread();
      if stream.Peek() == NUL {
        Fail();
        return;
      }
      ParseValue();
      if failed || cfg.stopWhenDone { return; }
      SkipWhitespaceAndComments();
      if failed { return; }
      Unread();
      if stream.Peek() != NUL {
        Fail();
      }
    }

    // ---------- The pushdown parser ----------

    method Peek() returns (b: byte)
      requires Running()
      ensures b == At(stream.text, stream.src)
    {
      Unread();
      b := stream.Peek();
    }

    /** Takes the character that the transition was predicted from. */
    method Take()
      requires Running() && At(stream.text, stream.src) != NUL
      modifies this, stream
      ensures Running() && log == old(log) && stream.src == old(stream.src) + 1
    {
      Unread();
      stream.Advance(stream.src + 1);
    }

    /** The closing bracket: pops the frame, counts the last value, and resumes the state below. */
    method CloseContainer(isObject: bool, state: P.State, stack: seq<P.Frame>)
      returns (state': P.State, stack': seq<P.Frame>)
      requires Running() && At(stream.text, stream.src) != NUL && stack != [] && P.FramesNest(stack)
      modifies this, stream
      ensures var n := if isObject then P.ObjectFinish else P.ArrayFinish;
              match P.Transit(cfg, stream.text, old(stream.src), old(log), state, n, stack)
              case Stopped(log') => Agrees(G.Err(log'))
              case Running(next, log', to, frames) =>
                Agrees(G.Ok(next, log')) && state' == to && stack' == frames && P.Nesting(to, frames)
    {
      hide G.PValue, G.PString, Valid, InsituStream.Valid, Strings, Texts;
      state', stack' := state, stack;
      if !cfg.trailingCommas && state == if isObject then P.MemberDelimiter else P.ElementDelimiter {
        Fail();
        return;
      }
      var top := stack[|stack| - 1];
      stack' := stack[..|stack| - 1];
      state' := P.Resumed(top.resume);
      Take();
      var count := if state == if isObject then P.MemberValue else P.Element then top.count + 1 else top.count;
      Handle(if isObject then EndObject(count) else EndArray(count));
    }

    /** Transit: the side effects of one transition, on the buffer. */
    method Transit(state: P.State, n: P.State, stack: seq<P.Frame>) returns (state': P.State, stack': seq<P.Frame>)
      requires Running() && At(stream.text, stream.src) != NUL && P.Nesting(state, stack)
      requires n == P.Predict(state, P.Tokenize(At(stream.text, stream.src)))
      modifies this, stream, stream.buffer
      ensures match P.Transit(cfg, stream.text, old(stream.src), old(log), state, n, stack)
              case Stopped(log') => Agrees(G.Err(log'))
              case Running(next, log', to, frames) =>
                Agrees(G.Ok(next, log')) && state' == to && stack' == frames && P.Nesting(to, frames)
    {
      hide G.PValue, G.PString, Valid, InsituStream.Valid, Strings, Texts;
      state', stack' := n, stack;
      match n {
        case ObjectInitial =>
          stack' := stack + [P.Frame(P.Nested(state), 0)];
          Take();
          Handle(StartObject);
        case ArrayInitial =>
          stack' := stack + [P.Frame(P.Nested(state), 0)];
          Take();
          Handle(StartArray);
        case MemberKey =>
          ParseString(true);
        case KeyValueDelimiter =>
          Take();
        case MemberValue =>
          ParseValue();
        case Element =>
          ParseValue();
        case MemberDelimiter =>
          Take();
          stack' := P.CountTop(stack);
        case ElementDelimiter =>
          Take();
          stack' := P.CountTop(stack);
        case ObjectFinish =>
          state', stack' := CloseContainer(true, state, stack);
        case ArrayFinish =>
          state', stack' := CloseContainer(false, state, stack);
        case SingleValue =>
          state' := P.Finish;
          ParseValue();
        case Error =>
          Fail();
        case Start =>
          assert false;
        case Finish =>
          assert false;
      }
    }

    /** Parse with kParseIterativeFlag. */
    method IterativeParse()
      requires Agrees(G.Ok(0, []))
      modifies this, stream, stream.buffer
      ensures Agrees(G.PDocument(cfg, stream.text))
    {
      hide G.PValue, G.Skip, P.Transit, G.PDocument, Valid, InsituStream.Valid, Strings, Texts;
      P.IterativeIsRecursive(cfg, stream.text);
      var state, stack := P.Start, [];
      SkipWhitespaceAndComments();
      if failed { return; }
      var b := Peek();
      while b != NUL
        invariant Running() && P.Nesting(state, stack) && b == At(stream.text, stream.src)
        invariant P.Run(cfg, stream.text, stream.src, log, state, stack) == P.IterativeParse(cfg, stream.text)
        decreases |stream.text| - stream.src
      {
        var n := P.Predict(state, P.Tokenize(b));
        state, stack := Transit(state, n, stack);
        if failed { return; }
        if cfg.stopWhenDone && state == P.Finish { return; }
        SkipWhitespaceAndComments();
        if failed { return; }
        b := Peek();
      }
      if state != P.Finish {
        Fail();
      }
    }

    /**
     ParseInsitu, with either parser: outcome and events are those of the parsers that copy; and every string that the
     handler has been given, also before a failure, stands in the buffer at the end as it was given, with a terminator.
     */
    method ParseInsitu(iterative: bool)
      requires Agrees(G.Ok(0, []))
      modifies this, stream, stream.buffer
      ensures Agrees(G.PDocument(cfg, stream.text))
      ensures Texts(stream.strings) == Strings(log)
      ensures forall k :: 0 <= k < |stream.strings| ==>
                            Intact(stream.buffer[..], stream.strings[k], stream.buffer.Length)
    {
      hide G.PDocument;
      if iterative {
        IterativeParse();
      } else {
        Parse();
      }
      forall k | 0 <= k < |stream.strings|
        ensures Intact(stream.buffer[..], stream.strings[k], stream.buffer.Length)
      {
        IntactKept(stream.buffer[..], stream.buffer[..], stream.strings[k], stream.src, stream.buffer.Length);
      }
    }
  }

  lemma LiteralStrings(c: G.Config, s: bytes, i: nat, text: bytes, e: Event, log: Log)
    requires |text| > 0 && !e.String? && !e.Key?
    ensures Strings(G.PLiteral(c, s, i, text, e, log).log) == Strings(log)
  {
    hide Strings;
    StringsMore(log, e);
  }

  lemma NumberStrings(c: G.Config, s: bytes, i: nat, log: Log)
    requires i <= |s|
    ensures Strings(G.PNumber(c, s, i, log).log) == Strings(log)
  {
    hide G.DigitsEnd, G.DigitsValue, G.FractionEnd, G.ExponentEnd, Strings;
    var a := if At(s, i) == MINUS then i + 1 else i;
    var b := G.IntegerEnd(s, a);
    StringsMore(log, G.IntegerEvent(At(s, i) == MINUS, G.DigitsValue(s, a, b)));
    var f := G.FractionEnd(s, b);
    if f <= |s| {
      var e := G.ExponentEnd(s, f);
      if e <= |s| { StringsMore(log, Double(s[i..e])); }
    }
  }
}
