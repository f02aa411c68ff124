/**
 GenericReader: the two parsers of reader.h as they run, moving a stream position, pushing on
 stack_ and setting parseResult_.  Each method is proved to do what the function of Grammar or
 Pushdown says; `Take` is never called at the terminator.
 */
module Reader {
  import opened Bytes
  import opened Characters
  import opened Grammar
  import opened Pushdown
  import opened Sax
  import Unicode

  newtype uint32 = x: int | 0 <= x < 0x1_0000_0000

  newtype uint64 = x: int | 0 <= x < 0x1_0000_0000_0000_0000

  /** The 32-bit `~i + 1` read as a signed integer. */
  function Negate32(i: uint32): (r: int)
    ensures i <= 0x8000_0000 ==> r == -(i as int)
  {
    var u := if i == 0 then 0 else (0xFFFF_FFFF - i) + 1;
    if u < 0x8000_0000 then u as int else u as int - 0x1_0000_0000
  }

  function Negate64(i: uint64): (r: int)
    ensures i <= 0x8000_0000_0000_0000 ==> r == -(i as int)
  {
    var u := if i == 0 then 0 else (0xFFFF_FFFF_FFFF_FFFF - i) + 1;
    if u < 0x8000_0000_0000_0000 then u as int else u as int - 0x1_0000_0000_0000_0000
  }

  /** The value of the first `n` digits of a four-digit escape, or -1. */
  ghost function HexPrefix(s: bytes, i: nat, n: nat): int {
    if n == 0 then 0
    else
      var front, v := HexPrefix(s, i, n - 1), HexValue(At(s, i + n - 1));
      if front < 0 || v < 0 then -1 else front * 16 + v
  }

  lemma HexPrefix4(s: bytes, i: nat, n: nat)
    requires n <= 4
    ensures HexPrefix(s, i, n) < 0 ==> Hex4(s, i) < 0
    ensures n == 4 ==> HexPrefix(s, i, n) == Hex4(s, i)
  {
    assert HexPrefix(s, i, 1) == HexValue(At(s, i));
    assert HexPrefix(s, i, 2) < 0 || HexPrefix(s, i, 2) == HexPrefix(s, i, 1) * 16 + HexValue(At(s, i + 1));
    assert HexPrefix(s, i, 3) < 0 || HexPrefix(s, i, 3) == HexPrefix(s, i, 2) * 16 + HexValue(At(s, i + 2));
  }

  lemma {:induction false} DigitsGrow(s: bytes, i: nat, j: nat, k: nat)
    requires i <= j <= k <= |s| && forall x :: i <= x < k ==> IsDigit(s[x])
    ensures DigitsValue(s, i, j) <= DigitsValue(s, i, k)
  {
    if j < k {
      assert IsDigit(s[k - 1]);
      DigitsGrow(s, i, j, k - 1);
    }
  }

  class GenericReader {
    const cfg: Config
    const src: bytes
    var pos: nat
    var log: Log
    var failed: bool

    constructor (cfg: Config, src: bytes)
      ensures this.cfg == cfg && this.src == src && Agrees(Ok(0, []))
    {
      this.cfg, this.src := cfg, src;
      pos, log, failed := 0, [], false;
    }

    ghost predicate Running()
      reads this
    {
      !failed && pos <= |src|
    }

    /** The reader is in the state that `r` describes; where a failed parser stands is not compared. */
    ghost predicate Agrees(r: Outcome)
      reads this
    {
      && failed == r.Err?
      && log == r.log
      && (r.Ok? ==> pos == r.pos <= |src|)
    }

    function Peek(): byte
      reads this
    {
      At(src, pos)
    }

    /** Take(): never moves past the terminator. */
    method Take() returns (b: byte)
      requires Running() && Peek() != NUL
      modifies this`pos
      ensures b == At(src, old(pos)) && pos == old(pos) + 1 <= |src|
    {
      b := src[pos];
      pos := pos + 1;
    }

    method Consume(expected: byte) returns (taken: bool)
      requires Running() && expected != NUL
      modifies this`pos
      ensures taken == (At(src, old(pos)) == expected)
      ensures pos == (if taken then old(pos) + 1 else old(pos)) <= |src|
    {
      taken := Peek() == expected;
      if taken {
        var _ := Take();
      }
    }

    method Handle(e: Event)
      requires Running()
      modifies this`log, this`failed
      ensures Agrees(Emit(cfg, pos, old(log), e))
    {
      log := log + [e];
      failed := !cfg.continues(log);
    }

    // ---------- White space and comments ----------

    method SkipWhitespace()
      requires Running()
      modifies this`pos
      ensures pos == SkipSpace(src, old(pos)) <= |src|
    {
      while IsSpace(Peek())
        invariant pos <= |src|
        invariant SkipSpace(src, pos) == SkipSpace(src, old(pos))
        decreases |src| - pos
      {
        var _ := Take();
      }
    }

    /** The inner loop for a block comment, entered after its opening. */
    method SkipBlockComment()
      requires Running()
      modifies this`pos, this`failed
      ensures failed == (SkipBlock(src, old(pos)) > |src|)
      ensures !failed ==> pos == SkipBlock(src, old(pos))
    {
      ghost var end := SkipBlock(src, pos);
      while true
        invariant Running() && SkipBlock(src, pos) == end
        decreases |src| - pos
      {
        if Peek() == NUL {
          failed := true;
          return;
        }
        var star := Consume(STAR);
        if star {
          var slash := Consume(SLASH);
          if slash { return; }
        } else {
          var _ := Take();
        }
      }
    }

    method SkipLineComment()
      requires Running()
      modifies this`pos
      ensures pos == SkipLine(src, old(pos)) <= |src|
    {
      ghost var end := SkipLine(src, pos);
      while Peek() != NUL
        invariant Running() && SkipLine(src, pos) == end
        decreases |src| - pos
      {
        var b := Take();
        if b == NEWLINE { return; }
      }
    }

    /** One comment of either kind, entered after its first slash. */
    method SkipComment()
      requires Running()
      modifies this`pos, this`failed
      ensures var i := old(pos);
              if At(src, i) == STAR then
                var j := SkipBlock(src, i + 1);
                failed == (j > |src|) && (!failed ==> pos == j)
              else if At(src, i) == SLASH then !failed && pos == SkipLine(src, i + 1)
              else failed
    {
      hide SkipBlock, SkipLine;
      var block := Consume(STAR);
      if block {
        SkipBlockComment();
      } else {
        var line := Consume(SLASH);
        if !line {
          failed := true;
          return;
        }
        SkipLineComment();
      }
    }

    method SkipWhitespaceAndComments()
      requires Running()
      modifies this`pos, this`failed
      ensures Agrees(Skip(cfg, src, old(pos), log))
    {
      SkipWhitespace();
      if !cfg.comments { return; }
      ghost var want := SkipComments(src, pos, log);
      var more := Consume(SLASH);
      while more
        invariant Running()
        invariant if more then pos > 0 && At(src, pos - 1) == SLASH && SkipComments(src, pos - 1, log) == want
                  else At(src, pos) != SLASH && SkipComments(src, pos, log) == want
        decreases |src| - pos, more
      {
        SkipComment();
        if failed { return; }
        SkipWhitespace();
        more := Consume(SLASH);
      }
    }

    // ---------- Strings ----------

    /** ParseHex4: four digits accumulated one by one. */
    method ParseHex4() returns (codepoint: nat)
      requires Running()
      modifies this`pos, this`failed
      ensures failed == (Hex4(src, old(pos)) < 0)
      ensures !failed ==> codepoint == Hex4(src, old(pos)) && pos == old(pos) + 4 <= |src|
    {
      hide Hex4;
      codepoint := 0;
      ghost var start := pos;
      for i := 0 to 4
        invariant Running() && pos == start + i
        invariant codepoint == HexPrefix(src, start, i)
      {
        var v := HexValue(Peek());
        HexPrefix4(src, start, i + 1);
        if v < 0 {
          failed := true;
          return;
        }
        codepoint := codepoint * 16 + v;
        var _ := Take();
      }
      HexPrefix4(src, start, 4);
    }

    /** The `\u` branch, entered after the two characters that open it. */
    method ParseUnicodeEscape() returns (decoded: bytes)
      requires Running() && pos >= 2
      modifies this`pos, this`failed
      ensures failed == UnicodePiece(src, old(pos) - 2).Bad?
      ensures !failed ==> Piece(pos, decoded) == UnicodePiece(src, old(pos) - 2)
    {
      hide Hex4, Unicode.Encode;
      decoded := [];
      var codepoint := ParseHex4();
      if failed { return; }
      if 0xD800 <= codepoint <= 0xDBFF {
        var backslash := Consume(BACKSLASH);
        if backslash {
          backslash := Consume(LOWER_U);
        }
        if !backslash {
          failed := true;
          return;
        }
        var codepoint2 := ParseHex4();
        if failed { return; }
        if codepoint2 < 0xDC00 || codepoint2 > 0xDFFF {
          failed := true;
          return;
        }
        codepoint := (codepoint - 0xD800) * 0x400 + (codepoint2 - 0xDC00) + 0x10000;
      }
      decoded := Unicode.Encode(codepoint);
    }

    /** One round of the loop of ParseStringToStream, not at the closing quotation mark. */
    method ParseStringPiece() returns (decoded: bytes)
      requires Running() && Peek() != QUOTE
      modifies this`pos, this`failed
      ensures failed == StringPiece(src, old(pos)).Bad?
      ensures !failed ==> Piece(pos, decoded) == StringPiece(src, old(pos))
    {
      hide UnicodePiece;
      decoded := [];
      if Peek() == BACKSLASH {
        var _ := Take();
        var e := Peek();
        if Unescape(e) != 0 {
          var _ := Take();
          decoded := [Unescape(e)];
        } else if e == LOWER_U {
          var _ := Take();
          decoded := ParseUnicodeEscape();
        } else {
          failed := true;
        }
      } else if Peek() < 0x20 {
        failed := true;
      } else {
        var b := Take();
        decoded := [b];
      }
    }

    method ParseString(isKey: bool)
      requires Running() && Peek() == QUOTE
      modifies this
      ensures Agrees(PString(cfg, src, old(pos), old(log), isKey))
    {
      hide StringPiece;
      var _ := Take();
      var stream: bytes := [];
      ghost var want := StringBody(src, pos, []);
      while Peek() != QUOTE
        invariant Running() && log == old(log)
        invariant StringBody(src, pos, stream) == want
        decreases |src| - pos
      {
        var decoded := ParseStringPiece();
        if failed { return; }
        stream := stream + decoded;
      }
      var _ := Take();
      Handle(if isKey then Key(stream) else String(stream));
    }

    // ---------- Numbers ----------

    /**
     The loop that accumulates digits in the 32-bit register, entered after the first digit.  It
     stops early, with `use64bit`, just before the next digit would leave the range.
     */
    method Accumulate32(minus: bool, first: uint32, ghost a: nat) returns (i: uint32, use64bit: bool)
      requires Running() && pos == a + 1 && IsDigit(src[a]) && first as int == src[a] - ZERO
      modifies this`pos
      ensures a < pos <= DigitsEnd(src, a) && i as int == DigitsValue(src, a, pos)
      ensures !use64bit ==> pos == DigitsEnd(src, a) && i <= if minus then 0x8000_0000 else 0xFFFF_FFFF
      ensures use64bit ==> pos < DigitsEnd(src, a)
      ensures use64bit ==> DigitsValue(src, a, pos + 1) > if minus then 0x8000_0000 else 0xFFFF_FFFF
    {
      var limit: uint32, last: byte := if minus then 214748364 else 429496729, if minus then 0x38 else 0x35;
      i, use64bit := first, false;
      assert DigitsValue(src, a, a) == 0;
      while IsDigit(Peek())
        invariant a < pos <= DigitsEnd(src, a) && i as int == DigitsValue(src, a, pos)
        invariant i <= if minus then 0x8000_0000 else 0xFFFF_FFFF
        decreases DigitsEnd(src, a) - pos
      {
        assert pos < DigitsEnd(src, a);
        if i >= limit && (i != limit || Peek() > last) {
          use64bit := true;
          return;
        }
        var d := Take();
        i := i * 10 + (d - ZERO) as uint32;
      }
    }

    /** The same loop for the 64-bit register, which takes over from the 32-bit one. */
    method Accumulate64(minus: bool, first: uint64, ghost a: nat) returns (i64: uint64, useDouble: bool)
      requires Running() && a < pos <= DigitsEnd(src, a) && first as int == DigitsValue(src, a, pos)
      requires first <= 0xFFFF_FFFF
      modifies this`pos
      ensures a < pos <= DigitsEnd(src, a)
      ensures !useDouble ==> pos == DigitsEnd(src, a) && i64 as int == DigitsValue(src, a, pos)
      ensures !useDouble ==> FitsInteger(minus, i64 as int)
      ensures useDouble ==> pos < DigitsEnd(src, a) && !FitsInteger(minus, DigitsValue(src, a, pos + 1))
    {
      var limit: uint64 := if minus then 0x0CCCCCCC_CCCCCCCC else 0x19999999_99999999;
      var last: byte := if minus then 0x38 else 0x35;
      i64, useDouble := first, false;
      while IsDigit(Peek())
        invariant a < pos <= DigitsEnd(src, a) && i64 as int == DigitsValue(src, a, pos)
        invariant i64 <= if minus then 0x8000_0000_0000_0000 else 0xFFFF_FFFF_FFFF_FFFF
        decreases DigitsEnd(src, a) - pos
      {
        assert pos < DigitsEnd(src, a);
        if i64 >= limit && (i64 != limit || Peek() > last) {
          useDouble := true;
          return;
        }
        var d := Take();
        i64 := i64 * 10 + (d - ZERO) as uint64;
      }
    }

    method SkipDigits()
      requires Running()
      modifies this`pos
      ensures pos == DigitsEnd(src, old(pos)) <= |src|
    {
      while IsDigit(Peek())
        invariant pos <= |src| && DigitsEnd(src, pos) == DigitsEnd(src, old(pos))
        decreases |src| - pos
      {
        var _ := Take();
      }
    }

    method ParseFraction()
      requires Running()
      modifies this`pos, this`failed
      ensures failed == (FractionEnd(src, old(pos)) > |src|)
      ensures !failed ==> pos == FractionEnd(src, old(pos))
    {
      var dot := Consume(DOT);
      if dot {
        if !IsDigit(Peek()) {
          failed := true;
          return;
        }
        SkipDigits();
      }
    }

    method ParseExponent()
      requires Running()
      modifies this`pos, this`failed
      ensures failed == (ExponentEnd(src, old(pos)) > |src|)
      ensures !failed ==> pos == ExponentEnd(src, old(pos))
    {
      if IsExponentMark(Peek()) {
        var _ := Take();
        if Peek() == PLUS || Peek() == MINUS {
          var _ := Take();
        }
        if !IsDigit(Peek()) {
          failed := true;
          return;
        }
        SkipDigits();
      }
    }

    /** The integer part: either the registers hold its exact value, or it is out of the 64-bit range. */
    method ParseInteger(minus: bool) returns (i: uint32, i64: uint64, use64bit: bool, useDouble: bool)
      requires Running()
      modifies this`pos, this`failed
      ensures failed == (IntegerEnd(src, old(pos)) == old(pos))
      ensures !failed ==> pos == IntegerEnd(src, old(pos)) <= |src|
      ensures !failed ==>
                var n := DigitsValue(src, old(pos), pos);
                && useDouble == !FitsInteger(minus, n)
                && (!useDouble && !use64bit ==> n == i as int <= if minus then 0x8000_0000 else 0xFFFF_FFFF)
                && (!useDouble && use64bit ==> n == i64 as int > if minus then 0x8000_0000 else 0xFFFF_FFFF)
    {
      ghost var a := pos;
      i, i64, use64bit, useDouble := 0, 0, false, false;
      if Peek() == ZERO {
        var _ := Take();
        assert DigitsValue(src, a, a) == 0;
        return;
      }
      if !IsDigit(Peek()) {
        failed := true;
        return;
      }
      var d := Take();
      i, use64bit := Accumulate32(minus, (d - ZERO) as uint32, a);
      if use64bit {
        DigitsGrow(src, a, pos + 1, DigitsEnd(src, a));
        i64, useDouble := Accumulate64(minus, i as uint64, a);
        if useDouble {
          DigitsGrow(src, a, pos + 1, DigitsEnd(src, a));
          ghost var p := pos;
          SkipDigits();
          DigitsEndFrom(src, a, p);
        }
      }
    }

    method ParseNumber()
      requires Running()
      modifies this
      ensures Agrees(PNumber(cfg, src, old(pos), old(log)))
    {
      var start := pos;
      var minus := Consume(MINUS);
      ghost var a := pos;
      var i, i64, use64bit, useDouble := ParseInteger(minus);
      if failed { return; }
      var b := pos;
      ParseFraction();
      if failed { return; }
      ParseExponent();
      if failed { return; }
      if pos != b {
        useDouble := true;
      }
      if useDouble {
        if cfg.overflows(src[start..pos]) {
          failed := true;
          return;
        }
        Handle(Double(src[start..pos]));
      } else if use64bit {
        Handle(if minus then Int64(Negate64(i64)) else Uint64(i64 as int));
      } else {
        Handle(if minus then Int(Negate32(i)) else Uint(i as int));
      }
    }

    // ---------- Values ----------

    /** ParseNull, ParseTrue and ParseFalse: the letters one by one. */
    method ParseLiteral(text: bytes, e: Event)
      requires Running() && |text| > 0 && Peek() == text[0] && NUL !in text
      modifies this
      ensures Agrees(PLiteral(cfg, src, old(pos), text, e, old(log)))
    {
      var _ := Take();
      for k := 1 to |text|
        invariant Running() && log == old(log) && pos == old(pos) + k
        invariant forall j :: 0 <= j < k ==> text[j] == At(src, old(pos) + j)
      {
        var same := Consume(text[k]);
        if !same {
          assert !Stands(src, old(pos), text);
          failed := true;
          return;
        }
      }
      assert src[old(pos)..pos] == text;
      Handle(e);
    }

    method ParseValue()
      requires Running()
      modifies this
      ensures Agrees(PValue(cfg, src, old(pos), old(log)))
      decreases |src| - pos, 1
    {
      hide PLiteral, PString, PNumber, PObject, PArray;
      var b := Peek();
      if b == LOWER_N {
        ParseLiteral(NULL_TEXT, Null);
      } else if b == LOWER_T {
        ParseLiteral(TRUE_TEXT, Bool(true));
      } else if b == LOWER_F {
        ParseLiteral(FALSE_TEXT, Bool(false));
      } else if b == QUOTE {
        ParseString(false);
      } else if b == LEFT_BRACE {
        ParseObject();
      } else if b == LEFT_BRACKET {
        ParseArray();
      } else {
        ParseNumber();
      }
    }

    method ParseName()
      requires Running()
      modifies this
      ensures Agrees(PName(cfg, src, old(pos), old(log)))
    {
      hide PString, Skip;
      if Peek() != QUOTE {
        failed := true;
        return;
      }
      ParseString(true);
      if failed { return; }
      SkipWhitespaceAndComments();
      if failed { return; }
      var colon := Consume(COLON);
      if !colon {
        failed := true;
        return;
      }
      SkipWhitespaceAndComments();
    }

    /** The tail of a round of the loops of ParseObject and ParseArray. */
    method ParseSeparator(close: byte, end: Event) returns (more: bool)
      requires Running() && close != NUL && close != COMMA
      modifies this
      ensures match PSeparator(cfg, src, old(pos), close, end, old(log))
              case Done(outcome) => !more && Agrees(outcome)
              case More(next, log') => more && Agrees(Ok(next, log'))
    {
      hide Skip;
      more := false;
      SkipWhitespaceAndComments();
      if failed { return; }
      if Peek() == COMMA {
        var _ := Take();
        SkipWhitespaceAndComments();
        if failed { return; }
        if cfg.trailingCommas && Peek() == close {
          var _ := Take();
          Handle(end);
        } else {
          more := true;
        }
      } else if Peek() == close {
        var _ := Take();
        Handle(end);
      } else {
        failed := true;
      }
    }

    method ParseObject()
      requires Running() && Peek() == LEFT_BRACE
      modifies this
      ensures Agrees(PObject(cfg, src, old(pos), old(log)))
      decreases |src| - pos, 0
    {
      hide PSeparator, PName, PValue, Skip;
      var _ := Take();
      Handle(StartObject);
      if failed { return; }
      SkipWhitespaceAndComments();
      if failed { return; }
      var empty := Consume(RIGHT_BRACE);
      if empty {
        Handle(EndObject(0));
        return;
      }
      var memberCount := 0;
      ghost var want := PMembers(cfg, src, pos, 0, log);
      var more := true;
      while more
        invariant more ==> old(pos) < pos
        invariant if more then Running() && PMembers(cfg, src, pos, memberCount, log) == want else Agrees(want)
        decreases more, |src| - pos
      {
        ParseName();
        if failed { return; }
        ParseValue();
        if failed { return; }
        memberCount := memberCount + 1;
        more := ParseSeparator(RIGHT_BRACE, EndObject(memberCount));
      }
    }

    method ParseArray()
      requires Running() && Peek() == LEFT_BRACKET
      modifies this
      ensures Agrees(PArray(cfg, src, old(pos), old(log)))
      decreases |src| - pos, 0
    {
      hide PSeparator, PValue, Skip;
      var _ := Take();
      Handle(StartArray);
      if failed { return; }
      SkipWhitespaceAndComments();
      if failed { return; }
      var empty := Consume(RIGHT_BRACKET);
      if empty {
        Handle(EndArray(0));
        return;
      }
      var elementCount := 0;
      ghost var want := PElements(cfg, src, pos, 0, log);
      var more := true;
      while more
        invariant more ==> old(pos) < pos
        invariant if more then Running() && PElements(cfg, src, pos, elementCount, log) == want else Agrees(want)
        decreases more, |src| - pos
      {
        ParseValue();
        if failed { return; }
        elementCount := elementCount + 1;
        more := ParseSeparator(RIGHT_BRACKET, EndArray(elementCount));
      }
    }

    /** Parse without kParseIterativeFlag. */
    method Parse()
      requires Agrees(Ok(0, []))
      modifies this
      ensures Agrees(PDocument(cfg, src))
    {
      hide PValue, Skip;
      SkipWhitespaceAndComments();
      if failed { return; }
      if Peek() == NUL {
        failed := true;
        return;
      }
      ParseValue();
      if failed || cfg.stopWhenDone { return; }
      SkipWhitespaceAndComments();
      if failed { return; }
      if Peek() != NUL {
        failed := true;
      }
    }

    // ---------- The pushdown parser ----------

    /** The closing bracket: pops the frame, counts the last value, and resumes the state below. */
    method CloseContainer(isObject: bool, state: State, stack: seq<Frame>) returns (state': State, stack': seq<Frame>)
      requires Running() && Peek() != NUL && stack != [] && FramesNest(stack)
      modifies this
      ensures var n := if isObject then ObjectFinish else ArrayFinish;
              match Pushdown.Transit(cfg, src, old(pos), old(log), state, n, stack)
              case Stopped(log') => Agrees(Err(log'))
              case Running(next, log', to, frames) =>
                Agrees(Ok(next, log')) && state' == to && stack' == frames && Nesting(to, frames)
    {
      hide PValue, PString;
      state', stack' := state, stack;
      if !cfg.trailingCommas && state == if isObject then MemberDelimiter else ElementDelimiter {
        failed := true;
        return;
      }
      var top := stack[|stack| - 1];
      stack' := stack[..|stack| - 1];
      state' := Resumed(top.resume);
      var _ := Take();
      var count := if state == if isObject then MemberValue else Element then top.count + 1 else top.count;
      Handle(if isObject then EndObject(count) else EndArray(count));
    }

    /** Transit: the side effects of one transition; the stack is never popped when empty. */
    method Transit(state: State, n: State, stack: seq<Frame>) returns (state': State, stack': seq<Frame>)
      requires Running() && Peek() != NUL && n == Predict(state, Tokenize(Peek())) && Nesting(state, stack)
      modifies this
      ensures match Pushdown.Transit(cfg, src, old(pos), old(log), state, n, stack)
              case Stopped(log') => Agrees(Err(log'))
              case Running(next, log', to, frames) =>
                Agrees(Ok(next, log')) && state' == to && stack' == frames && Nesting(to, frames)
    {
      hide PValue, PString;
      state', stack' := n, stack;
      match n {
        case ObjectInitial =>
          stack' := stack + [Frame(Nested(state), 0)];
          var _ := Take();
          Handle(StartObject);
        case ArrayInitial =>
          stack' := stack + [Frame(Nested(state), 0)];
          var _ := Take();
          Handle(StartArray);
        case MemberKey =>
          ParseString(true);
        case KeyValueDelimiter =>
          var _ := Take();
        case MemberValue =>
          ParseValue();
        case Element =>
          ParseValue();
        case MemberDelimiter =>
          var _ := Take();
          stack' := CountTop(stack);
        case ElementDelimiter =>
          var _ := Take();
          stack' := CountTop(stack);
        case ObjectFinish =>
          state', stack' := CloseContainer(true, state, stack);
        case ArrayFinish =>
          state', stack' := CloseContainer(false, state, stack);
        case SingleValue =>
          state' := Finish;
          ParseValue();
        case Error =>
          failed := true;
        case Start =>
          assert false;
        case Finish =>
          assert false;
      }
    }

    /** IterativeParse, and by the simulation what Parse does. */
    method IterativeParse()
      requires Agrees(Ok(0, []))
      modifies this
      ensures Agrees(Pushdown.IterativeParse(cfg, src))
      ensures Agrees(PDocument(cfg, src))
    {
      hide PValue, Skip, Pushdown.Transit, PDocument;
      IterativeIsRecursive(cfg, src);
      var state, stack := Start, [];
      SkipWhitespaceAndComments();
      if failed { return; }
      while Peek() != NUL
        invariant Running() && Nesting(state, stack)
        invariant Run(cfg, src, pos, log, state, stack) == Pushdown.IterativeParse(cfg, src)
        decreases |src| - pos
      {
        var n := Predict(state, Tokenize(Peek()));
        state, stack := Transit(state, n, stack);
        if failed { return; }
        if cfg.stopWhenDone && state == Finish { return; }
        SkipWhitespaceAndComments();
        if failed { return; }
      }
      if state != Finish {
        failed := true;
      }
    }
  }

  /** The digits that start at `a` end where those that start at any later one of them end. */
  lemma {:induction false} DigitsEndFrom(s: bytes, a: nat, p: nat)
    requires a <= p <= |s| && p <= DigitsEnd(s, a)
    ensures DigitsEnd(s, p) == DigitsEnd(s, a)
    decreases p - a
  {
    if a < p {
      assert IsDigit(At(s, a));
      DigitsEndFrom(s, a + 1, p);
    }
  }
}
