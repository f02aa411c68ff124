/**
 What the recursive-descent functions of reader.h compute, as functions of the text,
 the position and the log of the handler.
 */
module Grammar {
  import opened Bytes
  import opened Characters
  import opened Sax
  import Unicode

  /**
   The parse flags, the handler and the floating-point library.  `continues(log)` is what the
   handler returns for the last event of `log`; `overflows(lexeme)` says whether converting a
   number with a fraction, an exponent or too many digits reports kParseErrorNumberTooBig.
   */
  datatype Config = Config(
    comments: bool,
    trailingCommas: bool,
    stopWhenDone: bool,
    continues: Log -> bool,
    overflows: bytes -> bool)

  /** The parser after a step: still running at a position, or stopped with parseResult_ set. */
  datatype Outcome = Ok(pos: nat, log: Log) | Err(log: Log) {
    predicate IsFailure() { Err? }

    function PropagateFailure(): Outcome
      requires Err?
    {
      this
    }

    function Extract(): (nat, Log)
      requires Ok?
    {
      (pos, log)
    }
  }

  /** Sends one event; a handler that returns false stops the parser. */
  function Emit(c: Config, pos: nat, log: Log, e: Event): Outcome {
    if c.continues(log + [e]) then Ok(pos, log + [e]) else Err(log + [e])
  }

  // ---------- White space and comments ----------

  predicate IsSpace(b: byte) { b == 0x20 || b == 0x0A || b == 0x0D || b == 0x09 }

  function SkipSpace(s: bytes, i: nat): (j: nat)
    requires i <= |s|
    ensures i <= j <= |s|
    decreases |s| - i
  {
    if IsSpace(At(s, i)) then SkipSpace(s, i + 1) else i
  }

  /** From just after the opening of a block comment to just after its closing, or |s| + 1 when it is not closed. */
  function SkipBlock(s: bytes, i: nat): (j: nat)
    requires i <= |s|
    ensures i <= j <= |s| + 1
    decreases |s| - i
  {
    if At(s, i) == NUL then |s| + 1
    else if At(s, i) == STAR then
      if At(s, i + 1) == SLASH then i + 2 else SkipBlock(s, i + 1)
    else SkipBlock(s, i + 1)
  }

  function SkipLine(s: bytes, i: nat): (j: nat)
    requires i <= |s|
    ensures i <= j <= |s|
    decreases |s| - i
  {
    if At(s, i) == NUL then i
    else if At(s, i) == NEWLINE then i + 1
    else SkipLine(s, i + 1)
  }

  function SkipComments(s: bytes, i: nat, log: Log): (r: Outcome)
    requires i <= |s|
    ensures r.log == log
    ensures r.Ok? ==> i <= r.pos <= |s|
    decreases |s| - i
  {
    if At(s, i) != SLASH then Ok(i, log)
    else if At(s, i + 1) == STAR then
      var j := SkipBlock(s, i + 2);
      if j > |s| then Err(log) else SkipComments(s, SkipSpace(s, j), log)
    else if At(s, i + 1) == SLASH then SkipComments(s, SkipSpace(s, SkipLine(s, i + 2)), log)
    else Err(log)
  }

  /** SkipWhitespaceAndComments. */
  function Skip(c: Config, s: bytes, i: nat, log: Log): (r: Outcome)
    requires i <= |s|
    ensures r.log == log
    ensures r.Ok? ==> i <= r.pos <= |s|
  {
    var j := SkipSpace(s, i);
    if c.comments then SkipComments(s, j, log) else Ok(j, log)
  }

  function Expect(s: bytes, i: nat, b: byte, log: Log): (r: Outcome)
    requires i <= |s| && b != NUL
    ensures r.Ok? ==> r.pos == i + 1 <= |s|
  {
    if At(s, i) == b then Ok(i + 1, log) else Err(log)
  }

  // ---------- Strings ----------

  /** ParseHex4 at position `i`: the four-digit value, or -1. */
  function Hex4(s: bytes, i: nat): (v: int)
    ensures -1 <= v <= 0xFFFF
    ensures v >= 0 ==> i + 4 <= |s|
  {
    var a, b, c, d := HexValue(At(s, i)), HexValue(At(s, i + 1)), HexValue(At(s, i + 2)), HexValue(At(s, i + 3));
    if a < 0 || b < 0 || c < 0 || d < 0 then -1 else ((a * 16 + b) * 16 + c) * 16 + d
  }

  /** The escape table of ParseStringToStream: 0 where the character is no one-letter escape. */
  function Unescape(b: byte): byte {
    if b == QUOTE || b == SLASH || b == BACKSLASH then b
    else if b == 0x62 then 0x08
    else if b == 0x66 then 0x0C
    else if b == 0x6E then 0x0A
    else if b == 0x72 then 0x0D
    else if b == 0x74 then 0x09
    else 0
  }

  /** One character of a string body: the bytes it stands for and the position after it, or no progress. */
  datatype Piece = Piece(next: nat, decoded: bytes) | Bad

  /** A `\u` escape whose backslash is at `i`; a leading surrogate needs its trailing one. */
  function UnicodePiece(s: bytes, i: nat): (p: Piece)
    ensures p.Piece? ==> i < p.next <= |s|
    ensures p.Piece? ==> |p.decoded| < p.next - i
  {
    var hi := Hex4(s, i + 2);
    if hi < 0 then Bad
    else if 0xD800 <= hi <= 0xDBFF then
      if At(s, i + 6) != BACKSLASH || At(s, i + 7) != LOWER_U then Bad
      else
        var lo := Hex4(s, i + 8);
        if lo < 0xDC00 || lo > 0xDFFF then Bad
        else Piece(i + 12, Unicode.Encode((hi - 0xD800) * 0x400 + (lo - 0xDC00) + 0x10000))
    else Piece(i + 6, Unicode.Encode(hi))
  }

  function StringPiece(s: bytes, i: nat): (p: Piece)
    ensures p.Piece? ==> i < p.next <= |s|
    ensures p.Piece? ==> |p.decoded| <= p.next - i
  {
    var b := At(s, i);
    if b == BACKSLASH then
      var e := At(s, i + 1);
      if Unescape(e) != 0 then Piece(i + 2, [Unescape(e)])
      else if e == LOWER_U then UnicodePiece(s, i)
      else Bad
    else if b < 0x20 then Bad
    else Piece(i + 1, [b])
  }

  datatype Decoded = Text(next: nat, text: bytes) | Malformed

  /** The rest of a string body at `i`, its closing quotation mark included. */
  function StringBody(s: bytes, i: nat, out: bytes): (r: Decoded)
    ensures r.Text? ==> i < r.next <= |s|
    decreases |s| - i
  {
    if At(s, i) == QUOTE then Text(i + 1, out)
    else
      match StringPiece(s, i)
      case Bad => Malformed
      case Piece(next, decoded) => StringBody(s, next, out + decoded)
  }

  /** ParseString: `i` is at the opening quotation mark. */
  function PString(c: Config, s: bytes, i: nat, log: Log, isKey: bool): (r: Outcome)
    requires At(s, i) == QUOTE
    ensures r.Ok? ==> i < r.pos <= |s|
  {
    match StringBody(s, i + 1, [])
    case Malformed => Err(log)
    case Text(next, text) => Emit(c, next, log, if isKey then Key(text) else String(text))
  }

  // ---------- Numbers ----------

  function DigitsEnd(s: bytes, i: nat): (j: nat)
    requires i <= |s|
    ensures i <= j <= |s|
    ensures forall k :: i <= k < j ==> IsDigit(s[k])
    ensures !IsDigit(At(s, j))
    decreases |s| - i
  {
    if IsDigit(At(s, i)) then DigitsEnd(s, i + 1) else i
  }

  /** The decimal value of the digits from `i` up to `j`. */
  function DigitsValue(s: bytes, i: nat, j: nat): nat
    requires i <= j <= |s| && forall k :: i <= k < j ==> IsDigit(s[k])
  {
    if i == j then 0 else assert IsDigit(s[j - 1]); DigitsValue(s, i, j - 1) * 10 + (s[j - 1] - ZERO)
  }

  /** The integer event for a magnitude that fits: the narrowest class, unsigned when there is no minus sign. */
  function IntegerEvent(minus: bool, n: nat): Event {
    if minus then
      if n <= 0x8000_0000 then Int(-(n as int)) else Int64(-(n as int))
    else
      if n <= 0xFFFF_FFFF then Uint(n) else Uint64(n)
  }

  predicate FitsInteger(minus: bool, n: nat) {
    if minus then n <= 0x8000_0000_0000_0000 else n <= 0xFFFF_FFFF_FFFF_FFFF
  }

  /** End of an optional fraction that starts at `i`, or |s| + 1 when its digits are missing. */
  function FractionEnd(s: bytes, i: nat): (j: nat)
    requires i <= |s|
    ensures i <= j <= |s| + 1
  {
    if At(s, i) != DOT then i
    else if !IsDigit(At(s, i + 1)) then |s| + 1
    else DigitsEnd(s, i + 1)
  }

  predicate IsExponentMark(b: byte) { b == 0x65 || b == 0x45 }

  function ExponentEnd(s: bytes, i: nat): (j: nat)
    requires i <= |s|
    ensures i <= j <= |s| + 1
  {
    if !IsExponentMark(At(s, i)) then i
    else
      var k := if At(s, i + 1) == PLUS || At(s, i + 1) == MINUS then i + 2 else i + 1;
      if !IsDigit(At(s, k)) then |s| + 1 else DigitsEnd(s, k)
  }

  function IntegerEnd(s: bytes, i: nat): (j: nat)
    requires i <= |s|
    ensures i <= j <= |s| && (j == i <==> !IsDigit(At(s, i)))
    ensures forall k :: i <= k < j ==> IsDigit(s[k])
  {
    if At(s, i) == ZERO then i + 1 else DigitsEnd(s, i)
  }

  /** ParseNumber. */
  function PNumber(c: Config, s: bytes, i: nat, log: Log): (r: Outcome)
    requires i <= |s|
    ensures r.Ok? ==> i < r.pos <= |s|
  {
    var minus := At(s, i) == MINUS;
    var a := if minus then i + 1 else i;
    var b := IntegerEnd(s, a);
    if b == a then Err(log)
    else
      var f := FractionEnd(s, b);
      if f > |s| then Err(log)
      else
        var e := ExponentEnd(s, f);
        if e > |s| then Err(log)
        else if e == b && FitsInteger(minus, DigitsValue(s, a, b)) then
          Emit(c, e, log, IntegerEvent(minus, DigitsValue(s, a, b)))
        else if c.overflows(s[i..e]) then Err(log)
        else Emit(c, e, log, Double(s[i..e]))
  }

  // ---------- Values ----------

  function PLiteral(c: Config, s: bytes, i: nat, text: bytes, e: Event, log: Log): (r: Outcome)
    requires |text| > 0
    ensures r.Ok? ==> i < r.pos <= |s|
  {
    if Stands(s, i, text) then Emit(c, i + |text|, log, e) else Err(log)
  }

  /** ParseValue. */
  function PValue(c: Config, s: bytes, i: nat, log: Log): (r: Outcome)
    requires i <= |s|
    ensures r.Ok? ==> i < r.pos <= |s|
    decreases |s| - i, 1
  {
    var b := At(s, i);
    if b == LOWER_N then PLiteral(c, s, i, NULL_TEXT, Null, log)
    else if b == LOWER_T then PLiteral(c, s, i, TRUE_TEXT, Bool(true), log)
    else if b == LOWER_F then PLiteral(c, s, i, FALSE_TEXT, Bool(false), log)
    else if b == QUOTE then PString(c, s, i, log, false)
    else if b == LEFT_BRACE then PObject(c, s, i, log)
    else if b == LEFT_BRACKET then PArray(c, s, i, log)
    else PNumber(c, s, i, log)
  }

  /** ParseObject, up to its loop. */
  function PObject(c: Config, s: bytes, i: nat, log: Log): (r: Outcome)
    requires At(s, i) == LEFT_BRACE
    ensures r.Ok? ==> i < r.pos <= |s|
    decreases |s| - i, 0
  {
    var (i1, log) :- Emit(c, i + 1, log, StartObject);
    var (i2, log) :- Skip(c, s, i1, log);
    if At(s, i2) == RIGHT_BRACE then Emit(c, i2 + 1, log, EndObject(0))
    else PMembers(c, s, i2, 0, log)
  }

  /** The part of that loop that reads a member's name and colon. */
  function PName(c: Config, s: bytes, i: nat, log: Log): (r: Outcome)
    requires i <= |s|
    ensures r.Ok? ==> i < r.pos <= |s|
  {
    if At(s, i) != QUOTE then Err(log)
    else
      var (i1, log) :- PString(c, s, i, log, true);
      var (i2, log) :- Skip(c, s, i1, log);
      var (i3, log) :- Expect(s, i2, COLON, log);
      Skip(c, s, i3, log)
  }

  /** What follows a member or an element: the end of the container, or the next one. */
  datatype Next = Done(outcome: Outcome) | More(pos: nat, log: Log)

  /** The tail of a round of either loop, `close` being the closing bracket and `end` the event it sends. */
  function PSeparator(c: Config, s: bytes, i: nat, close: byte, end: Event, log: Log): (r: Next)
    requires i <= |s| && close != NUL
    ensures r.Done? && r.outcome.Ok? ==> i < r.outcome.pos <= |s|
    ensures r.More? ==> i < r.pos <= |s|
    ensures r.More? && c.trailingCommas ==> At(s, r.pos) != close
  {
    var skipped := Skip(c, s, i, log);
    if skipped.Err? then Done(skipped)
    else if At(s, skipped.pos) == close then Done(Emit(c, skipped.pos + 1, log, end))
    else if At(s, skipped.pos) != COMMA then Done(Err(log))
    else
      var again := Skip(c, s, skipped.pos + 1, log);
      if again.Err? then Done(again)
      else if c.trailingCommas && At(s, again.pos) == close then Done(Emit(c, again.pos + 1, log, end))
      else More(again.pos, log)
  }

  /** One round of the loop of ParseObject, `count` members already counted, and the rounds after it. */
  function PMembers(c: Config, s: bytes, i: nat, count: nat, log: Log): (r: Outcome)
    requires i <= |s|
    ensures r.Ok? ==> i < r.pos <= |s|
    decreases |s| - i, 2
  {
    var (i1, log) :- PName(c, s, i, log);
    var (i2, log) :- PValue(c, s, i1, log);
    match PSeparator(c, s, i2, RIGHT_BRACE, EndObject(count + 1), log)
    case Done(outcome) => outcome
    case More(i3, log) => PMembers(c, s, i3, count + 1, log)
  }

  /** ParseArray, up to its loop. */
  function PArray(c: Config, s: bytes, i: nat, log: Log): (r: Outcome)
    requires At(s, i) == LEFT_BRACKET
    ensures r.Ok? ==> i < r.pos <= |s|
    decreases |s| - i, 0
  {
    var (i1, log) :- Emit(c, i + 1, log, StartArray);
    var (i2, log) :- Skip(c, s, i1, log);
    if At(s, i2) == RIGHT_BRACKET then Emit(c, i2 + 1, log, EndArray(0))
    else PElements(c, s, i2, 0, log)
  }

  /** One round of the loop of ParseArray, and the rounds after it. */
  function PElements(c: Config, s: bytes, i: nat, count: nat, log: Log): (r: Outcome)
    requires i <= |s|
    ensures r.Ok? ==> i < r.pos <= |s|
    decreases |s| - i, 2
  {
    var (i1, log) :- PValue(c, s, i, log);
    match PSeparator(c, s, i1, RIGHT_BRACKET, EndArray(count + 1), log)
    case Done(outcome) => outcome
    case More(i2, log) => PElements(c, s, i2, count + 1, log)
  }

  /** Parse without kParseIterativeFlag. */
  function PDocument(c: Config, s: bytes): (r: Outcome)
    ensures r.Ok? ==> r.pos <= |s|
  {
    var (i1, log) :- Skip(c, s, 0, []);
    if At(s, i1) == NUL then Err(log)
    else
      var (i2, log) :- PValue(c, s, i1, log);
      if c.stopWhenDone then Ok(i2, log)
      else
        var (i3, log) :- Skip(c, s, i2, log);
        if At(s, i3) != NUL then Err(log) else Ok(i3, log)
  }
}
