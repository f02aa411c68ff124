/**
 Reading back what a writer printed: the reader accepts the text and sends the events of the tree,
 and the document built from them is the tree.
 */
module RoundTrip {
  import opened Bytes
  import opened Characters
  import opened Dom
  import opened Sax
  import opened Wrappers
  import G = Grammar
  import L = Lexemes
  import P = Pushdown
  import W = Writer
  import Unicode

  // ---------- Strings ----------

  lemma HexDigitRead(v: nat)
    requires v < 16
    ensures HexValue(HexDigit(v)) == v
  {
  }

  lemma HexRead(s: bytes, i: nat, unit: nat)
    requires unit <= 0xFFFF && Stands(s, i, W.HexText(unit))
    ensures G.Hex4(s, i) == unit
  {
    var t := W.HexText(unit);
    StandsAt(s, i, t, 0);
    StandsAt(s, i, t, 1);
    StandsAt(s, i, t, 2);
    StandsAt(s, i, t, 3);
    HexDigitRead(unit / 4096);
    HexDigitRead(unit / 256 % 16);
    HexDigitRead(unit / 16 % 16);
    HexDigitRead(unit % 16);
    Nibbles(unit);
  }

  lemma Nibbles(unit: nat)
    ensures ((unit / 4096 * 16 + unit / 256 % 16) * 16 + unit / 16 % 16) * 16 + unit % 16 == unit
  {
    var a := unit / 16;
    var b := a / 16;
    var c := b / 16;
    assert unit / 256 == b && unit / 4096 == c;
  }

  /** A short escape, `\u00XX` included, reads back as its code unit. */
  lemma EscapeRead(s: bytes, i: nat, c: byte)
    requires W.EscapeOf(c) != 0 && Stands(s, i, W.EscapeText(c))
    ensures G.StringPiece(s, i) == G.Piece(i + |W.EscapeText(c)|, [c])
  {
    var t := W.EscapeText(c);
    StandsAt(s, i, t, 0);
    StandsAt(s, i, t, 1);
    if W.EscapeOf(c) == 0x75 {
      var unit: nat := c;
      assert W.HexText(unit) == [0x30, 0x30, HexDigit(c / 16), HexDigit(c % 16)];
      assert t == [BACKSLASH, 0x75] + W.HexText(unit);
      StandsSplit(s, i, [BACKSLASH, 0x75], W.HexText(unit));
      HexRead(s, i + 2, unit);
    }
  }

  lemma SurrogatePair(cp: nat)
    requires 0x1_0000 <= cp <= 0x10_FFFF
    ensures var v := cp - 0x1_0000; var hi, lo := v / 0x400 + 0xD800, v % 0x400 + 0xDC00;
      0xD800 <= hi <= 0xDBFF && 0xDC00 <= lo <= 0xDFFF && (hi - 0xD800) * 0x400 + (lo - 0xDC00) + 0x10000 == cp
  {
  }

  /** The `\u` escapes of a scalar value, a surrogate pair included, read back as its UTF-8 bytes. */
  lemma CodePointRead(s: bytes, i: nat, cp: nat)
    requires Unicode.Scalar(cp) && Stands(s, i, W.CodePointText(cp))
    ensures G.StringPiece(s, i) == G.Piece(i + |W.CodePointText(cp)|, Unicode.Encode(cp))
  {
    hide Unicode.Encode, G.Hex4, W.HexText;
    var esc := UNICODE_ESCAPE;
    if cp <= 0xFFFF {
      UnitRead(s, i, cp);
      assert G.UnicodePiece(s, i) == G.Piece(i + 6, Unicode.Encode(cp));
    } else {
      var v := cp - 0x1_0000;
      var hi, lo := v / 0x400 + 0xD800, v % 0x400 + 0xDC00;
      SurrogatePair(cp);
      StandsSplit(s, i, esc + W.HexText(hi), esc + W.HexText(lo));
      UnitRead(s, i, hi);
      UnitRead(s, i + 6, lo);
      assert G.UnicodePiece(s, i) == G.Piece(i + 12, Unicode.Encode(cp));
    }
  }

  lemma UnitRead(s: bytes, i: nat, unit: nat)
    requires unit <= 0xFFFF && Stands(s, i, UNICODE_ESCAPE + W.HexText(unit))
    ensures At(s, i) == BACKSLASH && At(s, i + 1) == LOWER_U && G.Hex4(s, i + 2) == unit
  {
    var esc := UNICODE_ESCAPE;
    StandsSplit(s, i, esc, W.HexText(unit));
    StandsAt(s, i, esc, 0);
    StandsAt(s, i, esc, 1);
    HexRead(s, i + 2, unit);
  }

  /** Every character from `k` on can be written. */
  predicate WritableFrom(target: W.Target, text: bytes, k: nat) {
    target.Utf8? || Unicode.WellFormedFrom(text, k)
  }

  /** The first piece that a string's body prints from code unit `k`, and where the next one starts. */
  function FirstPiece(target: W.Target, text: bytes, k: nat): (r: (bytes, nat))
    requires k < |text| && WritableFrom(target, text, k)
    ensures k < r.1 <= |text| && WritableFrom(target, text, r.1)
  {
    if W.NeedsUnicode(target, text[k]) then
      Unicode.DecodeIsRfc3629(text, k);
      (W.CodePointText(Unicode.Decode(text, k).cp), Unicode.Decode(text, k).next)
    else if W.EscapeOf(text[k]) != 0 then (W.EscapeText(text[k]), k + 1)
    else ([text[k]], k + 1)
  }

  lemma FirstPieceOf(target: W.Target, text: bytes, k: nat)
    requires k < |text| && WritableFrom(target, text, k)
    ensures var (piece, next) := FirstPiece(target, text, k);
            W.StringText(target, text, k) == piece + W.StringText(target, text, next)
  {
    if W.NeedsUnicode(target, text[k]) {
      Unicode.DecodeIsRfc3629(text, k);
    }
  }

  lemma FirstPieceRead(target: W.Target, text: bytes, k: nat, s: bytes, i: nat)
    requires k < |text| && WritableFrom(target, text, k)
    requires Stands(s, i, FirstPiece(target, text, k).0)
    ensures var (piece, next) := FirstPiece(target, text, k);
            && G.StringPiece(s, i) == G.Piece(i + |piece|, text[k..next])
            && At(s, i) != QUOTE
  {
    var (piece, next) := FirstPiece(target, text, k);
    StandsAt(s, i, piece, 0);
    if W.NeedsUnicode(target, text[k]) {
      Unicode.DecodeIsRfc3629(text, k);
      CodePointRead(s, i, Unicode.Decode(text, k).cp);
    } else if W.EscapeOf(text[k]) != 0 {
      EscapeRead(s, i, text[k]);
      assert text[k..next] == [text[k]];
    } else {
      assert text[k..next] == [text[k]];
    }
  }

  lemma NoMoreText(target: W.Target, text: bytes)
    ensures W.StringText(target, text, |text|) == []
  {
  }

  lemma {:induction false} StringBodyRead(target: W.Target, text: bytes, k: nat, s: bytes, i: nat, out: bytes)
    requires k <= |text| && WritableFrom(target, text, k)
    requires Stands(s, i, W.StringText(target, text, k) + [QUOTE])
    ensures G.StringBody(s, i, out) == G.Text(i + |W.StringText(target, text, k)| + 1, out + text[k..])
    decreases |text| - k
  {
    hide W.StringText, G.StringPiece, FirstPiece, WritableFrom, Stands;
    StandsSplit(s, i, W.StringText(target, text, k), [QUOTE]);
    if k == |text| {
      NoMoreText(target, text);
      StandsAt(s, i, [QUOTE], 0);
      assert out + text[k..] == out;
    } else {
      var (piece, next) := FirstPiece(target, text, k);
      FirstPieceOf(target, text, k);
      var rest := W.StringText(target, text, next);
      assert W.StringText(target, text, k) + [QUOTE] == piece + (rest + [QUOTE]);
      StandsSplit(s, i, piece, rest + [QUOTE]);
      FirstPieceRead(target, text, k, s, i);
      StringBodyRead(target, text, next, s, i + |piece|, out + text[k..next]);
      assert out + text[k..] == out + text[k..next] + text[next..];
    }
  }

  /**
   A quoted string reads back as the string, for arbitrary bytes with the UTF8 target, for well-formed text with
   ASCII.
   */
  lemma StringRead(target: W.Target, text: bytes, c: G.Config, s: bytes, i: nat, log: Log, isKey: bool)
    requires W.Writable(target, text) && Stands(s, i, W.Quoted(target, text))
    ensures At(s, i) == QUOTE
    ensures G.PString(c, s, i, log, isKey)
         == G.Emit(c, i + |W.Quoted(target, text)|, log, if isKey then Key(text) else String(text))
  {
    var body := W.StringText(target, text, 0);
    assert W.Quoted(target, text) == [QUOTE] + (body + [QUOTE]);
    StandsSplit(s, i, [QUOTE], body + [QUOTE]);
    StandsAt(s, i, [QUOTE], 0);
    StringBodyRead(target, text, 0, s, i + 1, []);
    assert [] + text[0..] == text;
  }

  predicate AllAscii(t: bytes) { forall k :: 0 <= k < |t| ==> t[k] < 0x80 }

  lemma AsciiConcat(a: bytes, b: bytes)
    requires AllAscii(a) && AllAscii(b)
    ensures AllAscii(a + b)
  {
  }

  lemma AsciiCodePoint(cp: nat)
    requires Unicode.Scalar(cp)
    ensures AllAscii(W.CodePointText(cp))
  {
  }

  lemma AsciiEscape(c: byte)
    requires W.EscapeOf(c) != 0
    ensures AllAscii(W.EscapeText(c))
  {
  }

  /** With the ASCII target every byte that is written is below 0x80. */
  lemma {:induction false} AsciiOnly(text: bytes, k: nat)
    ensures AllAscii(W.StringText(W.Ascii, text, k))
    decreases |text| - k
  {
    hide AllAscii, W.CodePointText, W.EscapeText, W.EscapeOf, Unicode.Decode, Unicode.CharLength, Unicode.Encode;
    if k >= |text| {
      AsciiEmpty();
    } else if text[k] >= 0x80 {
      AsciiEmpty();
      if Unicode.Decode(text, k).ok {
        Unicode.DecodeIsRfc3629(text, k);
        var cp, next := Unicode.Decode(text, k).cp, Unicode.Decode(text, k).next;
        AsciiOnly(text, next);
        AsciiCodePoint(cp);
        AsciiConcat(W.CodePointText(cp), W.StringText(W.Ascii, text, next));
      }
    } else {
      AsciiOnly(text, k + 1);
      if W.EscapeOf(text[k]) != 0 {
        AsciiEscape(text[k]);
        AsciiConcat(W.EscapeText(text[k]), W.StringText(W.Ascii, text, k + 1));
      } else {
        AsciiUnit(text[k]);
        AsciiConcat([text[k]], W.StringText(W.Ascii, text, k + 1));
      }
    }
  }

  lemma AsciiUnit(c: byte)
    requires c < 0x80
    ensures AllAscii([c])
  {
  }

  lemma AsciiEmpty()
    ensures AllAscii([])
  {
  }

  // ---------- Numbers ----------

  lemma {:induction false} DigitsRead(n: nat, s: bytes, i: nat)
    requires Stands(s, i, W.Digits(n))
    ensures var j := i + |W.Digits(n)|;
      && (forall k :: i <= k < j ==> IsDigit(s[k]))
      && G.DigitsValue(s, i, j) == n
      && j > i && (s[i] == ZERO ==> n == 0)
  {
    var t := W.Digits(n);
    if n < 10 {
      StandsAt(s, i, t, 0);
      assert G.DigitsValue(s, i, i) == 0;
    } else {
      StandsSplit(s, i, W.Digits(n / 10), [0x30 + n % 10]);
      DigitsRead(n / 10, s, i);
      StandsAt(s, i + |W.Digits(n / 10)|, [0x30 + n % 10], 0);
    }
  }

  /** What may follow a value in a text: its end, a separator, a closing bracket or white space. */
  predicate Ends(b: byte) {
    b in {NUL, COMMA, RIGHT_BRACKET, RIGHT_BRACE} || G.IsSpace(b)
  }

  predicate InRange(n: int) { -0x8000_0000_0000_0000 <= n <= 0xFFFF_FFFF_FFFF_FFFF }

  lemma NumberRead(n: int, c: G.Config, s: bytes, i: nat, log: Log)
    requires InRange(n) && Stands(s, i, W.Decimal(n)) && Ends(At(s, i + |W.Decimal(n)|))
    ensures G.PNumber(c, s, i, log) == G.Emit(c, i + |W.Decimal(n)|, log, ReaderEvent(n))
  {
    hide W.Digits, G.DigitsValue, G.IntegerEnd, G.FractionEnd, G.ExponentEnd, Ends;
    var m: nat := if n < 0 then -n else n;
    var a := if n < 0 then i + 1 else i;
    if n < 0 {
      StandsSplit(s, i, [0x2D], W.Digits(m));
      StandsAt(s, i, [0x2D], 0);
    }
    NumberParts(m, s, a);
  }

  /** The integer part is the digits, and nothing follows it. */
  lemma NumberParts(m: nat, s: bytes, a: nat)
    requires Stands(s, a, W.Digits(m)) && Ends(At(s, a + |W.Digits(m)|))
    ensures var j := a + |W.Digits(m)|;
      && a < j <= |s| && IsDigit(s[a]) && G.IntegerEnd(s, a) == j && (forall k :: a <= k < j ==> IsDigit(s[k]))
      && G.FractionEnd(s, j) == j && G.ExponentEnd(s, j) == j && G.DigitsValue(s, a, j) == m
  {
    hide G.DigitsValue;
    DigitsRead(m, s, a);
    var j := a + |W.Digits(m)|;
    if s[a] == ZERO {
      assert j == a + 1;
    } else {
      L.DigitsTaken(s, a, j);
    }
  }

  // ---------- White space and separators ----------

  predicate AllSpace(w: bytes) { forall k :: 0 <= k < |w| ==> G.IsSpace(w[k]) }

  /** Neither white space nor the start of a comment. */
  predicate Solid(b: byte) { !G.IsSpace(b) && b != SLASH }

  lemma {:induction false} SkipSpaceRead(s: bytes, i: nat, w: bytes)
    requires Stands(s, i, w) && AllSpace(w) && !G.IsSpace(At(s, i + |w|))
    ensures G.SkipSpace(s, i) == i + |w|
    decreases |w|
  {
    if w != [] {
      assert w == [w[0]] + w[1..];
      StandsSplit(s, i, [w[0]], w[1..]);
      StandsAt(s, i, w, 0);
      SkipSpaceRead(s, i + 1, w[1..]);
    }
  }

  lemma SkipRead(c: G.Config, s: bytes, i: nat, w: bytes, log: Log)
    requires Stands(s, i, w) && AllSpace(w) && Solid(At(s, i + |w|))
    ensures G.Skip(c, s, i, log) == G.Ok(i + |w|, log)
  {
    SkipSpaceRead(s, i, w);
  }

  lemma SeparatorMore(c: G.Config, s: bytes, i: nat, close: byte, end: Event, log: Log, gap: bytes)
    requires Stands(s, i, [COMMA] + gap) && AllSpace(gap)
    requires close in {RIGHT_BRACKET, RIGHT_BRACE}
    requires var b := At(s, i + 1 + |gap|); Solid(b) && b != close
    ensures G.PSeparator(c, s, i, close, end, log) == G.More(i + 1 + |gap|, log)
  {
    StandsSplit(s, i, [COMMA], gap);
    StandsAt(s, i, [COMMA], 0);
    assert Stands(s, i, []);
    SkipRead(c, s, i, [], log);
    SkipRead(c, s, i + 1, gap, log);
  }

  lemma SeparatorDone(c: G.Config, s: bytes, i: nat, close: byte, end: Event, log: Log, gap: bytes)
    requires Stands(s, i, gap + [close]) && AllSpace(gap)
    requires close in {RIGHT_BRACKET, RIGHT_BRACE}
    ensures G.PSeparator(c, s, i, close, end, log) == G.Done(G.Emit(c, i + |gap| + 1, log, end))
  {
    StandsSplit(s, i, gap, [close]);
    StandsAt(s, i + |gap|, [close], 0);
    SkipRead(c, s, i, gap, log);
  }

  /** PrettyWriter's indentation character is white space, as SetIndent demands. */
  predicate White(style: W.Style) {
    style.Pretty? ==> G.IsSpace(style.indentChar)
  }

  /** The separator that a place text starts with. */
  function Mark(level: W.Level): bytes {
    if level.valueCount == 0 then []
    else if level.inArray || level.valueCount % 2 == 0 then [COMMA]
    else [COLON]
  }

  function Gap(style: W.Style, depth: nat, level: W.Level): bytes
    requires |Mark(level)| <= |W.PlaceText(style, depth, level)|
  {
    W.PlaceText(style, depth, level)[|Mark(level)|..]
  }

  lemma PlaceShape(style: W.Style, depth: nat, level: W.Level)
    requires White(style)
    ensures |Mark(level)| <= |W.PlaceText(style, depth, level)|
    ensures W.PlaceText(style, depth, level) == Mark(level) + Gap(style, depth, level)
    ensures AllSpace(Gap(style, depth, level))
  {
    var text := W.PlaceText(style, depth, level);
    assert AllSpace(W.Indent(style, depth));
    assert text[..|Mark(level)|] == Mark(level);
  }

  lemma CloseShape(style: W.Style, depth: nat, level: W.Level)
    requires White(style)
    ensures AllSpace(W.CloseText(style, depth, level))
  {
  }

  // ---------- Values ----------

  /** The trees that have an exact text: integers of 64 bits, and strings that the target can hold. */
  predicate Exact(target: W.Target, v: Value)
    decreases v
  {
    match v
    case NumberValue(n) => InRange(n)
    case DoubleValue(_) => false
    case StringValue(text) => W.Writable(target, text)
    case ArrayValue(vs) => forall k :: 0 <= k < |vs| ==> Exact(target, vs[k])
    case ObjectValue(ms) => forall k :: 0 <= k < |ms| ==> W.Writable(target, ms[k].name) && Exact(target, ms[k].value)
    case _ => true
  }

  /** A handler that never stops the parser. */
  ghost predicate Willing(c: G.Config) { forall log: Log :: c.continues(log) }

  lemma Willingly(c: G.Config, pos: nat, log: Log, e: Event)
    requires Willing(c)
    ensures G.Emit(c, pos, log, e) == G.Ok(pos, log + [e])
  {
  }

  lemma FirstByte(style: W.Style, target: W.Target, depth: nat, v: Value)
    requires !v.DoubleValue?
    ensures var t := W.Print(style, target, depth, v);
      t != [] && Solid(t[0]) && t[0] !in {NUL, RIGHT_BRACKET, RIGHT_BRACE, COMMA, COLON}
  {
    if v.NumberValue? && v.n >= 0 {
      FirstDigit(v.n);
    }
  }

  lemma {:induction false} FirstDigit(n: nat)
    ensures W.Digits(n) != [] && IsDigit(W.Digits(n)[0])
  {
    if n >= 10 { FirstDigit(n / 10); }
  }

  /** ParseValue on a printed tree sends its events and stops just after it. */
  lemma {:induction false} ValueRead(
    style: W.Style, target: W.Target, depth: nat, v: Value, c: G.Config, s: bytes, i: nat, log: Log)
    requires White(style) && Exact(target, v) && Willing(c)
    requires Stands(s, i, W.Print(style, target, depth, v)) && Ends(At(s, i + |W.Print(style, target, depth, v)|))
    ensures G.PValue(c, s, i, log) == G.Ok(i + |W.Print(style, target, depth, v)|, log + Events(v, FromText))
    decreases v, 3
  {
    hide G.PNumber, G.PString, G.PArray, G.PObject, W.Quoted, W.Decimal;
    var t := W.Print(style, target, depth, v);
    FirstByte(style, target, depth, v);
    StandsAt(s, i, t, 0);
    match v {
      case NullValue =>
      case BoolValue(_) =>
      case NumberValue(n) =>
        NumberStart(n);
        NumberRead(n, c, s, i, log);
      case StringValue(text) => StringRead(target, text, c, s, i, log, false);
      case ArrayValue(vs) => ArrayRead(style, target, depth, vs, c, s, i, log);
      case ObjectValue(ms) => ObjectRead(style, target, depth, ms, c, s, i, log);
    }
  }

  lemma NumberStart(n: int)
    ensures W.Decimal(n) != [] && (W.Decimal(n)[0] == MINUS || IsDigit(W.Decimal(n)[0]))
  {
    if n >= 0 { FirstDigit(n); }
  }

  /** Where the four parts of an element, and the elements after it, stand. */
  lemma ElementsSplit(style: W.Style, target: W.Target, d: nat, vs: seq<Value>, k: nat, s: bytes, i: nat)
    returns (i1: nat, i2: nat)
    requires White(style) && vs != [] && !vs[0].DoubleValue? && Stands(s, i, W.PrintElements(style, target, d, vs, k))
    ensures var level := W.Level(k, true);
      && |Mark(level)| <= |W.PlaceText(style, d, level)|
      && Stands(s, i, Mark(level) + Gap(style, d, level)) && AllSpace(Gap(style, d, level))
      && i1 == i + |Mark(level) + Gap(style, d, level)|
      && Stands(s, i1, W.Print(style, target, d, vs[0])) && i2 == i1 + |W.Print(style, target, d, vs[0])|
      && Stands(s, i2, W.PrintElements(style, target, d, vs[1..], k + 1))
      && i2 + |W.PrintElements(style, target, d, vs[1..], k + 1)| == i + |W.PrintElements(style, target, d, vs, k)|
    ensures var b := At(s, i1); Solid(b) && b !in {NUL, RIGHT_BRACKET, RIGHT_BRACE, COMMA, COLON}
  {
    hide W.Print, W.PlaceText, W.PrintElements, Gap, Mark, White, AllSpace;
    var level := W.Level(k, true);
    PlaceShape(style, d, level);
    var place, text := W.PlaceText(style, d, level), W.Print(style, target, d, vs[0]);
    var rest := W.PrintElements(style, target, d, vs[1..], k + 1);
    i1, i2 := i + |place|, i + |place| + |text|;
    FirstByte(style, target, d, vs[0]);
    ElementsText(style, target, d, vs, k);
    StandsSplit(s, i, place + text, rest);
    StandsSplit(s, i, place, text);
    StandsAt(s, i1, text, 0);
  }

  lemma MembersSplit(style: W.Style, target: W.Target, d: nat, ms: seq<Member>, k: nat, s: bytes, i: nat)
    returns (i1: nat, i2: nat)
    requires White(style) && ms != [] && Stands(s, i, W.PrintMembers(style, target, d, ms, k))
    ensures var level := W.Level(2 * k, false);
      && |Mark(level)| <= |W.PlaceText(style, d, level)|
      && Stands(s, i, Mark(level) + Gap(style, d, level)) && AllSpace(Gap(style, d, level))
      && i1 == i + |Mark(level) + Gap(style, d, level)|
      && Stands(s, i1, MemberText(style, target, d, ms[0], k)) && i2 == i1 + |MemberText(style, target, d, ms[0], k)|
      && Stands(s, i2, W.PrintMembers(style, target, d, ms[1..], k + 1))
      && i2 + |W.PrintMembers(style, target, d, ms[1..], k + 1)| == i + |W.PrintMembers(style, target, d, ms, k)|
    ensures At(s, i1) == QUOTE
  {
    hide W.Print, W.PlaceText, MemberText, W.PrintMembers, Gap, Mark, White, AllSpace;
    var level := W.Level(2 * k, false);
    PlaceShape(style, d, level);
    var place, text := W.PlaceText(style, d, level), MemberText(style, target, d, ms[0], k);
    var rest := W.PrintMembers(style, target, d, ms[1..], k + 1);
    i1, i2 := i + |place|, i + |place| + |text|;
    MemberStart(style, target, d, ms[0], k);
    MembersText(style, target, d, ms, k);
    StandsSplit(s, i, place + text, rest);
    StandsSplit(s, i, place, text);
    StandsAt(s, i1, text, 0);
  }

  /** A member without the separator before it. */
  function MemberText(style: W.Style, target: W.Target, d: nat, m: Member, k: nat): bytes {
    W.Quoted(target, m.name) + W.PlaceText(style, d, W.Level(2 * k + 1, false)) + W.Print(style, target, d, m.value)
  }

  lemma MemberStart(style: W.Style, target: W.Target, d: nat, m: Member, k: nat)
    ensures MemberText(style, target, d, m, k) != [] && MemberText(style, target, d, m, k)[0] == QUOTE
  {
  }

  lemma ElementsText(style: W.Style, target: W.Target, d: nat, vs: seq<Value>, k: nat)
    requires vs != []
    ensures W.PrintElements(style, target, d, vs, k)
         == W.PlaceText(style, d, W.Level(k, true)) + W.Print(style, target, d, vs[0])
            + W.PrintElements(style, target, d, vs[1..], k + 1)
  {
    hide W.PlaceText, W.Print;
  }

  lemma MembersText(style: W.Style, target: W.Target, d: nat, ms: seq<Member>, k: nat)
    requires ms != []
    ensures W.PrintMembers(style, target, d, ms, k)
         == W.PlaceText(style, d, W.Level(2 * k, false)) + MemberText(style, target, d, ms[0], k)
            + W.PrintMembers(style, target, d, ms[1..], k + 1)
  {
    hide W.PlaceText, W.Quoted, W.Print;
    Reassociate(W.PlaceText(style, d, W.Level(2 * k, false)), W.Quoted(target, ms[0].name),
                W.PlaceText(style, d, W.Level(2 * k + 1, false)), W.Print(style, target, d, ms[0].value));
  }

  lemma Reassociate(a: bytes, b: bytes, c: bytes, d: bytes)
    ensures a + b + c + d == a + (b + c + d)
  {
  }

  /** Where the parts of a container stand. */
  lemma ContainerSplit(open: byte, body: bytes, gap: bytes, close: byte, s: bytes, i: nat)
    requires Stands(s, i, [open] + body + gap + [close])
    ensures At(s, i) == open && Stands(s, i + 1, body) && Stands(s, i + 1 + |body|, gap + [close])
  {
    Reassociate([open] + body, [], gap, [close]);
    assert [open] + body + [] == [open] + body && [] + gap == gap;
    StandsSplit(s, i, [open] + body, gap + [close]);
    StandsSplit(s, i, [open], body);
    StandsAt(s, i, [open], 0);
  }

  lemma StandsInside(s: bytes, i: nat, t: bytes)
    requires Stands(s, i, t)
    ensures i + |t| <= |s|
  {
  }

  lemma AfterComma(s: bytes, i: nat, text: bytes)
    requires Stands(s, i, text) && text != [] && text[0] == COMMA
    ensures Ends(At(s, i))
  {
    StandsAt(s, i, text, 0);
  }

  /** The byte after a value: the comma of the next one, or what closes the container. */
  lemma AfterLast(s: bytes, i: nat, gap: bytes, close: byte)
    requires Stands(s, i, gap + [close]) && AllSpace(gap) && close in {RIGHT_BRACKET, RIGHT_BRACE}
    ensures Ends(At(s, i))
  {
    StandsAt(s, i, gap + [close], 0);
  }

  lemma LastByte(s: bytes, i: nat, close: byte)
    requires Stands(s, i, [] + [close])
    ensures i < |s| && At(s, i) == close
  {
    StandsAt(s, i, [] + [close], 0);
  }

  lemma EmptySkip(c: G.Config, s: bytes, i: nat, log: Log)
    requires i <= |s| && Solid(At(s, i))
    ensures G.Skip(c, s, i, log) == G.Ok(i, log)
  {
    SkipRead(c, s, i, [], log);
  }

  lemma ArrayStep(c: G.Config, s: bytes, i: nat, log: Log)
    requires Willing(c) && At(s, i) == LEFT_BRACKET
    ensures G.PArray(c, s, i, log) ==
      var r := G.Skip(c, s, i + 1, log + [StartArray]);
      if r.Err? then r
      else if At(s, r.pos) == RIGHT_BRACKET then G.Ok(r.pos + 1, r.log + [EndArray(0)])
      else G.PElements(c, s, r.pos, 0, r.log)
  {
    hide G.Skip, G.PElements;
  }

  lemma ObjectStep(c: G.Config, s: bytes, i: nat, log: Log)
    requires Willing(c) && At(s, i) == LEFT_BRACE
    ensures G.PObject(c, s, i, log) ==
      var r := G.Skip(c, s, i + 1, log + [StartObject]);
      if r.Err? then r
      else if At(s, r.pos) == RIGHT_BRACE then G.Ok(r.pos + 1, r.log + [EndObject(0)])
      else G.PMembers(c, s, r.pos, 0, r.log)
  {
    hide G.Skip, G.PMembers;
  }

  /** The parts of a printed Array, and what its events add up to. */
  lemma ArrayReadParts(style: W.Style, target: W.Target, depth: nat, vs: seq<Value>, s: bytes, i: nat, log: Log)
    requires White(style) && Stands(s, i, W.Print(style, target, depth, ArrayValue(vs)))
    ensures var gap := W.CloseText(style, depth, W.Level(|vs|, true));
      var body := W.PrintElements(style, target, depth + 1, vs, 0);
      && At(s, i) == LEFT_BRACKET && Stands(s, i + 1, body) && Stands(s, i + 1 + |body|, gap + [RIGHT_BRACKET])
      && AllSpace(gap) && |W.Print(style, target, depth, ArrayValue(vs))| == 1 + |body| + |gap| + 1
    ensures log + Events(ArrayValue(vs), FromText)
         == log + [StartArray] + ElementEvents(vs, FromText) + [EndArray(|vs|)]
  {
    hide ElementEvents, W.PrintElements, W.CloseText;
    var gap, body := W.CloseText(style, depth, W.Level(|vs|, true)), W.PrintElements(style, target, depth + 1, vs, 0);
    CloseShape(style, depth, W.Level(|vs|, true));
    hide Stands, AllSpace;
    ContainerSplit(LEFT_BRACKET, body, gap, RIGHT_BRACKET, s, i);
  }

  lemma {:induction false} ArrayRead(
    style: W.Style, target: W.Target, depth: nat, vs: seq<Value>, c: G.Config, s: bytes, i: nat, log: Log)
    requires White(style) && Exact(target, ArrayValue(vs)) && Willing(c)
    requires Stands(s, i, W.Print(style, target, depth, ArrayValue(vs)))
    ensures At(s, i) == LEFT_BRACKET
    ensures G.PArray(c, s, i, log)
         == G.Ok(i + |W.Print(style, target, depth, ArrayValue(vs))|, log + Events(ArrayValue(vs), FromText))
    decreases vs, 2
  {
    hide Stands, AllSpace, Willing, G.Emit, Events, ElementEvents, Exact, G.PArray, W.Print, G.Skip, G.PElements,
      W.PlaceText, W.CloseText, Gap, W.PrintElements, Mark, White;
    var d, gap := depth + 1, W.CloseText(style, depth, W.Level(|vs|, true));
    var log1 := log + [StartArray];
    ArrayReadParts(style, target, depth, vs, s, i, log);
    ArrayStep(c, s, i, log);
    ExactParts(target, ArrayValue(vs));
    if vs == [] {
      EmptyText(style, target, depth);
      LastByte(s, i + 1, RIGHT_BRACKET);
      EmptySkip(c, s, i + 1, log1);
    } else {
      NoDoubleIn(target, vs);
      var i1, i2 := ElementsSplit(style, target, d, vs, 0, s, i + 1);
      NoMark(style, d, true);
      SkipRead(c, s, i + 1, Gap(style, d, W.Level(0, true)), log1);
      ElementsRead(style, target, d, vs, 0, gap, c, s, i1, i2, log1);
    }
  }

  lemma EmptyText(style: W.Style, target: W.Target, depth: nat)
    ensures forall inArray :: W.CloseText(style, depth, W.Level(0, inArray)) == []
    ensures forall d, k :: W.PrintElements(style, target, d, [], k) == []
    ensures forall d, k :: W.PrintMembers(style, target, d, [], k) == []
    ensures ElementEvents([], FromText) == [] && MemberEvents([], FromText) == []
  {
  }

  lemma NotDouble(target: W.Target, v: Value)
    requires Exact(target, v)
    ensures !v.DoubleValue?
  {
  }

  lemma NoDoubleIn(target: W.Target, vs: seq<Value>)
    requires forall x :: 0 <= x < |vs| ==> Exact(target, vs[x])
    ensures forall x :: 0 <= x < |vs| ==> !vs[x].DoubleValue?
  {
    forall x | 0 <= x < |vs| ensures !vs[x].DoubleValue? { NotDouble(target, vs[x]); }
  }

  lemma ExactParts(target: W.Target, v: Value)
    requires Exact(target, v)
    ensures v.ArrayValue? ==> forall x :: 0 <= x < |v.elements| ==> Exact(target, v.elements[x])
    ensures v.ObjectValue? ==>
      forall x :: 0 <= x < |v.members| ==> W.Writable(target, v.members[x].name) && Exact(target, v.members[x].value)
  {
  }

  lemma CommaMark(level: W.Level)
    requires level.valueCount > 0 && (level.inArray || level.valueCount % 2 == 0)
    ensures Mark(level) == [COMMA]
  {
  }

  lemma NoMark(style: W.Style, d: nat, inArray: bool)
    ensures Mark(W.Level(0, inArray)) + Gap(style, d, W.Level(0, inArray)) == Gap(style, d, W.Level(0, inArray))
  {
  }

  /** A round of the loop of ParseArray whose value ends at `j`. */
  lemma ElementsStep(c: G.Config, s: bytes, i: nat, k: nat, log: Log, j: nat, log1: Log)
    requires i <= |s| && G.PValue(c, s, i, log) == G.Ok(j, log1)
    ensures G.PElements(c, s, i, k, log) ==
      match G.PSeparator(c, s, j, RIGHT_BRACKET, EndArray(k + 1), log1)
      case Done(outcome) => outcome
      case More(next, log') => G.PElements(c, s, next, k + 1, log')
  {
    hide G.PValue, G.PSeparator;
  }

  lemma MembersStep(c: G.Config, s: bytes, i: nat, k: nat, log: Log, i0: nat, log0: Log, j: nat, log1: Log)
    requires i <= |s| && G.PName(c, s, i, log) == G.Ok(i0, log0) && G.PValue(c, s, i0, log0) == G.Ok(j, log1)
    ensures G.PMembers(c, s, i, k, log) ==
      match G.PSeparator(c, s, j, RIGHT_BRACE, EndObject(k + 1), log1)
      case Done(outcome) => outcome
      case More(next, log') => G.PMembers(c, s, next, k + 1, log')
  {
    hide G.PName, G.PValue, G.PSeparator;
  }

  lemma ElementEventsOf(vs: seq<Value>, log: Log)
    requires vs != []
    ensures log + ElementEvents(vs, FromText) == log + Events(vs[0], FromText) + ElementEvents(vs[1..], FromText)
  {
    hide Events;
  }

  lemma MemberEventsOf(ms: seq<Member>, log: Log)
    requires ms != []
    ensures log + MemberEvents(ms, FromText)
         == log + [Key(ms[0].name)] + Events(ms[0].value, FromText) + MemberEvents(ms[1..], FromText)
  {
    hide Events;
  }

  /** The byte after a printed element ends it. */
  lemma ElementsReadEnds(style: W.Style, target: W.Target, d: nat, vs: seq<Value>, k: nat, gap: bytes, s: bytes, j: nat)
    requires White(style) && AllSpace(gap) && (vs != [] ==> !vs[0].DoubleValue?) && k > 0
    requires var more := W.PrintElements(style, target, d, vs, k);
      Stands(s, j, more) && Stands(s, j + |more|, gap + [RIGHT_BRACKET])
    ensures Ends(At(s, j))
  {
    hide Stands, AllSpace, White, W.Print, W.PrintElements, W.PlaceText, Gap, Mark;
    if vs == [] {
      EmptyText(style, target, d);
      AfterLast(s, j, gap, RIGHT_BRACKET);
    } else {
      var _, _ := ElementsSplit(style, target, d, vs, k, s, j);
      CommaMark(W.Level(k, true));
      AfterComma(s, j, Mark(W.Level(k, true)) + Gap(style, d, W.Level(k, true)));
    }
  }

  /** The last round of the loop. */
  lemma ElementsReadLast(c: G.Config, k: nat, gap: bytes, s: bytes, i: nat, log: Log, j: nat, log1: Log)
    requires i <= |s| && Willing(c) && AllSpace(gap) && Stands(s, j, gap + [RIGHT_BRACKET])
    requires G.PValue(c, s, i, log) == G.Ok(j, log1)
    ensures G.PElements(c, s, i, k, log) == G.Ok(j + |gap| + 1, log1 + [EndArray(k + 1)])
  {
    hide Stands, AllSpace, G.PName, G.PValue, G.PSeparator, G.PElements, Willing, G.Emit;
    ElementsStep(c, s, i, k, log, j, log1);
    SeparatorDone(c, s, j, RIGHT_BRACKET, EndArray(k + 1), log1, gap);
    Willingly(c, j + |gap| + 1, log1, EndArray(k + 1));
  }

  /** A round of the loop that another one follows. */
  lemma ElementsReadMore(
    style: W.Style, target: W.Target, d: nat, vs: seq<Value>, k: nat, c: G.Config, s: bytes, i: nat, log: Log, j: nat,
    log1: Log) returns (i1: nat, i2: nat)
    requires i <= |s| && White(style) && vs != [] && !vs[0].DoubleValue? && k > 0
    requires Stands(s, j, W.PrintElements(style, target, d, vs, k))
    requires G.PValue(c, s, i, log) == G.Ok(j, log1)
    ensures i < i1 <= |s| && G.PElements(c, s, i, k - 1, log) == G.PElements(c, s, i1, k, log1)
    ensures Stands(s, i1, W.Print(style, target, d, vs[0])) && i2 == i1 + |W.Print(style, target, d, vs[0])|
    ensures var more := W.PrintElements(style, target, d, vs[1..], k + 1);
      Stands(s, i2, more) && i2 + |more| == j + |W.PrintElements(style, target, d, vs, k)|
  {
    hide AllSpace, G.PName, G.PValue, G.PSeparator, G.PElements, W.Print, W.PlaceText, W.PrintElements, Gap, Mark,
      Stands, White;
    i1, i2 := ElementsSplit(style, target, d, vs, k, s, j);
    var level := W.Level(k, true);
    CommaMark(level);
    StandsInside(s, i1, W.Print(style, target, d, vs[0]));
    ElementsStep(c, s, i, k - 1, log, j, log1);
    SeparatorMore(c, s, j, RIGHT_BRACKET, EndArray(k), log1, Gap(style, d, level));
  }

  /** The loop of ParseArray from an element whose text stands from `i` to `j`. */
  lemma {:induction false} ElementsRead(
    style: W.Style, target: W.Target, d: nat, vs: seq<Value>, k: nat, gap: bytes, c: G.Config, s: bytes, i: nat, j: nat,
    log: Log)
    requires White(style) && Willing(c) && AllSpace(gap) && vs != []
    requires forall x :: 0 <= x < |vs| ==> Exact(target, vs[x])
    requires Stands(s, i, W.Print(style, target, d, vs[0])) && j == i + |W.Print(style, target, d, vs[0])|
    requires var more := W.PrintElements(style, target, d, vs[1..], k + 1);
      Stands(s, j, more) && Stands(s, j + |more|, gap + [RIGHT_BRACKET])
    ensures G.PElements(c, s, i, k, log)
         == G.Ok(j + |W.PrintElements(style, target, d, vs[1..], k + 1)| + |gap| + 1,
                 log + ElementEvents(vs, FromText) + [EndArray(k + |vs|)])
    decreases vs, 1
  {
    hide Stands, AllSpace, Willing, Exact, White, G.PValue, G.PElements, W.Print, W.PrintElements, Events,
      ElementEvents;
    StandsInside(s, i, W.Print(style, target, d, vs[0]));
    NoDoubleIn(target, vs);
    var log1 := log + Events(vs[0], FromText);
    ElementEventsOf(vs, log);
    ElementsReadEnds(style, target, d, vs[1..], k + 1, gap, s, j);
    ValueRead(style, target, d, vs[0], c, s, i, log);
    if |vs| == 1 {
      EmptyText(style, target, d);
      ElementsReadLast(c, k, gap, s, i, log, j, log1);
    } else {
      var i1, i2 := ElementsReadMore(style, target, d, vs[1..], k + 1, c, s, i, log, j, log1);
      ElementsRead(style, target, d, vs[1..], k + 1, gap, c, s, i1, i2, log1);
    }
  }

  /** The parts of a printed Object, and what its events add up to. */
  lemma ObjectReadParts(style: W.Style, target: W.Target, depth: nat, ms: seq<Member>, s: bytes, i: nat, log: Log)
    requires White(style) && Stands(s, i, W.Print(style, target, depth, ObjectValue(ms)))
    ensures var gap := W.CloseText(style, depth, W.Level(2 * |ms|, false));
      var body := W.PrintMembers(style, target, depth + 1, ms, 0);
      && At(s, i) == LEFT_BRACE && Stands(s, i + 1, body) && Stands(s, i + 1 + |body|, gap + [RIGHT_BRACE])
      && AllSpace(gap) && |W.Print(style, target, depth, ObjectValue(ms))| == 1 + |body| + |gap| + 1
    ensures log + Events(ObjectValue(ms), FromText)
         == log + [StartObject] + MemberEvents(ms, FromText) + [EndObject(|ms|)]
  {
    hide MemberEvents, W.PrintMembers, W.CloseText;
    var gap := W.CloseText(style, depth, W.Level(2 * |ms|, false));
    var body := W.PrintMembers(style, target, depth + 1, ms, 0);
    CloseShape(style, depth, W.Level(2 * |ms|, false));
    hide Stands, AllSpace;
    ContainerSplit(LEFT_BRACE, body, gap, RIGHT_BRACE, s, i);
  }

  lemma {:induction false} ObjectRead(
    style: W.Style, target: W.Target, depth: nat, ms: seq<Member>, c: G.Config, s: bytes, i: nat, log: Log)
    requires White(style) && Exact(target, ObjectValue(ms)) && Willing(c)
    requires Stands(s, i, W.Print(style, target, depth, ObjectValue(ms)))
    ensures At(s, i) == LEFT_BRACE
    ensures G.PObject(c, s, i, log)
         == G.Ok(i + |W.Print(style, target, depth, ObjectValue(ms))|, log + Events(ObjectValue(ms), FromText))
    decreases ms, 2
  {
    hide Stands, AllSpace, Willing, G.Emit, Events, MemberEvents, Exact, G.PObject, W.Print, G.Skip, G.PMembers,
      W.PlaceText, W.CloseText, Gap, W.PrintMembers, Mark, MemberText;
    var d, gap := depth + 1, W.CloseText(style, depth, W.Level(2 * |ms|, false));
    var log1 := log + [StartObject];
    ObjectReadParts(style, target, depth, ms, s, i, log);
    ObjectStep(c, s, i, log);
    ExactParts(target, ObjectValue(ms));
    if ms == [] {
      EmptyText(style, target, depth);
      LastByte(s, i + 1, RIGHT_BRACE);
      EmptySkip(c, s, i + 1, log1);
    } else {
      var i1, i2 := MembersSplit(style, target, d, ms, 0, s, i + 1);
      NoMark(style, d, false);
      SkipRead(c, s, i + 1, Gap(style, d, W.Level(0, false)), log1);
      MembersRead(style, target, d, ms, 0, gap, c, s, i1, i2, log1);
    }
  }

  /** A member's name and colon; its value stands at the position returned. */
  lemma NameRead(
    style: W.Style, target: W.Target, d: nat, m: Member, k: nat, c: G.Config, s: bytes, i: nat, log: Log)
    returns (i1: nat)
    requires White(style) && Willing(c) && W.Writable(target, m.name) && !m.value.DoubleValue?
    requires Stands(s, i, MemberText(style, target, d, m, k))
    ensures i1 + |W.Print(style, target, d, m.value)| == i + |MemberText(style, target, d, m, k)|
    ensures Stands(s, i1, W.Print(style, target, d, m.value))
    ensures G.PName(c, s, i, log) == G.Ok(i1, log + [Key(m.name)])
  {
    hide Stands, AllSpace, Willing, White, G.Emit, W.Print, W.Quoted, W.PlaceText, MemberText, Gap, Mark, G.PString,
      G.Skip,
      W.Writable;
    i1 := NameSplit(style, target, d, m, k, s, i);
    var name, gap := W.Quoted(target, m.name), Gap(style, d, W.Level(2 * k + 1, false));
    ColonRead(c, s, i + |name|, gap, log + [Key(m.name)]);
    StringRead(target, m.name, c, s, i, log, true);
    Willingly(c, i + |name|, log, Key(m.name));
  }

  /** Where the parts of a member stand. */
  lemma NameSplit(style: W.Style, target: W.Target, d: nat, m: Member, k: nat, s: bytes, i: nat) returns (i1: nat)
    requires White(style) && !m.value.DoubleValue? && Stands(s, i, MemberText(style, target, d, m, k))
    ensures var level := W.Level(2 * k + 1, false); var j := i + |W.Quoted(target, m.name)|;
      && |Mark(level)| <= |W.PlaceText(style, d, level)|
      && Stands(s, i, W.Quoted(target, m.name)) && Stands(s, j, [COLON])
      && Stands(s, j + 1, Gap(style, d, level)) && AllSpace(Gap(style, d, level))
      && i1 == j + 1 + |Gap(style, d, level)|
    ensures Stands(s, i1, W.Print(style, target, d, m.value)) && Solid(At(s, i1))
    ensures i1 + |W.Print(style, target, d, m.value)| == i + |MemberText(style, target, d, m, k)|
  {
    hide Stands, AllSpace, White, W.Print, W.Quoted, W.PlaceText, MemberText, Gap, Mark;
    var name, level, text := W.Quoted(target, m.name), W.Level(2 * k + 1, false), W.Print(style, target, d, m.value);
    PlaceShape(style, d, level);
    FirstByte(style, target, d, m.value);
    var gap := Gap(style, d, level);
    var place := [COLON] + gap;
    ColonMark(level);
    MemberTextOf(style, target, d, m, k);
    StandsSplit(s, i, name + place, text);
    StandsSplit(s, i, name, place);
    var j := i + |name|;
    StandsSplit(s, j, [COLON], gap);
    i1 := j + 1 + |gap|;
    StandsAt(s, i1, text, 0);
  }

  lemma ColonMark(level: W.Level)
    requires !level.inArray && level.valueCount % 2 == 1
    ensures Mark(level) == [COLON]
  {
  }

  lemma MemberTextOf(style: W.Style, target: W.Target, d: nat, m: Member, k: nat)
    ensures MemberText(style, target, d, m, k)
         == W.Quoted(target, m.name) + W.PlaceText(style, d, W.Level(2 * k + 1, false))
            + W.Print(style, target, d, m.value)
  {
    hide W.Quoted, W.PlaceText, W.Print;
  }

  lemma ColonRead(c: G.Config, s: bytes, j: nat, gap: bytes, log: Log)
    requires Stands(s, j, [COLON]) && Stands(s, j + 1, gap) && AllSpace(gap) && Solid(At(s, j + 1 + |gap|))
    ensures At(s, j) == COLON && G.Skip(c, s, j, log) == G.Ok(j, log)
    ensures G.Skip(c, s, j + 1, log) == G.Ok(j + 1 + |gap|, log)
  {
    StandsAt(s, j, [COLON], 0);
    SkipRead(c, s, j, [], log);
    SkipRead(c, s, j + 1, gap, log);
  }

  /** The byte after a printed member ends it. */
  lemma MembersReadEnds(style: W.Style, target: W.Target, d: nat, ms: seq<Member>, k: nat, gap: bytes, s: bytes, j: nat)
    requires White(style) && AllSpace(gap) && k > 0
    requires var more := W.PrintMembers(style, target, d, ms, k);
      Stands(s, j, more) && Stands(s, j + |more|, gap + [RIGHT_BRACE])
    ensures Ends(At(s, j))
  {
    hide Stands, AllSpace, White, W.Print, W.PrintMembers, W.PlaceText, Gap, Mark;
    if ms == [] {
      EmptyText(style, target, d);
      AfterLast(s, j, gap, RIGHT_BRACE);
    } else {
      var _, _ := MembersSplit(style, target, d, ms, k, s, j);
      CommaMark(W.Level(2 * k, false));
      AfterComma(s, j, Mark(W.Level(2 * k, false)) + Gap(style, d, W.Level(2 * k, false)));
    }
  }

  /** The last round of the loop. */
  lemma MembersReadLast(
    c: G.Config, k: nat, gap: bytes, s: bytes, i: nat, log: Log, i0: nat, log0: Log, j: nat, log1: Log)
    requires i <= |s| && Willing(c) && AllSpace(gap) && Stands(s, j, gap + [RIGHT_BRACE])
    requires G.PName(c, s, i, log) == G.Ok(i0, log0) && G.PValue(c, s, i0, log0) == G.Ok(j, log1)
    ensures G.PMembers(c, s, i, k, log) == G.Ok(j + |gap| + 1, log1 + [EndObject(k + 1)])
  {
    hide Stands, AllSpace, G.PName, G.PValue, G.PSeparator, G.PMembers, Willing, G.Emit;
    MembersStep(c, s, i, k, log, i0, log0, j, log1);
    SeparatorDone(c, s, j, RIGHT_BRACE, EndObject(k + 1), log1, gap);
    Willingly(c, j + |gap| + 1, log1, EndObject(k + 1));
  }

  /** A round of the loop that another one follows. */
  lemma MembersReadMore(
    style: W.Style, target: W.Target, d: nat, ms: seq<Member>, k: nat, c: G.Config, s: bytes, i: nat, log: Log, i0: nat,
    log0: Log, j: nat, log1: Log) returns (i1: nat, i2: nat)
    requires i <= |s| && White(style) && ms != [] && k > 0 && Stands(s, j, W.PrintMembers(style, target, d, ms, k))
    requires G.PName(c, s, i, log) == G.Ok(i0, log0) && G.PValue(c, s, i0, log0) == G.Ok(j, log1)
    ensures i < i1 <= |s| && G.PMembers(c, s, i, k - 1, log) == G.PMembers(c, s, i1, k, log1)
    ensures Stands(s, i1, MemberText(style, target, d, ms[0], k)) && i2 == i1 + |MemberText(style, target, d, ms[0], k)|
    ensures var more := W.PrintMembers(style, target, d, ms[1..], k + 1);
      Stands(s, i2, more) && i2 + |more| == j + |W.PrintMembers(style, target, d, ms, k)|
  {
    hide AllSpace, G.PName, G.PValue, G.PSeparator, G.PMembers, W.Print, W.PlaceText, W.PrintMembers, Gap, Mark,
      Stands, White, MemberText;
    i1, i2 := MembersSplit(style, target, d, ms, k, s, j);
    var level := W.Level(2 * k, false);
    CommaMark(level);
    StandsInside(s, i1, MemberText(style, target, d, ms[0], k));
    MembersStep(c, s, i, k - 1, log, i0, log0, j, log1);
    SeparatorMore(c, s, j, RIGHT_BRACE, EndObject(k), log1, Gap(style, d, level));
  }

  /** The loop of ParseObject from a member whose text stands from `i` to `j`. */
  lemma {:induction false} MembersRead(
    style: W.Style, target: W.Target, d: nat, ms: seq<Member>, k: nat, gap: bytes, c: G.Config, s: bytes, i: nat,
    j: nat, log: Log)
    requires White(style) && Willing(c) && AllSpace(gap) && ms != []
    requires forall x :: 0 <= x < |ms| ==> W.Writable(target, ms[x].name) && Exact(target, ms[x].value)
    requires Stands(s, i, MemberText(style, target, d, ms[0], k)) && j == i + |MemberText(style, target, d, ms[0], k)|
    requires var more := W.PrintMembers(style, target, d, ms[1..], k + 1);
      Stands(s, j, more) && Stands(s, j + |more|, gap + [RIGHT_BRACE])
    ensures G.PMembers(c, s, i, k, log)
         == G.Ok(j + |W.PrintMembers(style, target, d, ms[1..], k + 1)| + |gap| + 1,
                 log + MemberEvents(ms, FromText) + [EndObject(k + |ms|)])
    decreases ms, 1
  {
    hide Stands, AllSpace, Willing, Exact, White, G.PName, G.PValue, G.PMembers, MemberText, W.Print, W.PrintMembers,
      Events, MemberEvents;
    StandsInside(s, i, MemberText(style, target, d, ms[0], k));
    NotDouble(target, ms[0].value);
    var log0 := log + [Key(ms[0].name)];
    var log1 := log0 + Events(ms[0].value, FromText);
    MemberEventsOf(ms, log);
    MembersReadEnds(style, target, d, ms[1..], k + 1, gap, s, j);
    var i0 := NameRead(style, target, d, ms[0], k, c, s, i, log);
    ValueRead(style, target, d, ms[0].value, c, s, i0, log0);
    if |ms| == 1 {
      EmptyText(style, target, d);
      MembersReadLast(c, k, gap, s, i, log, i0, log0, j, log1);
    } else {
      var i1, i2 := MembersReadMore(style, target, d, ms[1..], k + 1, c, s, i, log, i0, log0, j, log1);
      MembersRead(style, target, d, ms[1..], k + 1, gap, c, s, i1, i2, log1);
    }
  }

  // ---------- Documents ----------

  lemma {:induction false} ExactWritable(target: W.Target, v: Value)
    requires Exact(target, v)
    ensures W.NoDoubles(v) && W.AllWritable(target, v)
    decreases v
  {
    match v {
      case ArrayValue(vs) =>
        forall k | 0 <= k < |vs| ensures W.NoDoubles(vs[k]) && W.AllWritable(target, vs[k]) {
          ExactWritable(target, vs[k]);
        }
      case ObjectValue(ms) =>
        forall k | 0 <= k < |ms| ensures W.NoDoubles(ms[k].value) && W.AllWritable(target, ms[k].value) {
          ExactWritable(target, ms[k].value);
        }
      case _ =>
    }
  }

  /** The printed text of a tree is a document with exactly the tree's events, for every combination of parse flags. */
  lemma DocumentRead(style: W.Style, target: W.Target, v: Value, c: G.Config)
    requires White(style) && Exact(target, v) && Willing(c)
    ensures var text := W.Print(style, target, 0, v);
      G.PDocument(c, text) == G.Ok(|text|, Events(v, FromText))
  {
    hide G.PValue, G.Skip, W.Print, Events, White, Exact, Willing;
    var text := W.Print(style, target, 0, v);
    NotDouble(target, v);
    FirstByte(style, target, 0, v);
    assert text[0..0 + |text|] == text;
    EmptySkip(c, text, 0, []);
    ValueRead(style, target, 0, v, c, text, 0, []);
    EmptySkip(c, text, |text|, Events(v, FromText));
    assert [] + Events(v, FromText) == Events(v, FromText);
  }

  /**
   Writing a tree and reading the text back: the writer accepts the events of Accept and ends complete; both
   parsers accept what it wrote, whatever the flags; and the document handler, fed their events, holds the tree.
   */
  lemma WriteThenRead(style: W.Style, target: W.Target, v: Value, c: G.Config)
    requires White(style) && Exact(target, v) && Willing(c)
    ensures var written := W.Run(style, target, W.State([], [], false), Events(v, FromTree));
      && written.Done? && written.state.hasRoot && written.state.levels == []
      && var text := written.state.os;
      && G.PDocument(c, text) == P.IterativeParse(c, text) == G.Ok(|text|, Events(v, FromText))
      && DocumentRun([], Events(v, FromText)) == Some([v])
  {
    hide W.Print, Events, W.Step, G.PDocument, P.IterativeParse;
    ExactWritable(target, v);
    W.WriterPrints(style, target, W.State([], [], false), v, FromTree);
    assert [] + W.Print(style, target, 0, v) == W.Print(style, target, 0, v);
    DocumentRead(style, target, v, c);
    P.IterativeIsRecursive(c, W.Print(style, target, 0, v));
    DocumentRebuilds([], v, FromText);
    assert [] + [v] == [v];
  }

  lemma AsciiLayout(style: W.Style, depth: nat, level: W.Level)
    requires White(style)
    ensures AllAscii(W.PlaceText(style, depth, level)) && AllAscii(W.CloseText(style, depth, level))
  {
    PlaceShape(style, depth, level);
    CloseShape(style, depth, level);
  }

  lemma AsciiQuoted(text: bytes)
    ensures AllAscii(W.Quoted(W.Ascii, text))
  {
    AsciiOnly(text, 0);
  }

  lemma AsciiBracket(open: byte, body: bytes, gap: bytes, close: byte)
    requires open < 0x80 && close < 0x80 && AllAscii(body) && AllAscii(gap)
    ensures AllAscii([open] + body + gap + [close])
  {
  }

  lemma {:induction false} AsciiText(style: W.Style, depth: nat, v: Value)
    requires White(style) && W.NoDoubles(v)
    ensures AllAscii(W.Print(style, W.Ascii, depth, v))
    decreases v, 1
  {
    hide White, W.Quoted, W.PrintElements, W.PrintMembers, W.CloseText;
    match v {
      case NumberValue(n) => AsciiDigits(if n < 0 then -n else n);
      case StringValue(text) => AsciiQuoted(text);
      case ArrayValue(vs) =>
        var gap := W.CloseText(style, depth, W.Level(|vs|, true));
        AsciiElements(style, depth + 1, vs, 0);
        AsciiLayout(style, depth, W.Level(|vs|, true));
        AsciiBracket(0x5B, W.PrintElements(style, W.Ascii, depth + 1, vs, 0), gap, 0x5D);
      case ObjectValue(ms) =>
        var gap := W.CloseText(style, depth, W.Level(2 * |ms|, false));
        AsciiMembers(style, depth + 1, ms, 0);
        AsciiLayout(style, depth, W.Level(2 * |ms|, false));
        AsciiBracket(0x7B, W.PrintMembers(style, W.Ascii, depth + 1, ms, 0), gap, 0x7D);
      case _ =>
    }
  }

  lemma {:induction false} AsciiDigits(n: nat)
    ensures AllAscii(W.Digits(n))
  {
    if n >= 10 { AsciiDigits(n / 10); }
  }

  lemma {:induction false} AsciiElements(style: W.Style, d: nat, vs: seq<Value>, k: nat)
    requires White(style) && forall x :: 0 <= x < |vs| ==> W.NoDoubles(vs[x])
    ensures AllAscii(W.PrintElements(style, W.Ascii, d, vs, k))
    decreases vs, 0
  {
    hide White, AllAscii, W.PlaceText, W.Print, W.NoDoubles;
    if vs == [] {
      EmptyText(style, W.Ascii, d);
      AsciiEmpty();
    } else {
      var place, text := W.PlaceText(style, d, W.Level(k, true)), W.Print(style, W.Ascii, d, vs[0]);
      AsciiLayout(style, d, W.Level(k, true));
      AsciiText(style, d, vs[0]);
      AsciiElements(style, d, vs[1..], k + 1);
      AsciiConcat(place, text);
      AsciiConcat(place + text, W.PrintElements(style, W.Ascii, d, vs[1..], k + 1));
    }
  }

  lemma {:induction false} AsciiMembers(style: W.Style, d: nat, ms: seq<Member>, k: nat)
    requires White(style) && forall x :: 0 <= x < |ms| ==> W.NoDoubles(ms[x].value)
    ensures AllAscii(W.PrintMembers(style, W.Ascii, d, ms, k))
    decreases ms, 0
  {
    hide White, AllAscii, W.PlaceText, W.Print, W.Quoted, W.NoDoubles;
    if ms == [] {
      EmptyText(style, W.Ascii, d);
      AsciiEmpty();
    } else {
      var place, name := W.PlaceText(style, d, W.Level(2 * k, false)), W.Quoted(W.Ascii, ms[0].name);
      var colon, text := W.PlaceText(style, d, W.Level(2 * k + 1, false)), W.Print(style, W.Ascii, d, ms[0].value);
      AsciiLayout(style, d, W.Level(2 * k, false));
      AsciiLayout(style, d, W.Level(2 * k + 1, false));
      AsciiQuoted(ms[0].name);
      AsciiText(style, d, ms[0].value);
      AsciiMembers(style, d, ms[1..], k + 1);
      AsciiConcat(place, name);
      AsciiConcat(place + name, colon);
      AsciiConcat(place + name + colon, text);
      AsciiConcat(place + name + colon + text, W.PrintMembers(style, W.Ascii, d, ms[1..], k + 1));
    }
  }
  /** With the ASCII target every byte of a document is ASCII, also of one that is broken off at a refused string. */
  lemma AsciiDocument(style: W.Style, v: Value, o: Origin)
    requires White(style) && W.NoDoubles(v)
    ensures var w := W.Run(style, W.Ascii, W.State([], [], false), Events(v, o));
      && !w.Misused? && (w.Done? <==> W.AllWritable(W.Ascii, v))
      && AllAscii(if w.Done? then w.state.os else w.os)
  {
    hide W.Print, W.Run, Events, W.NoDoubles, W.AllWritable;
    W.WriterPrints(style, W.Ascii, W.State([], [], false), v, o);
    AsciiText(style, 0, v);
    assert [] + W.Print(style, W.Ascii, 0, v) == W.Print(style, W.Ascii, 0, v);
  }
}
