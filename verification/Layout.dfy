/**
 What the writers put where, said without their layout functions: the compact text has no white space between tokens,
 and the pretty text is the compact one with line breaks and spaces put in character by character, by what stands in
 front and how many brackets are open.
 */
module Layout {
  import opened Bytes
  import opened Characters
  import opened Dom
  import opened Writer
  import J = JsonText
  import Unicode

  // ---------- The characters of strings ----------

  /**
   What the writer makes of a byte below 0x80, or of any with the UTF8 target: its two-character escape if it has one,
   the slash apart; `\u00` and two upper-case digits for any other control character; else the byte itself.
   */
  ghost predicate IsWritten(c: byte, text: bytes) {
    if exists e: byte :: (e, c) in J.ESCAPES && e != 0x2F then
      exists e: byte :: (e, c) in J.ESCAPES && e != 0x2F && text == [0x5C, e]
    else if c < 0x20 then text == [0x5C, 0x75, 0x30, 0x30, J.UPPER_DIGITS[c / 16], J.UPPER_DIGITS[c % 16]]
    else text == [c]
  }

  lemma UpperDigit(v: nat)
    requires v < 16
    ensures HexDigit(v) == J.UPPER_DIGITS[v] && HexDigit(v) in J.UPPER_DIGITS
  {
  }

  const SHORT: set<(byte, byte)> :=
    {(0x22, 0x22), (0x5C, 0x5C), (0x08, 0x62), (0x0C, 0x66), (0x0A, 0x6E), (0x0D, 0x72), (0x09, 0x74)}

  lemma HasEscape(c: byte, e: byte)
    ensures (e, c) in J.ESCAPES && e != 0x2F
       <==> (c, e) in SHORT
  {
    var es := J.ESCAPES;
    assert (e, c) in es <==> (e, c) in [es[0], es[1], es[2], es[3], es[4], es[5], es[6], es[7]];
  }

  /** Each byte that needs no decoding is written as the escapes of section 7 of RFC 7159 have it. */
  lemma ByteWritten(target: Target, text: bytes, i: nat) returns (piece: bytes)
    requires i < |text| && !NeedsUnicode(target, text[i])
    ensures IsWritten(text[i], piece) && StringText(target, text, i) == piece + StringText(target, text, i + 1)
  {
    hide J.ESCAPES, J.UPPER_DIGITS, HexDigit;
    var c := text[i];
    forall e: byte
      ensures (e, c) in J.ESCAPES && e != 0x2F <==> (c, e) in SHORT
    {
      HasEscape(c, e);
    }
    piece := if EscapeOf(c) != 0 then EscapeText(c) else [c];
    UpperDigit(c / 16 % 16);
    UpperDigit(c % 16);
  }

  lemma UnitWritten(unit: nat, before: bytes, after: bytes)
    requires unit <= 0xFFFF
    ensures J.IsUnit(before + (UNICODE_ESCAPE + HexText(unit)) + after, |before|, unit)
    ensures forall k :: 0 <= k < 4 ==> HexText(unit)[k] in J.UPPER_DIGITS
  {
    hide HexDigit, J.UPPER_DIGITS, J.LOWER_DIGITS;
    UpperDigit(unit / 4096);
    UpperDigit(unit / 256 % 16);
    UpperDigit(unit / 16 % 16);
    UpperDigit(unit % 16);
    var s, i := before + (UNICODE_ESCAPE + HexText(unit)) + after, |before| + 2;
    assert s[i..i + 4] == HexText(unit);
    assert HexText(unit)[0] in J.UPPER_DIGITS && HexText(unit)[1] in J.UPPER_DIGITS;
    assert HexText(unit)[2] in J.UPPER_DIGITS && HexText(unit)[3] in J.UPPER_DIGITS;
    assert s[i] == HexText(unit)[0] && s[i + 1] == HexText(unit)[1];
    assert s[i + 2] == HexText(unit)[2] && s[i + 3] == HexText(unit)[3];
    assert unit / 16 / 16 == unit / 256 && unit / 256 / 16 == unit / 4096 && unit / 4096 / 16 == 0;
    assert J.IsHex(s, i, 0, unit / 4096 / 16);
    assert J.IsHex(s, i, 1, unit / 4096);
    assert J.IsHex(s, i, 2, unit / 256);
    assert J.IsHex(s, i, 3, unit / 16);
  }

  /** A code point that the target cannot hold is written as one unit or as a surrogate pair, in upper-case digits. */
  lemma CodePointWritten(cp: nat)
    requires Unicode.Scalar(cp)
    ensures var text := CodePointText(cp);
      && (forall k :: 0 <= k < |text| ==> text[k] in {0x5C, 0x75} || text[k] in J.UPPER_DIGITS)
      && if cp <= 0xFFFF then |text| == 6 && J.IsUnit(text, 0, cp)
         else
           && |text| == 12
           && exists hi: nat, lo: nat ::
                J.IsLead(text, 0, hi) && J.IsTrail(text, 6, lo)
                && cp == 0x1_0000 + (hi - 0xD800) * 1024 + (lo - 0xDC00)
  {
    hide HexText, J.IsUnit, J.UPPER_DIGITS;
    if cp <= 0xFFFF {
      UnitWritten(cp, [], []);
      assert [] + (UNICODE_ESCAPE + HexText(cp)) + [] == CodePointText(cp);
    } else {
      var v := cp - 0x1_0000;
      var hi, lo := v / 0x400 + 0xD800, v % 0x400 + 0xDC00;
      var a, b := UNICODE_ESCAPE + HexText(hi), UNICODE_ESCAPE + HexText(lo);
      UnitWritten(hi, [], b);
      UnitWritten(lo, a, []);
      assert [] + a + b == CodePointText(cp) && a + b + [] == CodePointText(cp);
      assert J.IsLead(CodePointText(cp), 0, hi) && J.IsTrail(CodePointText(cp), 6, lo);
    }
  }

  // ---------- The compact text ----------

  /** Parts with a comma between any two. */
  function Listed(parts: seq<bytes>): bytes {
    if parts == [] then []
    else if |parts| == 1 then parts[0]
    else parts[0] + [0x2C] + Listed(parts[1..])
  }

  function CompactText(target: Target, v: Value): bytes
    decreases v
  {
    match v
    case NullValue => [0x6E, 0x75, 0x6C, 0x6C]
    case BoolValue(b) => if b then [0x74, 0x72, 0x75, 0x65] else [0x66, 0x61, 0x6C, 0x73, 0x65]
    case NumberValue(n) => Decimal(n)
    case DoubleValue(lexeme) => lexeme
    case StringValue(text) => [0x22] + StringText(target, text, 0) + [0x22]
    case ArrayValue(vs) =>
      [0x5B] + Listed(seq(|vs|, k requires 0 <= k < |vs| => CompactText(target, vs[k]))) + [0x5D]
    case ObjectValue(ms) =>
      [0x7B]
      + Listed(seq(|ms|, k requires 0 <= k < |ms| =>
          [0x22] + StringText(target, ms[k].name, 0) + [0x22, 0x3A] + CompactText(target, ms[k].value)))
      + [0x7D]
  }

  // ---------- The pretty text ----------

  /** Where a scan of a text stands: the brackets open, the last character, and whether it is inside a string. */
  datatype Scan = Scan(open: bytes, last: byte, quoted: bool, escaped: bool)

  const START: Scan := Scan([], 0, false, false)

  function Repeated(b: byte, n: nat): (r: bytes)
    ensures |r| == n && forall k :: 0 <= k < n ==> r[k] == b
  {
    if n == 0 then [] else [b] + Repeated(b, n - 1)
  }

  /** A new line inside so many brackets. */
  function Break(style: Style, depth: nat): bytes
    requires style.Pretty?
  {
    [0x0A] + Repeated(style.indentChar, style.indentCharCount * depth)
  }

  /** The innermost open bracket is that of an array that stays on its line. */
  predicate OneLine(style: Style, open: bytes)
    requires style.Pretty?
  {
    style.singleLineArrays && open != [] && open[|open| - 1] == 0x5B
  }

  /** What stands in front of a character outside strings. */
  function Gap(style: Style, sc: Scan, b: byte): bytes
    requires style.Pretty?
  {
    if b in {0x5D, 0x7D} then
      if sc.last in {0x5B, 0x7B} || OneLine(style, sc.open) || sc.open == [] then [] else Break(style, |sc.open| - 1)
    else if sc.last == 0x3A then [0x20]
    else if sc.last in {0x5B, 0x7B, 0x2C} then
      if !OneLine(style, sc.open) then Break(style, |sc.open|) else if sc.last == 0x2C then [0x20] else []
    else []
  }

  function After(sc: Scan, b: byte): Scan {
    if sc.escaped then sc.(last := b, escaped := false)
    else if sc.quoted then sc.(last := b, quoted := b != 0x22, escaped := b == 0x5C)
    else
      Scan(if b in {0x5B, 0x7B} then sc.open + [b]
           else if b in {0x5D, 0x7D} && sc.open != [] then sc.open[..|sc.open| - 1]
           else sc.open,
           b, b == 0x22, false)
  }

  /** The text with its line breaks and spaces. */
  function Laid(style: Style, sc: Scan, text: bytes): bytes
    requires style.Pretty?
    decreases |text|
  {
    if text == [] then []
    else
      (if sc.quoted then [] else Gap(style, sc, text[0])) + [text[0]] + Laid(style, After(sc, text[0]), text[1..])
  }

  function AfterAll(sc: Scan, text: bytes): Scan
    decreases |text|
  {
    if text == [] then sc else AfterAll(After(sc, text[0]), text[1..])
  }

  lemma {:induction false} ScanConcat(style: Style, sc: Scan, a: bytes, b: bytes)
    requires style.Pretty?
    ensures Laid(style, sc, a + b) == Laid(style, sc, a) + Laid(style, AfterAll(sc, a), b)
    ensures AfterAll(sc, a + b) == AfterAll(AfterAll(sc, a), b)
    decreases |a|
  {
    hide Gap, After;
    if a == [] {
      assert a + b == b;
    } else {
      assert (a + b)[0] == a[0] && (a + b)[1..] == a[1..] + b;
      ScanConcat(style, After(sc, a[0]), a[1..], b);
    }
  }

  lemma ScanOne(style: Style, sc: Scan, b: byte)
    requires style.Pretty? && !sc.quoted
    ensures Laid(style, sc, [b]) == Gap(style, sc, b) + [b] && AfterAll(sc, [b]) == After(sc, b)
  {
    hide Gap, After;
    assert [b][1..] == [];
  }

  // ---------- Tokens are laid as they are ----------

  /** Nothing in the text ends a string. */
  predicate Inner(text: bytes)
    decreases |text|
  {
    || text == []
    || (text[0] != 0x22 && text[0] != 0x5C && Inner(text[1..]))
    || (text[0] == 0x5C && |text| >= 2 && Inner(text[2..]))
  }

  lemma {:induction false} InnerConcat(a: bytes, b: bytes)
    requires Inner(a) && Inner(b)
    ensures Inner(a + b)
    decreases |a|
  {
    if a == [] {
      assert a + b == b;
    } else if a[0] == 0x5C {
      assert (a + b)[2..] == a[2..] + b;
      InnerConcat(a[2..], b);
    } else {
      assert (a + b)[1..] == a[1..] + b;
      InnerConcat(a[1..], b);
    }
  }

  lemma InnerUnit(unit: nat)
    requires unit <= 0xFFFF
    ensures Inner(UNICODE_ESCAPE + HexText(unit))
  {
    var h := HexText(unit);
    assert forall k :: 0 <= k < 4 ==> h[k] != 0x22 && h[k] != 0x5C;
    assert (UNICODE_ESCAPE + h)[2..] == h;
    assert h[1..][1..][1..][1..] == [];
    assert Inner(h[1..][1..][1..]) && Inner(h[1..][1..]) && Inner(h[1..]) && Inner(h);
  }

  lemma InnerEscape(c: byte)
    requires EscapeOf(c) != 0
    ensures Inner(EscapeText(c))
  {
    if EscapeOf(c) == 0x75 {
      assert EscapeText(c) == [BACKSLASH, 0x75, 0x30, 0x30, HexDigit(c / 16), HexDigit(c % 16)];
      var h := EscapeText(c)[2..];
      assert h[1..][1..][1..][1..] == [];
      assert Inner(h[1..][1..][1..]) && Inner(h[1..][1..]) && Inner(h[1..]) && Inner(h);
    } else {
      assert EscapeText(c) == [BACKSLASH, EscapeOf(c)];
    }
  }

  lemma {:induction false} InnerString(target: Target, text: bytes, i: nat)
    ensures Inner(StringText(target, text, i))
    decreases |text| - i
  {
    hide Inner, CodePointText, EscapeText, EscapeOf, Unicode.Decode;
    InnerBasics();
    if i < |text| {
      if NeedsUnicode(target, text[i]) {
        var d := Unicode.Decode(text, i);
        if d.ok {
          Unicode.DecodeIsRfc3629(text, i);
          InnerCodePoint(d.cp);
          InnerString(target, text, d.next);
          InnerConcat(CodePointText(d.cp), StringText(target, text, d.next));
        }
      } else if EscapeOf(text[i]) != 0 {
        InnerEscape(text[i]);
        InnerString(target, text, i + 1);
        InnerConcat(EscapeText(text[i]), StringText(target, text, i + 1));
      } else {
        InnerByte(text[i]);
        InnerString(target, text, i + 1);
        InnerConcat([text[i]], StringText(target, text, i + 1));
      }
    }
  }

  lemma InnerBasics()
    ensures Inner([])
  {
  }

  lemma InnerByte(c: byte)
    requires EscapeOf(c) == 0
    ensures Inner([c])
  {
    assert [c][1..] == [];
  }

  lemma InnerCodePoint(cp: nat)
    requires Unicode.Scalar(cp)
    ensures Inner(CodePointText(cp))
  {
    hide Inner, HexText;
    if cp <= 0xFFFF {
      InnerUnit(cp);
    } else {
      var v := cp - 0x1_0000;
      InnerUnit(v / 0x400 + 0xD800);
      InnerUnit(v % 0x400 + 0xDC00);
      InnerConcat(UNICODE_ESCAPE + HexText(v / 0x400 + 0xD800), UNICODE_ESCAPE + HexText(v % 0x400 + 0xDC00));
    }
  }

  lemma {:induction false} InnerLaid(style: Style, sc: Scan, text: bytes)
    requires style.Pretty? && sc.quoted && !sc.escaped && Inner(text)
    ensures Laid(style, sc, text) == text
    ensures var e := AfterAll(sc, text); e.open == sc.open && e.quoted && !e.escaped
    decreases |text|
  {
    if text != [] {
      var s1 := After(sc, text[0]);
      if text[0] == 0x5C {
        assert text[1..][1..] == text[2..];
        var s2 := After(s1, text[1]);
        InnerLaid(style, s2, text[2..]);
        assert text == [text[0]] + ([text[1]] + text[2..]);
      } else {
        InnerLaid(style, s1, text[1..]);
      }
    }
  }

  /** Between two tokens, or after the last: nothing calls for a gap. */
  predicate Resting(sc: Scan) { !sc.quoted && !sc.escaped && sc.last !in {0x5B, 0x7B, 0x2C, 0x3A} }

  /** What stands in front of whatever comes next, unless a bracket closes. */
  function Lead(style: Style, sc: Scan): bytes
    requires style.Pretty?
  {
    Gap(style, sc, 0)
  }

  /** The text of a value is laid like this one, and leaves a scan between tokens. */
  predicate Lays(style: Style, sc: Scan, compact: bytes, pretty: bytes)
    requires style.Pretty?
  {
    && Laid(style, sc, compact) == Lead(style, sc) + pretty
    && AfterAll(sc, compact).open == sc.open && Resting(AfterAll(sc, compact))
  }

  lemma QuotedLaid(style: Style, sc: Scan, target: Target, text: bytes)
    requires style.Pretty? && !sc.quoted && !sc.escaped
    ensures Lays(style, sc, Quoted(target, text), Quoted(target, text))
  {
    hide Laid, AfterAll, StringText, Inner, Break;
    var body := StringText(target, text, 0);
    var s1 := After(sc, 0x22);
    InnerString(target, text, 0);
    InnerLaid(style, s1, body);
    var s2 := AfterAll(s1, body);
    ScanOne(style, sc, 0x22);
    LastByte(style, s2);
    ScanConcat(style, sc, [0x22], body);
    ScanConcat(style, sc, [0x22] + body, [0x22]);
    Grouped(Lead(style, sc), [0x22], body, [0x22]);
  }

  lemma LastByte(style: Style, sc: Scan)
    requires style.Pretty? && sc.quoted && !sc.escaped
    ensures Laid(style, sc, [0x22]) == [0x22]
    ensures AfterAll(sc, [0x22]) == Scan(sc.open, 0x22, false, false)
  {
    assert [0x22 as byte][1..] == [];
  }

  lemma Grouped(a: bytes, b: bytes, c: bytes, d: bytes)
    ensures a + b + c + d == a + (b + c + d)
  {
  }

  predicate IsWord(text: bytes) {
    text != [] && forall k :: 0 <= k < |text| ==> text[k] !in {0x22, 0x5B, 0x5D, 0x7B, 0x7D, 0x2C, 0x3A}
  }

  lemma {:induction false} WordLaid(style: Style, sc: Scan, text: bytes)
    requires style.Pretty? && !sc.quoted && !sc.escaped && IsWord(text)
    ensures Lays(style, sc, text, text)
    decreases |text|
  {
    hide Break, Laid, AfterAll;
    ScanOne(style, sc, text[0]);
    if |text| > 1 {
      WordLaid(style, After(sc, text[0]), text[1..]);
      ScanConcat(style, sc, [text[0]], text[1..]);
      assert text == [text[0]] + text[1..];
    } else {
      assert text == [text[0]];
    }
  }

  lemma {:induction false} DigitsWord(n: nat)
    ensures IsWord(Digits(n))
  {
    if n >= 10 { DigitsWord(n / 10); }
  }

  lemma DecimalWord(n: int)
    ensures IsWord(Decimal(n))
  {
    hide Digits;
    DigitsWord(if n < 0 then -n else n);
  }

  // ---------- Values are laid as the pretty writer prints them ----------

  lemma IndentRepeats(style: Style, depth: nat)
    requires style.Pretty?
    ensures [NEWLINE] + Indent(style, depth) == Break(style, depth)
  {
    assert depth * style.indentCharCount == style.indentCharCount * depth;
    assert Indent(style, depth) == Repeated(style.indentChar, style.indentCharCount * depth);
  }

  /** The last character before a value or name: the opening bracket, or what follows the one before. */
  predicate Waits(sc: Scan, inArray: bool, n: nat) {
    && !sc.quoted && !sc.escaped
    && sc.open != [] && sc.open[|sc.open| - 1] == (if inArray then 0x5B else 0x7B)
    && (n == 0 ==> sc.last == if inArray then 0x5B else 0x7B)
    && (n > 0 ==> Resting(sc))
  }

  /** The separator of the compact text, and the gap after it, are the separator of the pretty text. */
  lemma PlaceLaid(style: Style, sc: Scan, depth: nat, n: nat, inArray: bool)
    requires style.Pretty? && Waits(sc, inArray, n)
    ensures var mark := PlaceText(Compact, depth, Level(n, inArray));
      var e := AfterAll(sc, mark);
      && Laid(style, sc, mark) + Lead(style, e) == PlaceText(style, |sc.open|, Level(n, inArray))
      && e.open == sc.open && !e.quoted && !e.escaped
  {
    hide Laid, AfterAll, Indent, Break;
    IndentRepeats(style, |sc.open|);
    if n == 0 {
      NothingLaid(style, sc);
    } else {
      ScanOne(style, sc, if inArray || n % 2 == 0 then COMMA else COLON);
    }
  }

  lemma NothingLaid(style: Style, sc: Scan)
    requires style.Pretty?
    ensures Laid(style, sc, []) == [] && AfterAll(sc, []) == sc
  {
  }

  /** A separator and what it separates. */
  lemma PlacedLaid(
    style: Style, sc: Scan, depth: nat, n: nat, inArray: bool, compact: bytes, pretty: bytes)
    requires style.Pretty? && Waits(sc, inArray, n)
    requires Lays(style, AfterAll(sc, PlaceText(Compact, depth, Level(n, inArray))), compact, pretty)
    ensures var text := PlaceText(Compact, depth, Level(n, inArray)) + compact;
      && Laid(style, sc, text) == PlaceText(style, |sc.open|, Level(n, inArray)) + pretty
      && Waits(AfterAll(sc, text), inArray, n + 1) && AfterAll(sc, text).open == sc.open
  {
    hide Laid, AfterAll, PlaceText, Lead;
    var mark := PlaceText(Compact, depth, Level(n, inArray));
    PlaceLaid(style, sc, depth, n, inArray);
    ScanConcat(style, sc, mark, compact);
    var e := AfterAll(sc, mark);
    assert Laid(style, sc, mark) + (Lead(style, e) + pretty) == Laid(style, sc, mark) + Lead(style, e) + pretty;
  }

  /** The text of a tree is the compact one with its gaps, at any depth. */
  lemma {:induction false} ValueLaid(style: Style, target: Target, sc: Scan, depth: nat, v: Value)
    requires style.Pretty? && !sc.quoted && !sc.escaped && NoDoubles(v)
    ensures Lays(style, sc, Print(Compact, target, depth, v), Print(style, target, |sc.open|, v))
    decreases v
  {
    hide Lays, Laid, AfterAll, Decimal, Quoted, PrintElements, PrintMembers, CloseText, IsWord;
    match v {
      case NullValue => WordsAre(); WordLaid(style, sc, NULL_TEXT);
      case BoolValue(b) => WordsAre(); WordLaid(style, sc, if b then TRUE_TEXT else FALSE_TEXT);
      case NumberValue(n) => DecimalWord(n); WordLaid(style, sc, Decimal(n));
      case StringValue(text) => QuotedLaid(style, sc, target, text);
      case ArrayValue(vs) =>
        ElementsLaid(style, target, After(sc, 0x5B), depth + 1, vs, 0);
        BracketsLaid(style, sc, true, |vs|, depth, PrintElements(Compact, target, depth + 1, vs, 0),
                     PrintElements(style, target, |sc.open| + 1, vs, 0));
      case ObjectValue(ms) =>
        MembersLaid(style, target, After(sc, 0x7B), depth + 1, ms, 0);
        BracketsLaid(style, sc, false, 2 * |ms|, depth, PrintMembers(Compact, target, depth + 1, ms, 0),
                     PrintMembers(style, target, |sc.open| + 1, ms, 0));
    }
  }

  lemma WordsAre()
    ensures IsWord(NULL_TEXT) && IsWord(TRUE_TEXT) && IsWord(FALSE_TEXT)
  {
  }

  /** What stands between the brackets is laid like this, after `n` values or names. */
  predicate LaysBody(style: Style, sc: Scan, inArray: bool, n: nat, compact: bytes, pretty: bytes)
    requires style.Pretty?
  {
    && Laid(style, sc, compact) == pretty
    && Waits(AfterAll(sc, compact), inArray, n) && AfterAll(sc, compact).open == sc.open
  }

  lemma BracketsLaid(style: Style, sc: Scan, inArray: bool, n: nat, depth: nat, compact: bytes, pretty: bytes)
    requires style.Pretty? && !sc.quoted && !sc.escaped
    requires LaysBody(style, After(sc, if inArray then 0x5B else 0x7B), inArray, n, compact, pretty)
    ensures var open, close := if inArray then [0x5B] else [0x7B], if inArray then [0x5D] else [0x7D];
      Lays(style, sc, open + compact + CloseText(Compact, depth, Level(n, inArray)) + close,
           open + pretty + CloseText(style, |sc.open|, Level(n, inArray)) + close)
  {
    hide Laid, AfterAll, Indent, Break;
    var a: byte, z: byte := if inArray then 0x5B else 0x7B, if inArray then 0x5D else 0x7D;
    var s1 := After(sc, a);
    var s2 := AfterAll(s1, compact);
    IndentRepeats(style, |sc.open|);
    ScanOne(style, sc, a);
    ScanConcat(style, sc, [a], compact);
    ScanOne(style, s2, z);
    ScanConcat(style, sc, [a] + compact, [z]);
    assert s1.open[..|s1.open| - 1] == sc.open;
    assert [a] + compact + [] + [z] == [a] + compact + [z];
    var gap := CloseText(style, |sc.open|, Level(n, inArray));
    assert Gap(style, s2, z) == gap;
    Concat5(Lead(style, sc), [a], pretty, gap, [z]);
  }

  lemma Concat5(a: bytes, b: bytes, c: bytes, d: bytes, e: bytes)
    ensures a + b + c + (d + e) == a + (b + c + d + e)
  {
  }

  lemma {:induction false} ElementsLaid(
    style: Style, target: Target, sc: Scan, depth: nat, vs: seq<Value>, k: nat)
    requires style.Pretty? && Waits(sc, true, k) && forall j :: 0 <= j < |vs| ==> NoDoubles(vs[j])
    ensures LaysBody(style, sc, true, k + |vs|, PrintElements(Compact, target, depth, vs, k),
                     PrintElements(style, target, |sc.open|, vs, k))
    decreases vs, 1
  {
    hide Laid, AfterAll, PlaceText, Print, Waits, Lays;
    if vs == [] {
      NothingLaid(style, sc);
    } else {
      var mark := PlaceText(Compact, depth, Level(k, true));
      var compact, pretty := Print(Compact, target, depth, vs[0]), Print(style, target, |sc.open|, vs[0]);
      PlaceLaid(style, sc, depth, k, true);
      ValueLaid(style, target, AfterAll(sc, mark), depth, vs[0]);
      PlacedLaid(style, sc, depth, k, true, compact, pretty);
      var s1 := AfterAll(sc, mark + compact);
      ElementsLaid(style, target, s1, depth, vs[1..], k + 1);
      ScanConcat(style, sc, mark + compact, PrintElements(Compact, target, depth, vs[1..], k + 1));
    }
  }

  lemma {:induction false} MembersLaid(
    style: Style, target: Target, sc: Scan, depth: nat, ms: seq<Member>, k: nat)
    requires style.Pretty? && Waits(sc, false, 2 * k) && forall j :: 0 <= j < |ms| ==> NoDoubles(ms[j].value)
    ensures LaysBody(style, sc, false, 2 * (k + |ms|), PrintMembers(Compact, target, depth, ms, k),
                     PrintMembers(style, target, |sc.open|, ms, k))
    decreases ms, 1
  {
    hide Laid, AfterAll, PlaceText, Print, Waits, Lays, Quoted;
    if ms == [] {
      NothingLaid(style, sc);
    } else {
      var more := PrintMembers(Compact, target, depth, ms[1..], k + 1);
      var first := MemberLaid(style, target, sc, depth, ms[0], k);
      var s2 := AfterAll(sc, first);
      MembersLaid(style, target, s2, depth, ms[1..], k + 1);
      ScanConcat(style, sc, first, more);
    }
  }

  lemma {:induction false} MemberLaid(style: Style, target: Target, sc: Scan, depth: nat, m: Member, k: nat)
    returns (first: bytes)
    requires style.Pretty? && Waits(sc, false, 2 * k) && NoDoubles(m.value)
    ensures first == PlaceText(Compact, depth, Level(2 * k, false)) + Quoted(target, m.name)
                  + PlaceText(Compact, depth, Level(2 * k + 1, false)) + Print(Compact, target, depth, m.value)
    ensures LaysBody(style, sc, false, 2 * (k + 1), first,
                     PlaceText(style, |sc.open|, Level(2 * k, false)) + Quoted(target, m.name)
                     + PlaceText(style, |sc.open|, Level(2 * k + 1, false))
                     + Print(style, target, |sc.open|, m.value))
    decreases m, 0
  {
    hide Laid, AfterAll, PlaceText, Print, Waits, Lays, Quoted;
    var mark1 := PlaceText(Compact, depth, Level(2 * k, false));
    var mark2 := PlaceText(Compact, depth, Level(2 * k + 1, false));
    var name := Quoted(target, m.name);
    PlaceLaid(style, sc, depth, 2 * k, false);
    QuotedLaid(style, AfterAll(sc, mark1), target, m.name);
    PlacedLaid(style, sc, depth, 2 * k, false, name, name);
    var s1 := AfterAll(sc, mark1 + name);
    var compact, pretty := Print(Compact, target, depth, m.value), Print(style, target, |sc.open|, m.value);
    PlaceLaid(style, s1, depth, 2 * k + 1, false);
    ValueLaid(style, target, AfterAll(s1, mark2), depth, m.value);
    PlacedLaid(style, s1, depth, 2 * k + 1, false, compact, pretty);
    ScanConcat(style, sc, mark1 + name, mark2 + compact);
    first := mark1 + name + mark2 + compact;
    assert first == mark1 + name + (mark2 + compact);
  }

  // ---------- The compact text is the listed one ----------

  function ElementTexts(target: Target, vs: seq<Value>): seq<bytes> {
    seq(|vs|, k requires 0 <= k < |vs| => CompactText(target, vs[k]))
  }

  function MemberTexts(target: Target, ms: seq<Member>): seq<bytes> {
    seq(|ms|, k requires 0 <= k < |ms| => NamedText(target, ms[k]))
  }

  function NamedText(target: Target, m: Member): bytes {
    [0x22] + StringText(target, m.name, 0) + [0x22, 0x3A] + CompactText(target, m.value)
  }

  lemma ListedMore(first: bytes, rest: seq<bytes>)
    ensures Listed([first] + rest) == first + if rest == [] then [] else [0x2C] + Listed(rest)
  {
    assert ([first] + rest)[1..] == rest;
  }

  lemma CompactArray(target: Target, vs: seq<Value>)
    ensures CompactText(target, ArrayValue(vs)) == [0x5B] + Listed(ElementTexts(target, vs)) + [0x5D]
  {
    hide Listed;
  }

  lemma CompactObject(target: Target, ms: seq<Member>)
    ensures CompactText(target, ObjectValue(ms)) == [0x7B] + Listed(MemberTexts(target, ms)) + [0x7D]
  {
    hide Listed, StringText;
    assert MemberTexts(target, ms) == seq(|ms|, k requires 0 <= k < |ms| =>
      [0x22] + StringText(target, ms[k].name, 0) + [0x22, 0x3A] + CompactText(target, ms[k].value));
  }

  lemma PrintedContainers(target: Target, depth: nat, vs: seq<Value>, ms: seq<Member>)
    ensures Print(Compact, target, depth, ArrayValue(vs))
         == [0x5B] + PrintElements(Compact, target, depth + 1, vs, 0) + [0x5D]
    ensures Print(Compact, target, depth, ObjectValue(ms))
         == [0x7B] + PrintMembers(Compact, target, depth + 1, ms, 0) + [0x7D]
  {
    hide PrintElements, PrintMembers;
  }

  /** The compact writer puts no white space between tokens. */
  lemma {:induction false} CompactIsListed(target: Target, depth: nat, v: Value)
    ensures Print(Compact, target, depth, v) == CompactText(target, v)
    decreases v
  {
    match v {
      case ArrayValue(vs) =>
        hide *;
        ElementsListed(target, depth + 1, vs, 0);
        PrintedContainers(target, depth, vs, []);
        CompactArray(target, vs);
      case ObjectValue(ms) =>
        hide *;
        MembersListed(target, depth + 1, ms, 0);
        PrintedContainers(target, depth, [], ms);
        CompactObject(target, ms);
      case _ => ScalarText(target, depth, v);
    }
  }

  lemma ScalarText(target: Target, depth: nat, v: Value)
    requires !v.ArrayValue? && !v.ObjectValue?
    ensures Print(Compact, target, depth, v) == CompactText(target, v)
  {
    hide Decimal, StringText;
  }

  /** Elements after the first `k` follow a comma. */
  lemma {:induction false} ElementsListed(target: Target, depth: nat, vs: seq<Value>, k: nat)
    ensures PrintElements(Compact, target, depth, vs, k)
         == (if vs == [] || k == 0 then [] else [0x2C]) + Listed(ElementTexts(target, vs))
    decreases vs, 1
  {
    hide Print, CompactText, Listed;
    if vs == [] {
      NoneListed();
    } else {
      CompactIsListed(target, depth, vs[0]);
      ElementsListed(target, depth, vs[1..], k + 1);
      assert ElementTexts(target, vs) == [CompactText(target, vs[0])] + ElementTexts(target, vs[1..]);
      ListedMore(CompactText(target, vs[0]), ElementTexts(target, vs[1..]));
      NoneListed();
    }
  }

  lemma NoneListed()
    ensures Listed([]) == []
  {
  }

  lemma {:induction false} MembersListed(target: Target, depth: nat, ms: seq<Member>, k: nat)
    ensures PrintMembers(Compact, target, depth, ms, k)
         == (if ms == [] || k == 0 then [] else [0x2C]) + Listed(MemberTexts(target, ms))
    decreases ms, 1
  {
    hide Print, CompactText, Listed, PlaceText, Quoted, NamedText;
    NoneListed();
    if ms == [] {
      assert MemberTexts(target, ms) == [];
    } else {
      var comma := if k == 0 then [] else [0x2C];
      var named, rest := NamedText(target, ms[0]), MemberTexts(target, ms[1..]);
      CompactIsListed(target, depth, ms[0].value);
      MembersListed(target, depth, ms[1..], k + 1);
      MemberTextsMore(target, ms);
      ListedMore(named, rest);
      NamedPrinted(target, depth, ms[0], k);
      assert |rest| == |ms[1..]|;
      Regrouped(comma, named, if rest == [] then [] else [0x2C] + Listed(rest));
      if rest == [] { assert comma + named + [] == comma + named; }
    }
  }

  lemma Regrouped(a: bytes, b: bytes, c: bytes)
    ensures a + b + c == a + (b + c)
  {
  }

  lemma MemberTextsMore(target: Target, ms: seq<Member>)
    requires ms != []
    ensures MemberTexts(target, ms) == [NamedText(target, ms[0])] + MemberTexts(target, ms[1..])
  {
    hide NamedText;
  }

  lemma NamedPrinted(target: Target, depth: nat, m: Member, k: nat)
    requires Print(Compact, target, depth, m.value) == CompactText(target, m.value)
    ensures PlaceText(Compact, depth, Level(2 * k, false)) + Quoted(target, m.name)
            + PlaceText(Compact, depth, Level(2 * k + 1, false)) + Print(Compact, target, depth, m.value)
         == (if k == 0 then [] else [0x2C]) + NamedText(target, m)
  {
    hide Print, CompactText, StringText;
  }

  /**
   The pretty text of a tree is its compact text with a break after an opening bracket and a comma and before a closing
   bracket, a space after a colon, and nothing else; an empty container stays together, and so does a one-line array.
   */
  lemma PrettyIsLaid(style: Style, target: Target, v: Value)
    requires style.Pretty? && NoDoubles(v)
    ensures Print(style, target, 0, v) == Laid(style, START, CompactText(target, v))
  {
    hide Laid, Print, AfterAll, CompactText;
    ValueLaid(style, target, START, 0, v);
    CompactIsListed(target, 0, v);
  }

  /** What a writer has written once it has taken the events of a tree. */
  lemma WriterLays(style: Style, target: Target, v: Value, o: Origin)
    requires NoDoubles(v) && AllWritable(target, v)
    ensures var w := Run(style, target, State([], [], false), Events(v, o));
      && w.Done?
      && w.state.os == if style.Compact? then CompactText(target, v) else Laid(style, START, CompactText(target, v))
  {
    hide Run, Laid, CompactText, Print, AllWritable, Events;
    WriterPrints(style, target, State([], [], false), v, o);
    if style.Pretty? { PrettyIsLaid(style, target, v); } else { CompactIsListed(target, 0, v); }
  }
}
