/** White space, strings and numbers: what the grammar's functions take is what JSON has there, and vice versa. */
module Lexemes {
  import opened Bytes
  import opened Characters
  import opened Dom
  import opened Grammar
  import opened JsonText
  import opened Sax
  import Unicode

  // ---------- White space and comments ----------

  /** Nothing more to skip. */
  predicate Stops(c: Config, s: bytes, j: nat) { !IsSpace(At(s, j)) && (c.comments ==> At(s, j) != SLASH) }

  lemma {:induction false} BlockEnd(s: bytes, m: nat, k: nat)
    requires m + 2 <= k <= |s| && s[k - 2] == STAR && s[k - 1] == SLASH
    requires forall x :: m <= x < k - 2 ==> s[x] != NUL && !(s[x] == STAR && s[x + 1] == SLASH)
    ensures SkipBlock(s, m) == k
    decreases k - m
  {
    if m + 2 < k { BlockEnd(s, m + 1, k); }
  }

  lemma {:induction false} LineEnd(s: bytes, m: nat, k: nat)
    requires m <= k <= |s| && InLine(s, m, k)
    ensures At(s, k) == NUL ==> SkipLine(s, m) == k
    ensures At(s, k) == NEWLINE ==> SkipLine(s, m) == k + 1
    decreases k - m
  {
    if m < k { LineEnd(s, m + 1, k); }
  }

  lemma FillerSkip(c: Config, s: bytes, i: nat, k: nat, log: Log)
    requires IsFiller(c, s, i, k)
    ensures Skip(c, s, i, log) == Skip(c, s, k, log)
  {
    if c.comments && IsBlockComment(s, i, k) {
      BlockEnd(s, i + 2, k);
    } else if c.comments && IsLineComment(s, i, k) {
      if At(s, k) == NUL && InLine(s, i + 2, k) {
        LineEnd(s, i + 2, k);
      } else {
        LineEnd(s, i + 2, k - 1);
      }
    }
  }

  lemma {:induction false} GapSkip(c: Config, s: bytes, i: nat, j: nat, log: Log)
    requires IsGap(c, s, i, j)
    ensures Skip(c, s, i, log) == Skip(c, s, j, log)
    decreases j - i
  {
    hide Skip, IsFiller;
    if i < j {
      var k :| i < k <= j && IsFiller(c, s, i, k) && IsGap(c, s, k, j);
      FillerSkip(c, s, i, k, log);
      GapSkip(c, s, k, j, log);
    }
  }

  /** A gap in front of something else is skipped to its end. */
  lemma GapSkipped(c: Config, s: bytes, i: nat, j: nat, log: Log)
    requires IsGap(c, s, i, j) && Stops(c, s, j)
    ensures Skip(c, s, i, log) == Ok(j, log)
  {
    GapSkip(c, s, i, j, log);
  }

  lemma {:induction false} SpaceGap(c: Config, s: bytes, i: nat, j: nat)
    requires i <= |s| && IsGap(c, s, SkipSpace(s, i), j)
    ensures IsGap(c, s, i, j)
    decreases |s| - i
  {
    if IsSpace(At(s, i)) {
      SpaceGap(c, s, i + 1, j);
      assert IsFiller(c, s, i, i + 1);
    }
  }

  lemma {:induction false} BlockSpells(s: bytes, m: nat)
    requires m <= |s| && SkipBlock(s, m) <= |s|
    ensures var k := SkipBlock(s, m);
      && m + 2 <= k && s[k - 2] == STAR && s[k - 1] == SLASH
      && forall x :: m <= x < k - 2 ==> s[x] != NUL && !(s[x] == STAR && s[x + 1] == SLASH)
    decreases |s| - m
  {
    if At(s, m) != NUL && !(At(s, m) == STAR && At(s, m + 1) == SLASH) { BlockSpells(s, m + 1); }
  }

  lemma {:induction false} LineSpells(s: bytes, m: nat)
    requires m <= |s|
    ensures var k := SkipLine(s, m);
      (m < k && s[k - 1] == NEWLINE && InLine(s, m, k - 1)) || (At(s, k) == NUL && InLine(s, m, k))
    decreases |s| - m
  {
    if At(s, m) != NUL && At(s, m) != NEWLINE { LineSpells(s, m + 1); }
  }

  lemma {:induction false} SkipSpaceStops(s: bytes, i: nat)
    requires i <= |s|
    ensures !IsSpace(At(s, SkipSpace(s, i)))
    decreases |s| - i
  {
    if IsSpace(At(s, i)) { SkipSpaceStops(s, i + 1); }
  }

  lemma {:induction false} CommentsGap(c: Config, s: bytes, i: nat, log: Log)
    requires i <= |s| && c.comments && !IsSpace(At(s, i)) && SkipComments(s, i, log).Ok?
    ensures IsGap(c, s, i, SkipComments(s, i, log).pos) && Stops(c, s, SkipComments(s, i, log).pos)
    decreases |s| - i
  {
    hide SkipBlock, SkipLine;
    if At(s, i) == SLASH {
      var k := if At(s, i + 1) == STAR then SkipBlock(s, i + 2) else SkipLine(s, i + 2);
      if At(s, i + 1) == STAR { BlockSpells(s, i + 2); } else { LineSpells(s, i + 2); }
      assert IsFiller(c, s, i, k);
      SkipSpaceStops(s, k);
      CommentsGap(c, s, SkipSpace(s, k), log);
      SpaceGap(c, s, k, SkipComments(s, i, log).pos);
    }
  }

  /** What is skipped is a gap, and there is nothing more to skip behind it. */
  lemma SkippedGap(c: Config, s: bytes, i: nat, log: Log)
    requires i <= |s| && Skip(c, s, i, log).Ok?
    ensures IsGap(c, s, i, Skip(c, s, i, log).pos) && Stops(c, s, Skip(c, s, i, log).pos)
  {
    hide SkipComments, SkipSpace;
    var k := SkipSpace(s, i);
    SkipSpaceStops(s, i);
    if c.comments { CommentsGap(c, s, k, log); }
    SpaceGap(c, s, i, Skip(c, s, i, log).pos);
  }

  // ---------- Strings ----------

  lemma HexTable(b: byte, v: nat)
    requires v < 16
    ensures HexValue(b) == v <==> b == LOWER_DIGITS[v] || b == UPPER_DIGITS[v]
  {
  }

  lemma HexGroups(a: nat, b: nat, c: nat, d: nat)
    requires a < 16 && b < 16 && c < 16 && d < 16
    ensures var n := ((a * 16 + b) * 16 + c) * 16 + d;
      && n % 16 == d && n / 16 % 16 == c && n / 16 / 16 % 16 == b && n / 16 / 16 / 16 % 16 == a
      && n / 16 / 16 / 16 / 16 == 0
  {
    assert ((a * 16 + b) * 16 + c) * 16 + d == 16 * ((a * 16 + b) * 16 + c) + d;
  }

  lemma HexSteps(s: bytes, i: nat, n: nat)
    ensures IsHex(s, i, 4, n) <==>
              && i + 4 <= |s| && n / 16 / 16 / 16 / 16 == 0
              && (s[i + 3] == LOWER_DIGITS[n % 16] || s[i + 3] == UPPER_DIGITS[n % 16])
              && (s[i + 2] == LOWER_DIGITS[n / 16 % 16] || s[i + 2] == UPPER_DIGITS[n / 16 % 16])
              && (s[i + 1] == LOWER_DIGITS[n / 16 / 16 % 16] || s[i + 1] == UPPER_DIGITS[n / 16 / 16 % 16])
              && (s[i] == LOWER_DIGITS[n / 16 / 16 / 16 % 16] || s[i] == UPPER_DIGITS[n / 16 / 16 / 16 % 16])
  {
    assert IsHex(s, i, 1, n / 16 / 16 / 16) <==>
             && i + 1 <= |s| && n / 16 / 16 / 16 / 16 == 0
             && (s[i] == LOWER_DIGITS[n / 16 / 16 / 16 % 16] || s[i] == UPPER_DIGITS[n / 16 / 16 / 16 % 16]);
    assert IsHex(s, i, 2, n / 16 / 16) <==>
             && i + 2 <= |s| && IsHex(s, i, 1, n / 16 / 16 / 16)
             && (s[i + 1] == LOWER_DIGITS[n / 16 / 16 % 16] || s[i + 1] == UPPER_DIGITS[n / 16 / 16 % 16]);
  }

  lemma HexRead(s: bytes, i: nat, n: nat)
    requires IsHex(s, i, 4, n)
    ensures Hex4(s, i) == n
  {
    hide HexValue, IsHex;
    HexSteps(s, i, n);
    HexTable(s[i], n / 16 / 16 / 16 % 16);
    HexTable(s[i + 1], n / 16 / 16 % 16);
    HexTable(s[i + 2], n / 16 % 16);
    HexTable(s[i + 3], n % 16);
    Groups16(n);
  }

  lemma HexDigits(s: bytes, i: nat) returns (a: nat, b: nat, c: nat, d: nat)
    requires Hex4(s, i) >= 0
    ensures i + 4 <= |s| && a < 16 && b < 16 && c < 16 && d < 16
    ensures HexValue(s[i]) == a && HexValue(s[i + 1]) == b && HexValue(s[i + 2]) == c && HexValue(s[i + 3]) == d
    ensures Hex4(s, i) == ((a * 16 + b) * 16 + c) * 16 + d
  {
    hide HexValue;
    a, b, c, d := HexValue(At(s, i)), HexValue(At(s, i + 1)), HexValue(At(s, i + 2)), HexValue(At(s, i + 3));
  }

  lemma HexWritten(s: bytes, i: nat)
    requires Hex4(s, i) >= 0
    ensures IsHex(s, i, 4, Hex4(s, i))
  {
    hide HexValue, IsHex, Hex4;
    var a, b, c, d := HexDigits(s, i);
    HexSteps(s, i, Hex4(s, i));
    HexGroups(a, b, c, d);
    HexTable(s[i], a);
    HexTable(s[i + 1], b);
    HexTable(s[i + 2], c);
    HexTable(s[i + 3], d);
  }

  /** The four digits of an escape, in either case, and the number they write. */
  lemma HexSpells(s: bytes, i: nat, n: nat)
    ensures IsHex(s, i, 4, n) <==> Hex4(s, i) == n
  {
    hide Hex4, IsHex;
    if IsHex(s, i, 4, n) { HexRead(s, i, n); }
    if Hex4(s, i) == n { HexWritten(s, i); }
  }

  lemma Groups16(n: nat)
    requires n / 16 / 16 / 16 / 16 == 0
    ensures ((n / 16 / 16 / 16 % 16 * 16 + n / 16 / 16 % 16) * 16 + n / 16 % 16) * 16 + n % 16 == n
  {
  }

  lemma EscapeTable(b: byte, u: byte)
    ensures (b, u) in ESCAPES <==> Unescape(b) == u != 0
  {
    assert ESCAPES[0] == (0x22, 0x22) && ESCAPES[1] == (0x5C, 0x5C) && ESCAPES[2] == (0x2F, 0x2F);
    assert ESCAPES[3] == (0x62, 0x08) && ESCAPES[4] == (0x66, 0x0C) && ESCAPES[5] == (0x6E, 0x0A);
    assert ESCAPES[6] == (0x72, 0x0D) && ESCAPES[7] == (0x74, 0x09);
  }

  /** One character: its bytes are what the piece is decoded to. */
  lemma CharacterDecoded(s: bytes, i: nat, k: nat, u: bytes)
    requires IsCharacter(s, i, k, u)
    ensures StringPiece(s, i) == Piece(k, u) && At(s, i) != QUOTE
  {
    hide Hex4, IsHex, Unescape;
    if IsEscape(s, i, k, u) {
      EscapeTable(s[i + 1], u[0]);
    } else if IsUnicode(s, i, k, u) {
      var n: nat :| n <= 0xFFFF && !(0xD800 <= n <= 0xDBFF) && IsUnit(s, i, n) && u == Unicode.Encode(n);
      HexSpells(s, i + 2, n);
      UnicodeLetter();
    } else if IsSurrogatePair(s, i, k, u) {
      var hi: nat, lo: nat :| IsLead(s, i, hi) && IsTrail(s, i + 6, lo) && u == Combined(hi, lo);
      HexSpells(s, i + 2, hi);
      HexSpells(s, i + 8, lo);
      UnicodeLetter();
    }
  }

  lemma UnicodeLetter()
    ensures Unescape(LOWER_U) == 0
  {
  }

  lemma CharacterSpells(s: bytes, i: nat)
    requires At(s, i) != QUOTE && StringPiece(s, i).Piece?
    ensures IsCharacter(s, i, StringPiece(s, i).next, StringPiece(s, i).decoded)
  {
    hide Hex4, IsHex, Unescape;
    var p := StringPiece(s, i);
    if At(s, i) == BACKSLASH {
      if Unescape(At(s, i + 1)) != 0 {
        EscapeTable(At(s, i + 1), p.decoded[0]);
        assert IsEscape(s, i, p.next, p.decoded);
      } else {
        var hi := Hex4(s, i + 2);
        HexSpells(s, i + 2, hi);
        assert IsUnit(s, i, hi);
        if 0xD800 <= hi <= 0xDBFF {
          var lo := Hex4(s, i + 8);
          HexSpells(s, i + 8, lo);
          assert IsLead(s, i, hi) && IsTrail(s, i + 6, lo) && p.decoded == Combined(hi, lo);
          assert IsSurrogatePair(s, i, p.next, p.decoded);
        } else {
          assert IsUnicode(s, i, p.next, p.decoded);
        }
      }
    } else {
      assert IsPlain(s, i, p.next, p.decoded);
    }
  }

  lemma {:induction false} BodyDecoded(s: bytes, i: nat, j: nat, text: bytes, out: bytes)
    requires IsBody(s, i, j, text)
    ensures StringBody(s, i, out) == Text(j, out + text)
    decreases j - i
  {
    hide IsCharacter, StringPiece;
    if text == [] && j == i + 1 && s[i] == QUOTE {
      assert out + text == out;
    } else {
      var k, n :| i < k < j && 0 <= n <= |text| && IsCharacter(s, i, k, text[..n]) && IsBody(s, k, j, text[n..]);
      CharacterDecoded(s, i, k, text[..n]);
      BodyDecoded(s, k, j, text[n..], out + text[..n]);
      assert out + text[..n] + text[n..] == out + text;
    }
  }

  lemma {:induction false} BodySpells(s: bytes, i: nat, out: bytes)
    requires StringBody(s, i, out).Text?
    ensures var r := StringBody(s, i, out); out <= r.text && IsBody(s, i, r.next, r.text[|out|..])
    decreases |s| - i
  {
    hide IsCharacter, StringPiece;
    var r := StringBody(s, i, out);
    if At(s, i) == QUOTE {
      assert r.text[|out|..] == [];
    } else {
      var p := StringPiece(s, i);
      CharacterSpells(s, i);
      BodySpells(s, p.next, out + p.decoded);
      var text, n := r.text[|out|..], |p.decoded|;
      assert text[..n] == p.decoded && text[n..] == r.text[|out + p.decoded|..];
      assert out <= out + p.decoded <= r.text;
    }
  }

  /**
   The string grammar decodes exactly the bodies that section 7 of RFC 7159 has, each to the bytes that it spells and to
   no others.
   */
  lemma StringExactly(s: bytes, i: nat, j: nat, text: bytes)
    ensures IsBody(s, i, j, text) <==> StringBody(s, i, []) == Text(j, text)
  {
    if IsBody(s, i, j, text) {
      BodyDecoded(s, i, j, text, []);
      assert [] + text == text;
    }
    if StringBody(s, i, []) == Text(j, text) {
      BodySpells(s, i, []);
      assert text[0..] == text;
    }
  }

  // ---------- Numbers ----------

  /** What may follow a number without being taken for a part of it. */
  predicate Ends(b: byte) { !IsDigit(b) && b != DOT && !IsExponentMark(b) }

  lemma {:induction false} DigitsTaken(s: bytes, i: nat, j: nat)
    requires i <= j <= |s| && (forall k :: i <= k < j ==> IsDigit(s[k])) && !IsDigit(At(s, j))
    ensures DigitsEnd(s, i) == j
    decreases j - i
  {
    if i < j {
      assert IsDigit(s[i]);
      DigitsTaken(s, i + 1, j);
    }
  }

  lemma {:induction false} SameNumber(s: bytes, i: nat, j: nat)
    requires i <= j <= |s| && forall k :: i <= k < j ==> 0x30 <= s[k] <= 0x39 && IsDigit(s[k])
    ensures NumberOf(s, i, j) == DigitsValue(s, i, j)
    decreases j - i
  {
    if i < j { SameNumber(s, i, j - 1); }
  }

  lemma IntegerTaken(s: bytes, a: nat, b: nat)
    requires IsInteger(s, a, b) && !IsDigit(At(s, b))
    ensures IntegerEnd(s, a) == b
  {
    assert IsDigit(s[a]);
    if s[a] != ZERO { DigitsTaken(s, a, b); }
  }

  lemma FractionTaken(s: bytes, b: nat, f: nat)
    requires b <= f <= |s| && IsFraction(s, b, f) && !IsDigit(At(s, f)) && (b == f ==> At(s, f) != DOT)
    ensures FractionEnd(s, b) == f
  {
    if b < f {
      assert IsDigit(s[b + 1]);
      DigitsTaken(s, b + 1, f);
    }
  }

  lemma ExponentTaken(s: bytes, f: nat, j: nat)
    requires f <= j <= |s| && IsExponent(s, f, j) && !IsDigit(At(s, j)) && (f == j ==> !IsExponentMark(At(s, j)))
    ensures ExponentEnd(s, f) == j
  {
    if f < j {
      if IsDigits(s, f + 1, j) {
        assert IsDigit(s[f + 1]);
        DigitsTaken(s, f + 1, j);
      } else {
        assert IsDigit(s[f + 2]);
        DigitsTaken(s, f + 2, j);
      }
    }
  }

  /** The event for a number, with the sign of a zero. */
  function NumberSent(minus: bool, v: Value): Event
    requires v.NumberValue? || v.DoubleValue?
  {
    match v
    case NumberValue(n) => if minus && n == 0 then Int(0) else ReaderEvent(n)
    case DoubleValue(lexeme) => Double(lexeme)
    case _ => Null
  }

  lemma NumberSentPlain(minus: bool, v: Value)
    requires v.NumberValue? || v.DoubleValue?
    ensures [Plain(NumberSent(minus, v))] == Events(v, FromText)
  {
  }

  lemma FollowedBy(s: bytes, b: nat, f: nat, j: nat)
    requires b <= f <= j <= |s| && IsFraction(s, b, f) && IsExponent(s, f, j) && Ends(At(s, j))
    ensures !IsDigit(At(s, b)) && !IsDigit(At(s, f)) && (b == f ==> At(s, f) != DOT)
  {
  }

  /** A number in front of something else is taken whole, for its value. */
  lemma NumberTaken(c: Config, s: bytes, i: nat, j: nat, v: Value, log: Log)
    requires IsNumber(c, s, i, j, v) && Ends(At(s, j))
    ensures PNumber(c, s, i, log) == Emit(c, j, log, NumberSent(s[i] == MINUS, v))
  {
    hide DigitsEnd, DigitsValue, FractionEnd, ExponentEnd, IntegerEnd, IsFraction, IsExponent, NumberOf, Emit;
    var a := if s[i] == MINUS then i + 1 else i;
    var b, f :|
      a < b <= f <= j && IsInteger(s, a, b) && IsFraction(s, b, f) && IsExponent(s, f, j)
      && IsNumberFrom(c, s, i, a, b, j, v);
    FollowedBy(s, b, f, j);
    IntegerTaken(s, a, b);
    FractionTaken(s, b, f);
    ExponentTaken(s, f, j);
    SameNumber(s, a, b);
  }

  lemma IntegerSpells(s: bytes, a: nat)
    requires a <= |s| && IntegerEnd(s, a) != a
    ensures IsInteger(s, a, IntegerEnd(s, a))
  {
  }

  lemma FractionSpells(s: bytes, b: nat)
    requires b <= |s| && FractionEnd(s, b) <= |s|
    ensures IsFraction(s, b, FractionEnd(s, b))
  {
    if At(s, b) == DOT { DigitsMove(s, b + 1); }
  }

  lemma DigitsMove(s: bytes, i: nat)
    requires i <= |s| && IsDigit(At(s, i))
    ensures i < DigitsEnd(s, i)
  {
  }

  lemma ExponentSpells(s: bytes, f: nat)
    requires f <= |s| && ExponentEnd(s, f) <= |s|
    ensures IsExponent(s, f, ExponentEnd(s, f))
  {
    if IsExponentMark(At(s, f)) {
      var k := if At(s, f + 1) == PLUS || At(s, f + 1) == MINUS then f + 2 else f + 1;
      if IsDigit(At(s, k)) { DigitsMove(s, k); }
    }
  }

  /** What is taken for a number is one, and its event is sent. */
  lemma NumberSpells(c: Config, s: bytes, i: nat, log: Log) returns (v: Value)
    requires i <= |s| && PNumber(c, s, i, log).Ok?
    ensures IsNumber(c, s, i, PNumber(c, s, i, log).pos, v)
    ensures PNumber(c, s, i, log).log == log + [NumberSent(At(s, i) == MINUS, v)]
  {
    hide DigitsEnd, DigitsValue, FractionEnd, ExponentEnd, IntegerEnd, IsFraction, IsExponent, NumberOf;
    var minus := At(s, i) == MINUS;
    var a := if minus then i + 1 else i;
    var b := IntegerEnd(s, a);
    var f := FractionEnd(s, b);
    var j := ExponentEnd(s, f);
    IntegerSpells(s, a);
    FractionSpells(s, b);
    ExponentSpells(s, f);
    SameNumber(s, a, b);
    var n := DigitsValue(s, a, b);
    if j == b && FitsInteger(minus, n) {
      v := NumberValue(if minus then -(n as int) else n);
    } else {
      v := DoubleValue(s[i..j]);
    }
    assert IsNumberFrom(c, s, i, a, b, j, v);
  }
}
