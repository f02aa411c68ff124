/**
 The text of a JSON Pointer: GenericPointer::Parse and Stringify, for the string form and for the
 URI fragment form of sections 3, 4 and 6 of RFC 6901.
 */
module Pointer {
  import opened Bytes
  import opened Characters
  import opened Wrappers
  import Unicode

  /** 2^32, one more than the largest SizeType; the largest one is kPointerInvalidIndex. */
  const SIZE_LIMIT: nat := 0x1_0000_0000
  const INVALID_INDEX: nat := 0xFFFF_FFFF

  datatype Token = Token(name: bytes, index: nat)

  datatype ErrorCode = TokenMustBeginWithSolidus | InvalidEscape | InvalidPercentEncoding | CharacterMustPercentEncode

  datatype Parsed = Ok(tokens: seq<Token>) | Err(code: ErrorCode, offset: nat)

  predicate NeedPercentEncode(c: byte) {
    !(IsDigit(c) || 0x41 <= c <= 0x5A || 0x61 <= c <= 0x7A || c == 0x2D || c == 0x2E || c == 0x5F || c == TILDE)
  }

  // ---------- Parsing ----------

  /** The code units that PercentDecodeStream yields from position `i`, up to the first that is no %XY triplet. */
  function Triplets(s: bytes, i: nat): bytes
    decreases |s| - i
  {
    if i + 3 <= |s| && s[i] == PERCENT && HexValue(s[i + 1]) >= 0 && HexValue(s[i + 2]) >= 0 then
      [HexValue(s[i + 1]) * 16 + HexValue(s[i + 2])] + Triplets(s, i + 3)
    else []
  }

  /**
   One pass of the loop over a token: the position after it, the code units stored, and whether they are one digit.
   */
  datatype Step = Stored(next: nat, units: bytes, digit: bool) | Wrong(code: ErrorCode, offset: nat)

  /** The character `c`, taken from before position `j`, and the second half of an escape if it is '~'. */
  function Unescaped(s: bytes, j: nat, c: byte): Step {
    if c != TILDE then Stored(j, [c], IsDigit(c))
    else if j < |s| && s[j] == ZERO then Stored(j + 1, [TILDE], false)
    else if j < |s| && s[j] == ONE then Stored(j + 1, [SLASH], false)
    else Wrong(InvalidEscape, j)
  }

  function TokenStep(s: bytes, i: nat, fragment: bool): (r: Step)
    requires i < |s|
    ensures r.Stored? ==> i < r.next <= |s| && 1 <= |r.units| <= r.next - i
  {
    if fragment && s[i] == PERCENT then
      TripletsFit(s, i);
      var t := Triplets(s, i);
      var d := Unicode.Decode(t, 0);
      if !d.ok || d.next > |t| then Wrong(InvalidPercentEncoding, i)
      else if d.next == 1 then Unescaped(s, i + 3, t[0])
      else Stored(i + 3 * d.next, t[..d.next], false)
    else if fragment && NeedPercentEncode(s[i]) then Wrong(CharacterMustPercentEncode, i)
    else Unescaped(s, i + 1, s[i])
  }

  lemma TripletsFit(s: bytes, i: nat)
    requires i <= |s|
    ensures i + 3 * |Triplets(s, i)| <= |s|
    decreases |s| - i
  {
  }

  /** The rest of a token from position `i`: where it ends, its name, and whether it is all digits. */
  datatype Segment = Segment(next: nat, name: bytes, digits: bool) | Bad(code: ErrorCode, offset: nat)

  function Name(s: bytes, i: nat, fragment: bool): (r: Segment)
    requires i <= |s|
    ensures r.Segment? ==> i <= r.next <= |s| && |r.name| <= r.next - i && (r.next == |s| || s[r.next] == SLASH)
    decreases |s| - i
  {
    if i == |s| || s[i] == SLASH then Segment(i, [], true)
    else
      match TokenStep(s, i, fragment)
      case Wrong(code, offset) => Bad(code, offset)
      case Stored(next, units, digit) =>
        match Name(s, next, fragment)
        case Bad(code, offset) => Bad(code, offset)
        case Segment(end, rest, digits) => Segment(end, units + rest, digit && digits)
  }

  /** The conversion loop from position `j` of a name; None when an overflow is detected. */
  function IndexFrom(name: bytes, j: nat, n: nat): Option<nat>
    decreases |name| - j
  {
    if j >= |name| then Some(n)
    else
      var m: nat := (n * 10 + (name[j] - ZERO) % SIZE_LIMIT) % SIZE_LIMIT;
      if m < n then None else IndexFrom(name, j + 1, m)
  }

  function IndexOf(name: bytes, digits: bool): nat {
    if !digits || |name| == 0 || (|name| > 1 && name[0] == ZERO) then INVALID_INDEX
    else
      match IndexFrom(name, 0, 0)
      case None => INVALID_INDEX
      case Some(n) => n
  }

  function Tokens(s: bytes, i: nat, fragment: bool): Parsed
    requires i <= |s| && (i == |s| || s[i] == SLASH)
    decreases |s| - i
  {
    if i == |s| then Ok([])
    else
      match Name(s, i + 1, fragment)
      case Bad(code, offset) => Err(code, offset)
      case Segment(next, name, digits) =>
        match Tokens(s, next, fragment)
        case Err(code, offset) => Err(code, offset)
        case Ok(rest) => Ok([Token(name, IndexOf(name, digits))] + rest)
  }

  function Parse(s: bytes): Parsed {
    var fragment := At(s, 0) == HASH;
    var i := if fragment then 1 else 0;
    if i != |s| && s[i] != SLASH then Err(TokenMustBeginWithSolidus, i) else Tokens(s, i, fragment)
  }

  // ---------- Printing ----------

  /** PercentEncodeStream on a run of code units. */
  function Percents(u: bytes): (r: bytes)
    ensures |r| == 3 * |u|
  {
    if u == [] then [] else [PERCENT, HexDigit(u[0] / 16), HexDigit(u[0] % 16)] + Percents(u[1..])
  }

  function Prepend(t: bytes, rest: Option<bytes>): Option<bytes> {
    match rest
    case None => None
    case Some(u) => Some(t + u)
  }

  /** The text of one token, or None when Validate fails inside the name. */
  function PutName(name: bytes, fragment: bool): Option<bytes>
    decreases |name|
  {
    if name == [] then Some([])
    else if name[0] == TILDE then Prepend([TILDE, ZERO], PutName(name[1..], fragment))
    else if name[0] == SLASH then Prepend([TILDE, ONE], PutName(name[1..], fragment))
    else if fragment && NeedPercentEncode(name[0]) then
      Unicode.DecodeIsRfc3629(name, 0);
      var d := Unicode.Decode(name, 0);
      if !d.ok then None else Prepend(Percents(name[..d.next]), PutName(name[d.next..], fragment))
    else Prepend([name[0]], PutName(name[1..], fragment))
  }

  function PutTokens(ts: seq<Token>, fragment: bool): Option<bytes> {
    if ts == [] then Some([])
    else
      match PutName(ts[0].name, fragment)
      case None => None
      case Some(t) => Prepend([SLASH] + t, PutTokens(ts[1..], fragment))
  }

  /** Stringify and StringifyUriFragment; None where they return false. */
  function Stringify(ts: seq<Token>, fragment: bool): Option<bytes> {
    if fragment then Prepend([HASH], PutTokens(ts, fragment)) else PutTokens(ts, fragment)
  }

  // ---------- Parse, then print ----------

  /** A name read from a plain pointer prints as the characters it was read from. */
  lemma {:induction false} NamePrinted(s: bytes, i: nat)
    requires i <= |s| && Name(s, i, false).Segment?
    ensures var r := Name(s, i, false); PutName(r.name, false) == Some(s[i..r.next])
    decreases |s| - i
  {
    if i < |s| && s[i] != SLASH {
      var step := TokenStep(s, i, false);
      NamePrinted(s, step.next);
      var r, rest := Name(s, i, false), Name(s, step.next, false);
      assert r.name[0] == step.units[0] && r.name[1..] == rest.name;
      assert s[i..r.next] == s[i..step.next] + s[step.next..r.next];
      assert step.next == i + 1 ==> s[i..step.next] == [s[i]];
      assert step.next == i + 2 ==> s[i..step.next] == [s[i], s[i + 1]];
    } else {
      assert s[i..i] == [];
    }
  }

  lemma {:induction false} TokensPrinted(s: bytes, i: nat)
    requires i <= |s| && (i == |s| || s[i] == SLASH) && Tokens(s, i, false).Ok?
    ensures PutTokens(Tokens(s, i, false).tokens, false) == Some(s[i..])
    decreases |s| - i
  {
    hide Name, PutName, IndexOf;
    if i < |s| {
      var r := Name(s, i + 1, false);
      NamePrinted(s, i + 1);
      TokensPrinted(s, r.next);
      var ts := Tokens(s, i, false).tokens;
      assert ts[1..] == Tokens(s, r.next, false).tokens && ts[0].name == r.name;
      assert [SLASH] + s[i + 1..r.next] + s[r.next..] == s[i..];
    } else {
      assert s[i..] == [];
    }
  }

  /** Stringify undoes Parse on every accepted pointer that is no URI fragment. */
  lemma ParseThenStringify(s: bytes)
    requires At(s, 0) != HASH && Parse(s).Ok?
    ensures Stringify(Parse(s).tokens, false) == Some(s)
  {
    TokensPrinted(s, 0);
    assert s[0..] == s;
  }

  // ---------- Print, then parse ----------

  predicate AllDigits(name: bytes) { forall k :: 0 <= k < |name| ==> IsDigit(name[k]) }

  /** The character at the head of a name, as TokenStep reads it back. */
  lemma PlainStep(s: bytes, i: nat, c: byte, fragment: bool)
    requires fragment && c != SLASH ==> !NeedPercentEncode(c)
    requires Stands(s, i, if c == TILDE then [TILDE, ZERO] else if c == SLASH then [TILDE, ONE] else [c])
    ensures var n := if c == TILDE || c == SLASH then 2 else 1;
      i < |s| && s[i] != SLASH && TokenStep(s, i, fragment) == Stored(i + n, [c], IsDigit(c))
  {
    hide Triplets;
    var t := if c == TILDE then [TILDE, ZERO] else if c == SLASH then [TILDE, ONE] else [c];
    StandsAt(s, i, t, 0);
    if |t| == 2 { StandsAt(s, i, t, 1); }
  }

  lemma {:induction false} TripletsRead(s: bytes, i: nat, u: bytes)
    requires Stands(s, i, Percents(u))
    ensures u <= Triplets(s, i)
    decreases |u|
  {
    if u != [] {
      var head := [PERCENT, HexDigit(u[0] / 16), HexDigit(u[0] % 16)];
      StandsSplit(s, i, head, Percents(u[1..]));
      StandsAt(s, i, head, 0);
      StandsAt(s, i, head, 1);
      StandsAt(s, i, head, 2);
      TripletsRead(s, i + 3, u[1..]);
      var h, l := u[0] / 16, u[0] % 16;
      assert HexValue(HexDigit(h)) == h && HexValue(HexDigit(l)) == l;
      assert Triplets(s, i) == [u[0]] + Triplets(s, i + 3);
    }
  }

  /** A percent-encoded character at the head of a name, as TokenStep reads it back. */
  lemma PercentStep(s: bytes, i: nat, name: bytes)
    requires name != [] && NeedPercentEncode(name[0]) && Unicode.Decode(name, 0).ok
    requires Unicode.Decode(name, 0).next <= |name|
    requires Stands(s, i, Percents(name[..Unicode.Decode(name, 0).next]))
    ensures var n := Unicode.Decode(name, 0).next;
      i < |s| && s[i] != SLASH && TokenStep(s, i, true) == Stored(i + 3 * n, name[..n], false)
  {
    hide Triplets, Unicode.Decode, Unicode.CharLength, Unicode.Encode;
    Unicode.DecodeIsRfc3629(name, 0);
    var d := Unicode.Decode(name, 0);
    var u := name[..d.next];
    TripletsRead(s, i, u);
    StandsAt(s, i, Percents(u), 0);
    var t := Triplets(s, i);
    assert t[0..|u|] == u;
    Unicode.DecodeEncode(t, 0, d.cp);
    assert u[0] == name[0];
  }

  /** What PutName writes for the first character, and what it leaves for the rest. */
  lemma NameHead(name: bytes, fragment: bool, s: bytes, i: nat) returns (n: nat, step: nat)
    requires name != [] && PutName(name, fragment).Some? && Stands(s, i, PutName(name, fragment).value)
    ensures 1 <= n <= |name| && PutName(name[n..], fragment).Some?
    ensures i < |s| && s[i] != SLASH
    ensures TokenStep(s, i, fragment) == Stored(i + step, name[..n], AllDigits(name[..n]))
    ensures |PutName(name, fragment).value| == step + |PutName(name[n..], fragment).value|
    ensures Stands(s, i + step, PutName(name[n..], fragment).value)
  {
    hide TokenStep, Percents, Unicode.Decode, Unicode.CharLength, Unicode.Encode, Stands;
    var c := name[0];
    if c != TILDE && c != SLASH && fragment && NeedPercentEncode(c) {
      Unicode.DecodeIsRfc3629(name, 0);
      n := Unicode.Decode(name, 0).next;
      step := 3 * n;
      StandsSplit(s, i, Percents(name[..n]), PutName(name[n..], fragment).value);
      PercentStep(s, i, name);
      assert !IsDigit(name[..n][0]);
    } else {
      n := 1;
      var t := if c == TILDE then [TILDE, ZERO] else if c == SLASH then [TILDE, ONE] else [c];
      step := |t|;
      StandsSplit(s, i, t, PutName(name[1..], fragment).value);
      PlainStep(s, i, c, fragment);
      assert name[..1] == [c];
    }
  }

  lemma DigitsSplit(name: bytes, n: nat)
    requires n <= |name|
    ensures AllDigits(name) <==> AllDigits(name[..n]) && AllDigits(name[n..])
  {
    forall k | n <= k < |name| && AllDigits(name[n..]) ensures IsDigit(name[k]) { assert name[n..][k - n] == name[k]; }
  }

  /** A printed name is read back, up to the end of the text or the next '/'. */
  lemma {:induction false} NameRead(s: bytes, i: nat, name: bytes, fragment: bool)
    requires PutName(name, fragment).Some? && Stands(s, i, PutName(name, fragment).value)
    requires var end := i + |PutName(name, fragment).value|; end == |s| || s[end] == SLASH
    ensures Name(s, i, fragment) == Segment(i + |PutName(name, fragment).value|, name, AllDigits(name))
    decreases |name|
  {
    hide TokenStep, Stands;
    if name == [] {
      NothingPut(s, i, fragment);
    } else {
      var n, step := NameHead(name, fragment, s, i);
      NameRead(s, i + step, name[n..], fragment);
      DigitsSplit(name, n);
      assert name[..n] + name[n..] == name;
    }
  }

  lemma NothingPut(s: bytes, i: nat, fragment: bool)
    ensures PutName([], fragment) == Some([]) && (Stands(s, i, []) ==> i <= |s|)
  {
  }

  /** The tokens that Parse makes of these names. */
  function Retokenized(ts: seq<Token>): seq<Token> {
    if ts == [] then [] else [Token(ts[0].name, IndexOf(ts[0].name, AllDigits(ts[0].name)))] + Retokenized(ts[1..])
  }

  lemma {:induction false} RetokenizedNames(ts: seq<Token>)
    ensures |Retokenized(ts)| == |ts| && forall k :: 0 <= k < |ts| ==> Retokenized(ts)[k].name == ts[k].name
  {
    if ts != [] { RetokenizedNames(ts[1..]); }
  }

  lemma TokensStart(ts: seq<Token>, fragment: bool)
    requires PutTokens(ts, fragment).Some?
    ensures PutTokens(ts, fragment).value == [] || PutTokens(ts, fragment).value[0] == SLASH
  {
    hide PutName;
  }

  lemma {:induction false} TokensRead(s: bytes, i: nat, ts: seq<Token>, fragment: bool)
    requires PutTokens(ts, fragment).Some? && Stands(s, i, PutTokens(ts, fragment).value)
    requires i + |PutTokens(ts, fragment).value| == |s|
    ensures i == |s| || s[i] == SLASH
    ensures Tokens(s, i, fragment) == Ok(Retokenized(ts))
    decreases |ts|
  {
    hide PutName, Name, IndexOf, AllDigits;
    if ts != [] {
      var name := ts[0].name;
      var text, rest := PutName(name, fragment).value, PutTokens(ts[1..], fragment).value;
      StandsSplit(s, i, [SLASH] + text, rest);
      StandsSplit(s, i, [SLASH], text);
      StandsAt(s, i, [SLASH], 0);
      var next := i + 1 + |text|;
      TokensRead(s, next, ts[1..], fragment);
      NameRead(s, i + 1, name, fragment);
    }
  }

  /** Parse undoes Stringify on the names of any tokens, in the string form and in the fragment form alike. */
  lemma StringifyThenParse(ts: seq<Token>, fragment: bool)
    requires Stringify(ts, fragment).Some?
    ensures Parse(Stringify(ts, fragment).value) == Ok(Retokenized(ts))
    ensures |Retokenized(ts)| == |ts| && forall k :: 0 <= k < |ts| ==> Retokenized(ts)[k].name == ts[k].name
  {
    hide PutTokens, Tokens;
    var s := Stringify(ts, fragment).value;
    var body := PutTokens(ts, fragment).value;
    TokensStart(ts, fragment);
    RetokenizedNames(ts);
    if fragment {
      assert s[1..] == body;
      TokensRead(s, 1, ts, true);
    } else {
      assert s[0..] == s;
      TokensRead(s, 0, ts, false);
    }
  }

  // ---------- When printing succeeds ----------

  lemma AtSuffix(s: bytes, n: nat, i: nat)
    requires n <= |s|
    ensures At(s[n..], i) == At(s, n + i)
  {
  }

  lemma {:induction false} WellFormedSuffix(s: bytes, n: nat, i: nat)
    requires n <= |s|
    ensures Unicode.WellFormedFrom(s[n..], i) == Unicode.WellFormedFrom(s, n + i)
    decreases |s| - n - i
  {
    if n + i < |s| {
      AtSuffix(s, n, i);
      AtSuffix(s, n, i + 1);
      AtSuffix(s, n, i + 2);
      AtSuffix(s, n, i + 3);
      assert Unicode.CharLength(s[n..], i) == Unicode.CharLength(s, n + i);
      if Unicode.CharLength(s, n + i) > 0 { WellFormedSuffix(s, n, i + Unicode.CharLength(s, n + i)); }
    }
  }

  /** Every name prints in the string form; in the fragment form exactly the well-formed UTF-8 names do. */
  lemma {:induction false} NamePrints(name: bytes, fragment: bool)
    ensures PutName(name, fragment).Some? <==> !fragment || Unicode.WellFormed(name)
    decreases |name|
  {
    hide Unicode.Decode, Unicode.CharLength, Percents;
    if name != [] {
      Unicode.DecodeIsRfc3629(name, 0);
      var n := Unicode.CharLength(name, 0);
      AsciiLength(name);
      if fragment && NeedPercentEncode(name[0]) && name[0] != SLASH {
        if n > 0 {
          NamePrints(name[n..], fragment);
          WellFormedSuffix(name, n, 0);
        }
      } else {
        NamePrints(name[1..], fragment);
        WellFormedSuffix(name, 1, 0);
      }
    }
  }

  lemma AsciiLength(name: bytes)
    requires name != []
    ensures name[0] < 0x80 ==> Unicode.CharLength(name, 0) == 1
    ensures !NeedPercentEncode(name[0]) || name[0] == SLASH ==> name[0] < 0x80
  {
  }

  lemma {:induction false} TokensPrint(ts: seq<Token>, fragment: bool)
    ensures PutTokens(ts, fragment).Some?
       <==> !fragment || forall k :: 0 <= k < |ts| ==> Unicode.WellFormed(ts[k].name)
  {
    hide PutName, Unicode.WellFormed;
    if ts != [] {
      NamePrints(ts[0].name, fragment);
      TokensPrint(ts[1..], fragment);
      forall k | 1 <= k < |ts| && PutTokens(ts[1..], true).Some? && fragment ensures Unicode.WellFormed(ts[k].name) {
        assert ts[k] == ts[1..][k - 1];
      }
    }
  }

  /** Stringify always succeeds; StringifyUriFragment succeeds exactly when every name is well-formed UTF-8. */
  lemma StringifySucceeds(ts: seq<Token>, fragment: bool)
    ensures Stringify(ts, fragment).Some?
       <==> !fragment || forall k :: 0 <= k < |ts| ==> Unicode.WellFormed(ts[k].name)
  {
    hide PutTokens;
    TokensPrint(ts, fragment);
  }

  // ---------- The unreserved characters ----------

  const UPPER: string := "ABCDEFGHIJKLMNOPQRSTUVWXYZ"
  const LOWER: string := "abcdefghijklmnopqrstuvwxyz"
  const DIGITS: string := "0123456789"
  const MARKS: string := "-._~"

  lemma UpperAt(k: nat)
    requires k < 26
    ensures |UPPER| == 26 && UPPER[k] == (0x41 + k) as char
  {
  }

  lemma LowerAt(k: nat)
    requires k < 26
    ensures |LOWER| == 26 && LOWER[k] == (0x61 + k) as char
  {
  }

  lemma DigitAt(k: nat)
    requires k < 10
    ensures |DIGITS| == 10 && DIGITS[k] == (0x30 + k) as char
  {
  }

  lemma InUpper(c: byte)
    ensures c as char in UPPER <==> 0x41 <= c <= 0x5A
  {
    hide UPPER;
    UpperAt(0);
    if 0x41 <= c <= 0x5A { UpperAt(c - 0x41); }
    if c as char in UPPER { var k :| 0 <= k < |UPPER| && UPPER[k] == c as char; UpperAt(k); }
  }

  lemma InLower(c: byte)
    ensures c as char in LOWER <==> 0x61 <= c <= 0x7A
  {
    hide LOWER;
    LowerAt(0);
    if 0x61 <= c <= 0x7A { LowerAt(c - 0x61); }
    if c as char in LOWER { var k :| 0 <= k < |LOWER| && LOWER[k] == c as char; LowerAt(k); }
  }

  lemma InDigits(c: byte)
    ensures c as char in DIGITS <==> 0x30 <= c <= 0x39
  {
    hide DIGITS;
    DigitAt(0);
    if 0x30 <= c <= 0x39 { DigitAt(c - 0x30); }
    if c as char in DIGITS { var k :| 0 <= k < |DIGITS| && DIGITS[k] == c as char; DigitAt(k); }
  }

  /** Written as they are in a fragment: the unreserved characters of section 2.3 of RFC 3986. */
  lemma Unreserved(c: byte)
    ensures NeedPercentEncode(c) <==> c as char !in UPPER + LOWER + DIGITS + MARKS
  {
    hide UPPER, LOWER, DIGITS;
    InUpper(c);
    InLower(c);
    InDigits(c);
    assert c as char in MARKS <==> c in {0x2D, 0x2E, 0x5F, 0x7E} by { assert MARKS == ['-', '.', '_', '~']; }
  }
}
