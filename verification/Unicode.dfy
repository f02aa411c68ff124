/**
 The UTF-8 and UTF-16 codecs of encodings.h.  `Decode` is the range automaton; the
 reference is the grammar of section 4 of RFC 3629, written without the automaton.
 */
module Unicode {
  import opened Bytes

  predicate Surrogate(cp: nat) { 0xD800 <= cp <= 0xDFFF }

  predicate Scalar(cp: nat) { cp <= 0x10FFFF && !Surrogate(cp) }

  // ---------- UTF-8 ----------

  function Encode(cp: nat): (r: bytes)
    requires cp <= 0x10FFFF
    ensures 1 <= |r| <= 4
  {
    if cp <= 0x7F then [cp]
    else if cp <= 0x7FF then [0xC0 + cp / 64, 0x80 + cp % 64]
    else if cp <= 0xFFFF then [0xE0 + cp / 4096, 0x80 + cp / 64 % 64, 0x80 + cp % 64]
    else [0xF0 + cp / 262144, 0x80 + cp / 4096 % 64, 0x80 + cp / 64 % 64, 0x80 + cp % 64]
  }

  /** The six-bit groups of a code point, by successive shifts. */
  lemma Groups(w: nat, x: nat, y: nat, z: nat)
    requires x < 64 && y < 64 && z < 64
    ensures var cp := w * 262144 + x * 4096 + y * 64 + z;
      && cp % 64 == z
      && cp / 64 == w * 4096 + x * 64 + y && cp / 64 % 64 == y
      && cp / 4096 == w * 64 + x && cp / 4096 % 64 == x
      && cp / 262144 == w
  {
    var a, b := w * 4096 + x * 64 + y, w * 64 + x;
    Group(a, z);
    Group(b, y);
    Group(w, x);
    Shifts(a * 64 + z);
    assert a == b * 64 + y;
  }

  lemma Group(high: nat, low: nat)
    requires low < 64
    ensures (high * 64 + low) / 64 == high && (high * 64 + low) % 64 == low
  {
  }

  lemma Shifts(cp: nat)
    ensures cp / 4096 == cp / 64 / 64 && cp / 262144 == cp / 64 / 64 / 64
  {
  }

  /** Character class of a code unit; the high nibble of a tail byte's class is a mask bit. */
  function GetRange(c: byte): nat {
    if c < 0x80 then 0
    else if c < 0x90 then 0x10
    else if c < 0xA0 then 0x40
    else if c < 0xC0 then 0x20
    else if c < 0xC2 then 8
    else if c < 0xE0 then 2
    else if c == 0xE0 then 10
    else if c == 0xED then 4
    else if c < 0xF0 then 3
    else if c == 0xF0 then 11
    else if c < 0xF4 then 6
    else if c == 0xF4 then 5
    else 8
  }

  /** `(cls & mask) != 0`: the three class bits are 0x10, 0x20 and 0x40, and no mask has a bit below them. */
  predicate Meets(cls: nat, mask: nat) {
    || (cls == 0x10 && mask / 0x10 % 2 == 1)
    || (cls == 0x20 && mask / 0x20 % 2 == 1)
    || (cls == 0x40 && mask / 0x40 % 2 == 1)
  }

  /** Outcome of Decode or Validate: verdict, code point, and the position after the last Take(). */
  datatype Decoded = Decoded(ok: bool, cp: nat, next: nat)

  /** RAPIDJSON_COPY followed by RAPIDJSON_TRANS(mask). */
  function Tail(s: bytes, d: Decoded, mask: nat): Decoded {
    var c := At(s, d.next);
    Decoded(d.ok && Meets(GetRange(c), mask), d.cp * 64 + c % 64, d.next + 1)
  }

  function Decode(s: bytes, i: nat): (d: Decoded)
    ensures i < d.next <= i + 4
  {
    var c := At(s, i);
    if c < 0x80 then Decoded(true, c, i + 1)
    else match GetRange(c)
      case 2 => Tail(s, Decoded(true, c % 64, i + 1), 0x70)
      case 3 => Tail(s, Tail(s, Decoded(true, c % 32, i + 1), 0x70), 0x70)
      case 4 => Tail(s, Tail(s, Decoded(true, c % 16, i + 1), 0x50), 0x70)
      case 5 => Tail(s, Tail(s, Tail(s, Decoded(true, c % 8, i + 1), 0x10), 0x70), 0x70)
      case 6 => Tail(s, Tail(s, Tail(s, Decoded(true, c % 4, i + 1), 0x70), 0x70), 0x70)
      case 10 => Tail(s, Tail(s, Decoded(true, 0, i + 1), 0x20), 0x70)
      case 11 => Tail(s, Tail(s, Tail(s, Decoded(true, 0, i + 1), 0x60), 0x70), 0x70)
      case _ => Decoded(false, 0, i + 1)
  }

  predicate Between(lo: byte, c: byte, hi: byte) { lo <= c <= hi }

  predicate IsTail(c: byte) { Between(0x80, c, 0xBF) }

  /** Length of the UTF8-char of RFC 3629 that starts at `i`, or 0 when none does. */
  function CharLength(s: bytes, i: nat): (n: nat)
    requires i < |s|
    ensures n <= 4 && i + n <= |s|
  {
    var a, b, c, d := s[i], At(s, i + 1), At(s, i + 2), At(s, i + 3);
    if a <= 0x7F then 1
    else if Between(0xC2, a, 0xDF) && IsTail(b) then 2
    else if ( || (a == 0xE0 && Between(0xA0, b, 0xBF))
              || (Between(0xE1, a, 0xEC) && IsTail(b))
              || (a == 0xED && Between(0x80, b, 0x9F))
              || (Between(0xEE, a, 0xEF) && IsTail(b)))
            && IsTail(c) then 3
    else if ( || (a == 0xF0 && Between(0x90, b, 0xBF))
              || (Between(0xF1, a, 0xF3) && IsTail(b))
              || (a == 0xF4 && Between(0x80, b, 0x8F)))
            && IsTail(c) && IsTail(d) then 4
    else 0
  }

  /** `s` from position `i` on is a sequence of UTF8-chars. */
  predicate WellFormedFrom(s: bytes, i: nat)
    decreases |s| - i
  {
    i >= |s| || (CharLength(s, i) > 0 && WellFormedFrom(s, i + CharLength(s, i)))
  }

  predicate WellFormed(s: bytes) { WellFormedFrom(s, 0) }

  /** What each mask of the automaton tests, as the byte ranges of RFC 3629. */
  lemma MaskMeaning(c: byte)
    ensures Meets(GetRange(c), 0x70) <==> IsTail(c)
    ensures Meets(GetRange(c), 0x50) <==> Between(0x80, c, 0x9F)
    ensures Meets(GetRange(c), 0x10) <==> Between(0x80, c, 0x8F)
    ensures Meets(GetRange(c), 0x20) <==> Between(0xA0, c, 0xBF)
    ensures Meets(GetRange(c), 0x60) <==> Between(0x90, c, 0xBF)
  {
  }

  lemma DecodeVerdict(s: bytes, i: nat)
    requires i < |s|
    ensures Decode(s, i).ok <==> CharLength(s, i) > 0
    ensures Decode(s, i).ok ==> Decode(s, i).next == i + CharLength(s, i)
  {
    MaskMeaning(At(s, i + 1));
    MaskMeaning(At(s, i + 2));
    MaskMeaning(At(s, i + 3));
  }

  function Lead2(a: byte, b: byte): nat { a % 32 * 64 + b % 64 }
  function Lead3(a: byte, b: byte, c: byte): nat { (a % 16 * 64 + b % 64) * 64 + c % 64 }
  function Lead4(a: byte, b: byte, c: byte, d: byte): nat { ((a % 8 * 64 + b % 64) * 64 + c % 64) * 64 + d % 64 }

  lemma EncodeLead2(a: byte, b: byte)
    requires Between(0xC2, a, 0xDF) && IsTail(b)
    ensures Lead2(a, b) <= 0x7FF && Encode(Lead2(a, b)) == [a, b]
  {
    Groups(0, 0, a - 0xC0, b - 0x80);
    assert a % 32 == a - 0xC0 && b % 64 == b - 0x80;
  }

  lemma TailPayload(b: byte)
    requires IsTail(b)
    ensures b % 64 == b - 0x80
  {
  }

  lemma Lead3Value(a: byte, b: byte, c: byte)
    requires Between(0xE0, a, 0xEF) && IsTail(b) && IsTail(c)
    ensures Lead3(a, b, c) == (a - 0xE0) * 4096 + (b - 0x80) * 64 + (c - 0x80)
    ensures Surrogate(Lead3(a, b, c)) <==> a == 0xED && b >= 0xA0
  {
    TailPayload(b);
    TailPayload(c);
    assert a % 16 == a - 0xE0;
  }

  lemma EncodeLead3(a: byte, b: byte, c: byte)
    requires Between(0xE0, a, 0xEF) && IsTail(b) && IsTail(c)
    requires a == 0xE0 ==> b >= 0xA0
    ensures Lead3(a, b, c) <= 0xFFFF && Encode(Lead3(a, b, c)) == [a, b, c]
  {
    Lead3Value(a, b, c);
    hide Lead3, Surrogate;
    var x: nat, y: nat, z: nat, cp := a - 0xE0, b - 0x80, c - 0x80, Lead3(a, b, c);
    Groups(0, x, y, z);
    assert cp / 4096 == x && cp / 64 % 64 == y && cp % 64 == z;
  }

  lemma Lead4Value(a: byte, b: byte, c: byte, d: byte)
    requires Between(0xF0, a, 0xF4) && IsTail(b) && IsTail(c) && IsTail(d)
    ensures Lead4(a, b, c, d) == (a - 0xF0) * 262144 + (b - 0x80) * 4096 + (c - 0x80) * 64 + (d - 0x80)
  {
    TailPayload(b);
    TailPayload(c);
    TailPayload(d);
    assert a % 8 == a - 0xF0;
  }

  lemma EncodeLead4(a: byte, b: byte, c: byte, d: byte)
    requires Between(0xF0, a, 0xF4) && IsTail(b) && IsTail(c) && IsTail(d)
    requires (a == 0xF0 ==> b >= 0x90) && (a == 0xF4 ==> b <= 0x8F)
    ensures 0x10000 <= Lead4(a, b, c, d) <= 0x10FFFF && Encode(Lead4(a, b, c, d)) == [a, b, c, d]
  {
    hide Lead4, Surrogate, Encode;
    Lead4Value(a, b, c, d);
    EncodeGroups(a - 0xF0, b - 0x80, c - 0x80, d - 0x80);
  }

  lemma EncodeGroups(w: nat, x: nat, y: nat, z: nat)
    requires w <= 4 && x < 64 && y < 64 && z < 64 && (w == 0 ==> x >= 16) && (w == 4 ==> x < 16)
    ensures var cp := w * 262144 + x * 4096 + y * 64 + z;
      0x10000 <= cp <= 0x10FFFF && Encode(cp) == [0xF0 + w, 0x80 + x, 0x80 + y, 0x80 + z]
  {
    Groups(w, x, y, z);
  }

  /** The code point that an accepted sequence of n bytes yields. */
  lemma DecodedValue2(s: bytes, i: nat)
    requires i < |s| && CharLength(s, i) == 2
    ensures Decode(s, i).cp == Lead2(s[i], s[i + 1])
  {
    LeadBits(s[i]);
  }

  lemma DecodedValue3(s: bytes, i: nat)
    requires i < |s| && CharLength(s, i) == 3
    ensures Decode(s, i).cp == Lead3(s[i], s[i + 1], s[i + 2])
  {
    LeadBits(s[i]);
    var a: nat, b: nat, c: nat := s[i], At(s, i + 1), At(s, i + 2);
    assert Decode(s, i).cp == (a % 16 * 64 + b % 64) * 64 + c % 64;
  }

  lemma DecodedValue4(s: bytes, i: nat)
    requires i < |s| && CharLength(s, i) == 4
    ensures Decode(s, i).cp == Lead4(s[i], s[i + 1], s[i + 2], s[i + 3])
  {
    LeadBits(s[i]);
    var a: nat, b: nat, c: nat, d: nat := s[i], At(s, i + 1), At(s, i + 2), At(s, i + 3);
    assert Decode(s, i).cp == ((a % 8 * 64 + b % 64) * 64 + c % 64) * 64 + d % 64;
  }

  /** The payload bits that the shift by the class keeps are those of the form that RFC 3629 gives. */
  lemma LeadBits(a: byte)
    ensures GetRange(a) == 2 ==> a % 64 == a % 32
    ensures GetRange(a) == 4 || GetRange(a) == 10 ==> a % 16 == (if a == 0xED then 13 else 0)
    ensures GetRange(a) == 3 ==> a % 32 == a % 16
    ensures GetRange(a) == 11 ==> a % 8 == 0
    ensures GetRange(a) == 6 ==> a % 8 == a % 4
  {
  }

  /** The automaton accepts exactly the characters of RFC 3629, consumes exactly their bytes, and Encode undoes it. */
  lemma DecodeIsRfc3629(s: bytes, i: nat)
    requires i < |s|
    ensures Decode(s, i).ok <==> CharLength(s, i) > 0
    ensures Decode(s, i).ok ==>
              && Decode(s, i).next == i + CharLength(s, i)
              && Scalar(Decode(s, i).cp)
              && s[i..Decode(s, i).next] == Encode(Decode(s, i).cp)
  {
    DecodeVerdict(s, i);
    var n := CharLength(s, i);
    if n == 1 {
      assert s[i..i + n] == [s[i]];
    } else if n == 2 {
      DecodedValue2(s, i);
      EncodeLead2(s[i], s[i + 1]);
      assert s[i..i + n] == [s[i], s[i + 1]];
    } else if n == 3 {
      DecodedValue3(s, i);
      Lead3Value(s[i], s[i + 1], s[i + 2]);
      EncodeLead3(s[i], s[i + 1], s[i + 2]);
      assert s[i..i + n] == [s[i], s[i + 1], s[i + 2]];
    } else if n == 4 {
      DecodedValue4(s, i);
      EncodeLead4(s[i], s[i + 1], s[i + 2], s[i + 3]);
      assert s[i..i + n] == [s[i], s[i + 1], s[i + 2], s[i + 3]];
    }
  }

  /** Where the encoding of a scalar value stands, exactly one UTF8-char of that length stands. */
  lemma EncodeIsChar(s: bytes, i: nat, cp: nat)
    requires Scalar(cp) && Stands(s, i, Encode(cp))
    ensures CharLength(s, i) == |Encode(cp)|
  {
    var e := Encode(cp);
    forall k | 0 <= k < |e| ensures At(s, i + k) == e[k] { StandsAt(s, i, e, k); }
    assert At(s, i + 0) == e[0];
    if |e| > 1 { assert At(s, i + 1) == e[1]; }
    if |e| > 2 { assert At(s, i + 2) == e[2]; }
    if |e| > 3 { assert At(s, i + 3) == e[3]; }
  }

  /** The code point whose encoding is `r`, read off its bytes without division. */
  function Recover(r: seq<int>): int {
    if |r| == 1 then r[0]
    else if |r| == 2 then (r[0] - 0xC0) * 64 + (r[1] - 0x80)
    else if |r| == 3 then (r[0] - 0xE0) * 4096 + (r[1] - 0x80) * 64 + (r[2] - 0x80)
    else if |r| == 4 then (r[0] - 0xF0) * 262144 + (r[1] - 0x80) * 4096 + (r[2] - 0x80) * 64 + (r[3] - 0x80)
    else 0
  }

  lemma RecoverEncode(cp: nat)
    requires Scalar(cp)
    ensures Recover(Encode(cp)) == cp
  {
    Regroup(cp);
  }

  lemma Regroup(cp: nat)
    ensures cp == cp / 262144 * 262144 + cp / 4096 % 64 * 4096 + cp / 64 % 64 * 64 + cp % 64
  {
    var a := cp / 64;
    var b := a / 64;
    var c := b / 64;
    Groups(c, b % 64, a % 64, cp % 64);
  }

  /** A scalar value survives Encode and Decode wherever it stands in a text. */
  lemma DecodeEncode(s: bytes, i: nat, cp: nat)
    requires Scalar(cp) && Stands(s, i, Encode(cp))
    ensures Decode(s, i) == Decoded(true, cp, i + |Encode(cp)|)
  {
    EncodeIsChar(s, i, cp);
    DecodeIsRfc3629(s, i);
    RecoverEncode(cp);
    RecoverEncode(Decode(s, i).cp);
  }

  /** RAPIDJSON_COPY with an output stream, followed by RAPIDJSON_TRANS(mask). */
  method ValidateTail(s: bytes, next: nat, copied: bytes, ok: bool, mask: nat, ghost d: Decoded)
    returns (next': nat, copied': bytes, ok': bool, ghost d': Decoded)
    requires next == d.next && ok == d.ok
    ensures d' == Tail(s, d, mask) && next' == d'.next && ok' == d'.ok
    ensures copied' == copied + [At(s, next)]
  {
    var c := At(s, next);
    next', copied', ok' := next + 1, copied + [c], ok && Meets(GetRange(c), mask);
    d' := Tail(s, d, mask);
  }

  /** Validate consumes what Decode consumes, with the same verdict, and copies those very bytes. */
  method Validate(s: bytes, i: nat) returns (ok: bool, next: nat, copied: bytes)
    requires i < |s|
    ensures ok == Decode(s, i).ok && next == Decode(s, i).next
    ensures |copied| == next - i && forall k :: 0 <= k < |copied| ==> copied[k] == At(s, i + k)
  {
    var c := At(s, i);
    copied, next, ok := [c], i + 1, true;
    if c < 0x80 { return; }
    ghost var d;
    match GetRange(c) {
      case 2 =>
        next, copied, ok, d := ValidateTail(s, next, copied, ok, 0x70, Decoded(true, c % 64, i + 1));
      case 3 =>
        next, copied, ok, d := ValidateTail(s, next, copied, ok, 0x70, Decoded(true, c % 32, i + 1));
        next, copied, ok, d := ValidateTail(s, next, copied, ok, 0x70, d);
      case 4 =>
        next, copied, ok, d := ValidateTail(s, next, copied, ok, 0x50, Decoded(true, c % 16, i + 1));
        next, copied, ok, d := ValidateTail(s, next, copied, ok, 0x70, d);
      case 5 =>
        next, copied, ok, d := ValidateTail(s, next, copied, ok, 0x10, Decoded(true, c % 8, i + 1));
        next, copied, ok, d := ValidateTail(s, next, copied, ok, 0x70, d);
        next, copied, ok, d := ValidateTail(s, next, copied, ok, 0x70, d);
      case 6 =>
        next, copied, ok, d := ValidateTail(s, next, copied, ok, 0x70, Decoded(true, c % 4, i + 1));
        next, copied, ok, d := ValidateTail(s, next, copied, ok, 0x70, d);
        next, copied, ok, d := ValidateTail(s, next, copied, ok, 0x70, d);
      case 10 =>
        next, copied, ok, d := ValidateTail(s, next, copied, ok, 0x20, Decoded(true, 0, i + 1));
        next, copied, ok, d := ValidateTail(s, next, copied, ok, 0x70, d);
      case 11 =>
        next, copied, ok, d := ValidateTail(s, next, copied, ok, 0x60, Decoded(true, 0, i + 1));
        next, copied, ok, d := ValidateTail(s, next, copied, ok, 0x70, d);
        next, copied, ok, d := ValidateTail(s, next, copied, ok, 0x70, d);
      case _ =>
        ok := false;
    }
  }

  // ---------- UTF-16 ----------

  type unit16 = x: int | 0 <= x < 0x1_0000

  function At16(w: seq<unit16>, i: nat): unit16 {
    if i < |w| then w[i] else 0
  }

  function Encode16(cp: nat): (r: seq<unit16>)
    requires Scalar(cp)
    ensures 1 <= |r| <= 2
  {
    if cp <= 0xFFFF then [cp]
    else [0xD800 + (cp - 0x10000) / 1024, 0xDC00 + (cp - 0x10000) % 1024]
  }

  function Decode16(w: seq<unit16>, i: nat): (d: Decoded)
    ensures i < d.next <= i + 2
  {
    var c := At16(w, i);
    if c < 0xD800 || c > 0xDFFF then Decoded(true, c, i + 1)
    else if c <= 0xDBFF then
      var c2 := At16(w, i + 1);
      Decoded(0xDC00 <= c2 <= 0xDFFF, c % 1024 * 1024 + c2 % 1024 + 0x10000, i + 2)
    else Decoded(false, 0, i + 1)
  }

  /** A character of section 2.2 of RFC 2781: a unit that is no surrogate, or a leading and a trailing one. */
  lemma Decode16IsRfc2781(w: seq<unit16>, i: nat)
    requires i < |w|
    ensures var a, b := w[i], At16(w, i + 1); var d := Decode16(w, i);
      && (d.ok <==> !(0xD800 <= a <= 0xDFFF) || (0xD800 <= a <= 0xDBFF && 0xDC00 <= b <= 0xDFFF))
      && (d.ok ==>
            if 0xD800 <= a <= 0xDFFF then d.cp == 0x10000 + (a - 0xD800) * 0x400 + (b - 0xDC00) && d.next == i + 2
            else d.cp == a && d.next == i + 1)
  {
  }

  /** Transcoder<UTF8, UTF16>::Transcode repeated until the text is used up; None when one step fails. */
  function ToUtf16(s: bytes, i: nat, out: seq<unit16>): (r: (bool, seq<unit16>))
    decreases |s| - i
  {
    if i >= |s| then (true, out)
    else if !Decode(s, i).ok then (false, out)
    else
      DecodeIsRfc3629(s, i);
      ToUtf16(s, Decode(s, i).next, out + Encode16(Decode(s, i).cp))
  }

  /** Transcoder<UTF16, UTF8>::Transcode repeated likewise. */
  function ToUtf8(w: seq<unit16>, i: nat, out: bytes): (r: (bool, bytes))
    decreases |w| - i
  {
    if i >= |w| then (true, out)
    else if !Decode16(w, i).ok then (false, out)
    else ToUtf8(w, Decode16(w, i).next, out + Encode(Decode16(w, i).cp))
  }

  lemma {:induction false} ToUtf16Succeeds(s: bytes, i: nat, out: seq<unit16>)
    requires i <= |s|
    ensures ToUtf16(s, i, out).0 <==> WellFormedFrom(s, i)
    ensures out <= ToUtf16(s, i, out).1
    decreases |s| - i
  {
    if i < |s| {
      DecodeIsRfc3629(s, i);
      if Decode(s, i).ok {
        ToUtf16Succeeds(s, Decode(s, i).next, out + Encode16(Decode(s, i).cp));
      }
    }
  }

  lemma Decode16Encode16(w: seq<unit16>, i: nat, cp: nat)
    requires Scalar(cp) && i + |Encode16(cp)| <= |w|
    requires w[i..i + |Encode16(cp)|] == Encode16(cp)
    ensures Decode16(w, i) == Decoded(true, cp, i + |Encode16(cp)|)
  {
    var e := Encode16(cp);
    assert w[i] == w[i..i + |e|][0];
    if |e| == 2 { assert w[i + 1] == w[i..i + |e|][1]; }
  }

  lemma ToUtf8Step(w: seq<unit16>, i: nat, cp: nat, out: bytes)
    requires Scalar(cp) && i + |Encode16(cp)| <= |w|
    requires w[i..i + |Encode16(cp)|] == Encode16(cp)
    ensures ToUtf8(w, i, out) == ToUtf8(w, i + |Encode16(cp)|, out + Encode(cp))
  {
    Decode16Encode16(w, i, cp);
  }

  /** Reading back the units of the first character of a suffix leaves the units of the rest. */
  lemma TranscodeStep(s: bytes, i: nat, out: seq<unit16>, back: bytes)
    requires i < |s| && WellFormedFrom(s, i)
    ensures var d := Decode(s, i);
      && Scalar(d.cp) && i < d.next <= |s| && WellFormedFrom(s, d.next) && s[i..d.next] == Encode(d.cp)
      && var out' := out + Encode16(d.cp);
      && ToUtf8(ToUtf16(s, i, out).1, |out|, back) == ToUtf8(ToUtf16(s, d.next, out').1, |out'|, back + Encode(d.cp))
  {
    hide Decode, CharLength, Encode, Encode16, Scalar;
    DecodeIsRfc3629(s, i);
    var d := Decode(s, i);
    var out' := out + Encode16(d.cp);
    var w := ToUtf16(s, d.next, out').1;
    ToUtf16Succeeds(s, d.next, out');
    assert w[|out|..|out'|] == out'[|out|..] == Encode16(d.cp);
    ToUtf8Step(w, |out|, d.cp, back);
  }

  /** Transcoding a suffix to UTF-16 and reading the units just produced restores that suffix. */
  lemma {:induction false} TranscodeSuffix(s: bytes, i: nat, out: seq<unit16>, back: bytes)
    requires i <= |s| && WellFormedFrom(s, i)
    ensures ToUtf8(ToUtf16(s, i, out).1, |out|, back) == (true, back + s[i..])
    decreases |s| - i
  {
    if i == |s| {
      assert back + s[i..] == back;
    } else {
      TranscodeStep(s, i, out, back);
      var d := Decode(s, i);
      TranscodeSuffix(s, d.next, out + Encode16(d.cp), back + Encode(d.cp));
      assert back + s[i..] == back + s[i..d.next] + s[d.next..];
    }
  }

  /** UTF-8 to UTF-16 succeeds exactly on well-formed text, and then coming back is the identity. */
  lemma TranscodeRoundTrip(s: bytes)
    ensures ToUtf16(s, 0, []).0 <==> WellFormed(s)
    ensures WellFormed(s) ==> ToUtf8(ToUtf16(s, 0, []).1, 0, []) == (true, s)
  {
    ToUtf16Succeeds(s, 0, []);
    if WellFormed(s) {
      TranscodeSuffix(s, 0, [], []);
      assert [] + s[0..] == s;
    }
  }
}
