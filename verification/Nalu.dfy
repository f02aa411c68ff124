/**
 The in-place rewrite of NAL units: from the length-prefixed form of ISO/IEC 14496-15 to the byte-stream form of
 Annex B of ITU-T H.264.
 */
module Nalu {
  import opened Bytes

  function Power256(k: nat): nat { if k == 0 then 1 else 256 * Power256(k - 1) }

  /** The number that a run of bytes writes, most significant first. */
  function BigEndian(s: bytes): nat { if s == [] then 0 else BigEndian(s[..|s| - 1]) * 256 + s[|s| - 1] }

  lemma {:induction false} BigEndianBound(s: bytes)
    ensures BigEndian(s) < Power256(|s|)
  {
    if s != [] { BigEndianBound(s[..|s| - 1]); }
  }

  lemma {:induction false} BigEndianPrepend(b: byte, s: bytes)
    ensures BigEndian([b] + s) == b * Power256(|s|) + BigEndian(s)
  {
    var t := [b] + s;
    if s == [] {
      assert t[..0] == [];
    } else {
      assert t[..|t| - 1] == [b] + s[..|s| - 1];
      BigEndianPrepend(b, s[..|s| - 1]);
    }
  }

  /** The big-endian form of a length. */
  function Prefix(len: nat, n: nat): (r: bytes)
    ensures |r| == n
  {
    if n == 0 then [] else Prefix(len / 256, n - 1) + [len % 256]
  }

  lemma Quotient256(len: nat, p: nat)
    ensures len < 256 * p ==> len / 256 < p
  {
  }

  lemma {:induction false} PrefixValue(len: nat, n: nat)
    requires len < Power256(n)
    ensures BigEndian(Prefix(len, n)) == len
  {
    if n > 0 {
      var p := Prefix(len, n);
      assert p[..|p| - 1] == Prefix(len / 256, n - 1);
      Quotient256(len, Power256(n - 1));
      PrefixValue(len / 256, n - 1);
    }
  }

  /** n - 1 zero bytes and a one: the start code that replaces a length. */
  function StartCode(n: nat): (r: bytes)
    requires n > 0
    ensures |r| == n && r[n - 1] == 1 && forall k :: 0 <= k < n - 1 ==> r[k] == 0
  {
    seq(n - 1, _ => 0) + [1]
  }

  /** A sequence of units, each behind its length. */
  function Framed(units: seq<bytes>, n: nat): bytes {
    if units == [] then [] else Prefix(|units[0]|, n) + units[0] + Framed(units[1..], n)
  }

  /** The same units, each behind a start code. */
  function ByteStream(units: seq<bytes>, n: nat): bytes
    requires n > 0
  {
    if units == [] then [] else StartCode(n) + units[0] + ByteStream(units[1..], n)
  }

  /** Every length of the chain stays inside the buffer, and the last unit ends where it ends. */
  predicate Chained(s: bytes, n: nat)
    requires n > 0
    decreases |s|
  {
    s == [] || (n + Length(s, n) <= |s| && Chained(s[n + Length(s, n)..], n))
  }

  function Length(s: bytes, n: nat): nat { if n <= |s| then BigEndian(s[..n]) else 0 }

  /** What the loop leaves of a chain. */
  function Rewritten(s: bytes, n: nat): (r: bytes)
    requires n > 0 && Chained(s, n)
    ensures |r| == |s|
    decreases |s|
  {
    if s == [] then []
    else
      var next := n + Length(s, n);
      StartCode(n) + s[n..next] + Rewritten(s[next..], n)
  }

  lemma FramedHead(units: seq<bytes>, n: nat)
    requires n > 0 && units != [] && |units[0]| < Power256(n)
    ensures var s := Framed(units, n); var next := n + |units[0]|;
      && next <= |s| && Length(s, n) == |units[0]|
      && s[n..next] == units[0] && s[next..] == Framed(units[1..], n)
  {
    var s := Framed(units, n);
    assert s[..n] == Prefix(|units[0]|, n);
    PrefixValue(|units[0]|, n);
  }

  /**
   On a concatenation of units the rewrite only changes what stands before each of them; with four-byte lengths that
   becomes 00 00 00 01.
   */
  lemma {:induction false} RewriteOfUnits(units: seq<bytes>, n: nat)
    requires n > 0 && forall k :: 0 <= k < |units| ==> |units[k]| < Power256(n)
    ensures Chained(Framed(units, n), n) && Rewritten(Framed(units, n), n) == ByteStream(units, n)
    ensures |ByteStream(units, n)| == |Framed(units, n)|
    ensures n == 4 ==> StartCode(n) == [0, 0, 0, 1]
    decreases |units|
  {
    if units != [] {
      FramedHead(units, n);
      RewriteOfUnits(units[1..], n);
    }
  }

  /** The units of a chain. */
  function Units(s: bytes, n: nat): (r: seq<bytes>)
    requires n > 0 && Chained(s, n)
    decreases |s|
  {
    if s == [] then [] else [s[n..n + Length(s, n)]] + Units(s[n + Length(s, n)..], n)
  }

  lemma {:induction false} PrefixUnique(s: bytes)
    ensures Prefix(BigEndian(s), |s|) == s
  {
    if s != [] {
      var front := s[..|s| - 1];
      PrefixUnique(front);
      assert s == front + [s[|s| - 1]];
    }
  }

  lemma NoneFramed(n: nat)
    ensures Framed([], n) == []
  {
  }

  lemma FramedMore(unit: bytes, units: seq<bytes>, n: nat)
    ensures Framed([unit] + units, n) == Prefix(|unit|, n) + unit + Framed(units, n)
  {
    assert ([unit] + units)[1..] == units;
  }

  /** Chains are exactly the concatenations of units that the loop is meant for. */
  lemma {:induction false} ChainIsFramed(s: bytes, n: nat)
    requires n > 0 && Chained(s, n)
    ensures Framed(Units(s, n), n) == s
    ensures forall k :: 0 <= k < |Units(s, n)| ==> |Units(s, n)[k]| < Power256(n)
    decreases |s|
  {
    hide BigEndian, Power256, Prefix, Framed;
    NoneFramed(n);
    if s != [] {
      var next := n + Length(s, n);
      ChainIsFramed(s[next..], n);
      PrefixUnique(s[..n]);
      BigEndianBound(s[..n]);
      FramedMore(s[n..next], Units(s[next..], n), n);
      assert s == s[..n] + s[n..next] + s[next..];
    }
  }

  // ---------- The loop ----------

  /** read_nbyte of a buffer_t as a number: every byte is or-ed in at its place, and the places do not overlap. */
  method ReadLength(src: bytes) returns (value: nat)
    requires |src| <= 4
    ensures value == BigEndian(src) < 0x1_0000_0000
  {
    hide BigEndian, Power256;
    value := 0;
    var k := 0;
    var place := Power256(|src|);
    assert src[0..] == src;
    while k < |src|
      invariant 0 <= k <= |src| && place == Power256(|src| - k)
      invariant value + BigEndian(src[k..]) == BigEndian(src)
    {
      BigEndianPrepend(src[k], src[k + 1..]);
      assert src[k..] == [src[k]] + src[k + 1..];
      PowerStep(|src| - k);
      place := place / 256;
      value := value + src[k] * place;
      k := k + 1;
    }
    assert src[k..] == [];
    EmptyValue();
    BigEndianBound(src);
    PowerOrder(|src|);
  }

  lemma PowerStep(k: nat)
    requires k > 0
    ensures Power256(k) / 256 == Power256(k - 1)
  {
  }

  lemma EmptyValue()
    ensures BigEndian([]) == 0
  {
  }

  lemma PowerOrder(k: nat)
    requires k <= 4
    ensures Power256(k) <= 0x1_0000_0000
  {
    assert Power256(1) == 256 && Power256(2) == 65536 && Power256(3) == 16777216;
  }

  /** write_nbyte: the bytes of the start code over those of the length. */
  method WriteCode(code: bytes, a: array<byte>, at: nat)
    requires at + |code| <= a.Length
    modifies a
    ensures a[..] == old(a[..at]) + code + old(a[at + |code|..])
  {
    var k := 0;
    while k < |code|
      invariant 0 <= k <= |code|
      invariant a[..] == old(a[..at]) + code[..k] + old(a[at + k..])
    {
      a[at + k] := code[k];
      k := k + 1;
      assert code[..k] == code[..k - 1] + [code[k - 1]];
    }
    assert code[..k] == code;
  }

  /** One unit of a chain, seen from the middle of the buffer. */
  lemma RewrittenStep(done: bytes, rest: bytes, n: nat)
    requires n > 0 && rest != []
    ensures var next := n + Length(rest, n);
      && (Chained(rest, n) <==> next <= |rest| && Chained(rest[next..], n))
      && (Chained(rest, n) ==>
            done + Rewritten(rest, n) == done + StartCode(n) + rest[n..next] + Rewritten(rest[next..], n))
  {
    hide BigEndian;
  }

  /** One pass: reads the length of a unit and writes the start code over it. */
  method RewriteOne(code: bytes, a: array<byte>, at: nat, left: nat) returns (fits: bool, length: nat)
    requires 1 <= |code| <= 4 && at + left == a.Length
    modifies a
    ensures length == Length(old(a[at..]), |code|)
    ensures fits == (|code| + length <= left)
    ensures fits ==> a[..at + |code| + length] == old(a[..at]) + code + old(a[at..])[|code|..|code| + length]
    ensures fits ==> a[at + |code| + length..] == old(a[at..])[|code| + length..]
  {
    hide BigEndian;
    var n := |code|;
    ghost var done, rest := a[..at], a[at..];
    if left < n { return false, 0; }
    var nalStartCode := a[at..at + n];
    assert nalStartCode == rest[..n];
    length := ReadLength(nalStartCode);
    if left - n < length { return false, length; }
    assert a[at + n..] == rest[n..];
    WriteCode(code, a, at);
    ghost var whole := done + code + rest[n..];
    assert a[..] == whole;
    assert a[..at + n + length] == whole[..at + n + length] == done + code + rest[n..n + length];
    assert a[at + n + length..] == whole[at + n + length..] == rest[n + length..];
    fits := true;
  }

  /**
   replace_nalu_start_code_from_mp4_to_ts: two cursors walk the buffer in step, one reading lengths, one writing start
   codes.  Nothing in the source keeps them inside the buffer; `inside` is whether they stay there, and where they do
   not, the model stops before the access that leaves it.
   */
  method ReplaceStartCodes(n: nat, a: array<byte>) returns (inside: bool)
    requires 1 <= n <= 4
    modifies a
    ensures inside == Chained(old(a[..]), n)
    ensures inside ==> a[..] == Rewritten(old(a[..]), n)
  {
    hide Rewritten, Chained, BigEndian;
    var code := StartCode(n);
    var mp4: nat, left: nat, ts: nat := 0, a.Length, 0;
    ghost var before := a[..];
    assert a[0..] == before && a[..0] == [];
    assert Chained(before, n) ==> [] + Rewritten(before, n) == Rewritten(before, n);
    while left > 0
      invariant mp4 == ts && mp4 + left == a.Length
      invariant Chained(before, n) <==> Chained(a[mp4..], n)
      invariant Chained(before, n) ==> a[..mp4] + Rewritten(a[mp4..], n) == Rewritten(before, n)
    {
      ghost var done, rest := a[..mp4], a[mp4..];
      RewrittenStep(done, rest, n);
      var fits, length := RewriteOne(code, a, mp4, left);
      if !fits { return false; }
      mp4 := mp4 + n + length;
      left := left - n - length;
      ts := ts + n + length;
    }
    EmptyChain(a[mp4..], n);
    assert a[..mp4] == a[..];
    return true;
  }

  lemma EmptyChain(s: bytes, n: nat)
    requires n > 0 && s == []
    ensures Chained(s, n) && Rewritten(s, n) == []
  {
  }

  lemma PrefixOfThree()
    ensures Prefix(3, 2) == [0, 3]
  {
    assert Prefix(0, 1) == [0];
  }

  lemma FourBytesValue(s: bytes)
    requires |s| == 4
    ensures BigEndian(s) >= 65536 * (s[1] as int)
  {
    hide BigEndian, Power256;
    BigEndianPrepend(s[0], s[1..]);
    BigEndianPrepend(s[1], s[2..]);
    assert [s[0]] + s[1..] == s && [s[1]] + s[2..] == s[1..];
    PowerOfTwoBytes();
  }

  lemma PowerOfTwoBytes()
    ensures Power256(2) == 65536
  {
    assert Power256(1) == 256;
  }

  /**
   Units behind two-byte lengths, which a sequence header may announce, are no chain of four-byte lengths, which the
   caller always assumes: the loop leaves the buffer.
   */
  lemma TwoByteLengths()
    ensures var s := Framed([[0x65, 0x88, 0x84]], 2); s == [0, 3, 0x65, 0x88, 0x84] && !Chained(s, 4)
  {
    hide Framed, Prefix, BigEndian;
    var unit: bytes := [0x65, 0x88, 0x84];
    assert Framed([unit], 2) == [0, 3] + unit by {
      FramedMore(unit, [], 2);
      NoneFramed(2);
      PrefixOfThree();
      assert [unit] + [] == [unit] && [0, 3] + unit + [] == [0, 3] + unit;
    }
    var s: bytes := [0, 3, 0x65, 0x88, 0x84];
    assert Framed([unit], 2) == s;
    FourBytesValue(s[..4]);
    assert Length(s, 4) >= 3 * 65536;
  }
}
